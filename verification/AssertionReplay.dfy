/** How long a client assertion's jti is remembered. Claims carry nanoseconds; the store's clock
    and the deadlines are whole seconds in a saturating unsigned 64-bit integer. */
module AssertionReplay {
  import opened U64
  import opened TokenUse

  const SEC: nat := 1_000_000_000

  /** `exp` and `iat` in nanoseconds since the epoch. */
  datatype Assertion = Assertion(exp: nat, iat: nat)

  datatype Policy = Policy(maxAge: nat, leeway: nat)

  /** The window in which the JWT library accepts the assertion, at nanosecond `t`. */
  predicate Accepted(a: Assertion, p: Policy, t: nat) {
    && t < a.exp + p.leeway * SEC
    && t <= a.iat + (p.maxAge + p.leeway) * SEC
    && a.iat <= t + p.leeway * SEC
  }

  function ExpDeadline(a: Assertion, p: Policy): nat {
    SatAdd(SatAdd(a.exp / SEC, if a.exp % SEC > 0 then 1 else 0), p.leeway)
  }

  function AgeDeadline(a: Assertion, p: Policy): nat {
    SatAdd(SatAdd(SatAdd(a.iat / SEC, p.maxAge), p.leeway), 1)
  }

  function ReplayDeadline(a: Assertion, p: Policy): nat {
    if ExpDeadline(a, p) <= AgeDeadline(a, p) then ExpDeadline(a, p) else AgeDeadline(a, p)
  }

  /** The retention asked of the store, from the clock reading `now`. */
  function Ttl(a: Assertion, p: Policy, now: nat): nat {
    var d := SatSub(ReplayDeadline(a, p), now);
    if d < 1 then 1 else d
  }

  /** While the 64-bit clock has not run out, an accepted assertion is before its deadline. */
  lemma AcceptedBeforeDeadline(a: Assertion, p: Policy, t: nat)
    requires Accepted(a, p, t)
    requires t / SEC < U64_MAX
    ensures t / SEC < ReplayDeadline(a, p)
  {
  }

  /** The entry written by a first use outlives every later instant at which the assertion would be
      accepted. `read` is the clock reading behind the TTL, `stored` the one inside the store. */
  lemma EntryOutlivesAcceptance(a: Assertion, p: Policy, read: nat, stored: nat, t: nat)
    requires read <= stored <= t / SEC < U64_MAX
    requires Accepted(a, p, t)
    ensures t / SEC < stored + Ttl(a, p, read)
  {
    AcceptedBeforeDeadline(a, p, t);
  }

  /** Exactly the last second a 64-bit clock can show is not covered: there the deadline saturates. */
  lemma CoveredExactlyBelowClockEnd(a: Assertion, p: Policy, stored: nat, t: nat)
    requires stored <= t / SEC <= U64_MAX && stored < U64_MAX
    requires Accepted(a, p, t)
    ensures t / SEC < stored + Ttl(a, p, stored) <==> t / SEC < U64_MAX
  {
    if t / SEC < U64_MAX {
      EntryOutlivesAcceptance(a, p, stored, stored, t);
    }
  }

  /** A concrete assertion accepted in the clock's last two seconds and not remembered in the last. */
  lemma ClockEndReplay()
    ensures var a, p := Assertion(U64_MAX * SEC, U64_MAX * SEC), Policy(300, 60);
            && Accepted(a, p, (U64_MAX - 1) * SEC)
            && Accepted(a, p, U64_MAX * SEC)
            && U64_MAX >= (U64_MAX - 1) + Ttl(a, p, U64_MAX - 1)
  {
    assert (U64_MAX * SEC) / SEC == U64_MAX && (U64_MAX * SEC) % SEC == 0;
  }

  /** No entry is held longer than the acceptance window can need, whatever `exp` the client chose. */
  lemma RetentionBounded(a: Assertion, p: Policy, verified: nat, read: nat)
    requires Accepted(a, p, verified) && verified / SEC <= read
    ensures 1 <= Ttl(a, p, read) <= p.maxAge + 2 * p.leeway + 1
  {
    assert a.iat / SEC <= verified / SEC + p.leeway;
    assert ReplayDeadline(a, p) <= a.iat / SEC + p.maxAge + p.leeway + 1;
  }

  /** The bound is met: an assertion issued as far ahead as the leeway allows is kept that long. */
  lemma RetentionReached(p: Policy, now: nat)
    requires now + p.maxAge + 2 * p.leeway + 1 <= U64_MAX
    ensures var a := Assertion((now + p.maxAge + 2 * p.leeway + 1) * SEC, (now + p.leeway) * SEC);
            Accepted(a, p, now * SEC) && Ttl(a, p, now) == p.maxAge + 2 * p.leeway + 1
  {
    var exp, iat := now + p.maxAge + 2 * p.leeway + 1, now + p.leeway;
    assert (exp * SEC) / SEC == exp && (exp * SEC) % SEC == 0 && (iat * SEC) / SEC == iat;
  }

  /** Some instant of second `u` passes the expiry and the age check. */
  ghost predicate PassesDuring(a: Assertion, p: Policy, u: nat) {
    exists t: nat :: t / SEC == u && t < a.exp + p.leeway * SEC && t <= a.iat + (p.maxAge + p.leeway) * SEC
  }

  lemma FirstInstant(a: Assertion, p: Policy, u: nat)
    ensures PassesDuring(a, p, u) <==>
            u * SEC < a.exp + p.leeway * SEC && u * SEC <= a.iat + (p.maxAge + p.leeway) * SEC
  {
    assert (u * SEC) / SEC == u;
    if PassesDuring(a, p, u) {
      var t: nat :| t / SEC == u && t < a.exp + p.leeway * SEC && t <= a.iat + (p.maxAge + p.leeway) * SEC;
      assert u * SEC <= t;
    }
  }

  /** The deadline is no later than needed: short of saturation it is exactly the first second during which
      the assertion can no longer pass. */
  lemma DeadlineExactly(a: Assertion, p: Policy, u: nat)
    requires a.exp / SEC + 1 + p.leeway <= U64_MAX && a.iat / SEC + p.maxAge + p.leeway + 1 <= U64_MAX
    ensures PassesDuring(a, p, u) <==> u < ReplayDeadline(a, p)
    ensures ReplayDeadline(a, p) > u ==> Ttl(a, p, u) == ReplayDeadline(a, p) - u
  {
    FirstInstant(a, p, u);
    var whole := a.exp / SEC;
    assert whole * SEC <= a.exp < whole * SEC + SEC;
    assert a.iat / SEC * SEC <= a.iat < a.iat / SEC * SEC + SEC;
  }

  // ---- Replay over runs of the store ---------------------------------------------

  /** Call `c` asked for the retention of assertion `a`, computed from a clock reading made no later. */
  ghost predicate Records(c: Call, a: Assertion, p: Policy, read: nat) {
    read <= c.now && c.ttl == Ttl(a, p, read)
  }

  lemma RecordsDeadline(c: Call, a: Assertion, p: Policy, read: nat)
    requires Records(c, a, p, read)
    ensures Deadline(c) == c.now + Ttl(a, p, read) && ReplayDeadline(a, p) <= Deadline(c)
  {
  }

  /** Each win before call `j` for its key recorded some assertion of that client and jti, not always the
      same one; `read[i]` is the reading behind the retention of call `i`. */
  ghost predicate WinsRecord(calls: seq<Call>, j: nat, a: seq<Assertion>, p: Policy, read: seq<nat>)
    requires j < |calls| == |a| == |read|
  {
    forall i :: 0 <= i < j && Winner(calls, i, calls[j].key) ==> Records(calls[i], a[i], p, read[i])
  }

  /** Whenever verification ran, a request is refused exactly when it reaches the store before some earlier
      win's retention has run out. */
  lemma RefusedExactly(calls: seq<Call>, j: nat, a: seq<Assertion>, p: Policy, read: seq<nat>)
    requires Ordered(calls) && j < |calls| == |a| == |read| && WinsRecord(calls, j, a, p, read)
    ensures !Answer(calls, j) <==>
            exists i ::
              0 <= i < j && Winner(calls, i, calls[j].key) && calls[j].now < calls[i].now + Ttl(a[i], p, read[i])
  {
    AnswerByHistory(calls, j);
    if !Answer(calls, j) {
      var i :| 0 <= i < j && calls[i].key == calls[j].key && Answer(calls, i) && Deadline(calls[i]) > calls[j].now;
      assert Winner(calls, i, calls[j].key);
      RecordsDeadline(calls[i], a[i], p, read[i]);
    }
  }

  /** The same when readings take effect out of order: exactly the retention of the standing win counts. */
  lemma RefusedByStandingWin(calls: seq<Call>, j: nat, a: seq<Assertion>, p: Policy, read: seq<nat>)
    requires j < |calls| == |a| == |read| && WinsRecord(calls, j, a, p, read)
    ensures !Answer(calls, j) <==>
            exists i ::
              0 <= i < j && Standing(calls, i, j, calls[j].key) && calls[j].now < calls[i].now + Ttl(a[i], p, read[i])
  {
    AnswerExactly(calls, j);
    if !Answer(calls, j) {
      var i :| 0 <= i < j && Standing(calls, i, j, calls[j].key) && Deadline(calls[i]) > calls[j].now;
      RecordsDeadline(calls[i], a[i], p, read[i]);
    }
  }

  /** In any run of the shared store, whatever the other calls record and in whatever order their readings
      take effect: once an assertion has authenticated, every request with its client and jti that gets the
      lock before its replay deadline is refused. Every instant at which the assertion is still acceptable is
      before that deadline. */
  lemma AuthenticatesOnce(calls: seq<Call>, i: nat, j: nat, a: Assertion, p: Policy, read: nat, clock: nat)
    requires i < j < |calls| && Winner(calls, i, calls[j].key) && Records(calls[i], a, p, read)
    requires (forall k :: 0 <= k <= j ==> calls[k].now <= clock) && clock < ReplayDeadline(a, p)
    ensures !Answer(calls, j)
  {
    AnswerByLockInstant(calls, j, clock);
    RecordsDeadline(calls[i], a, p, read);
  }

  /** After a win whose retention was computed in the second it was stored, the next win for that client and
      jti comes exactly at or after the replay deadline. */
  lemma NextWinExactly(calls: seq<Call>, i: nat, j: nat, a: Assertion, p: Policy)
    requires Ordered(calls) && i < j < |calls| && Winner(calls, i, calls[j].key)
    requires Records(calls[i], a, p, calls[i].now) && calls[i].now < ReplayDeadline(a, p)
    requires forall k :: i < k < j ==> !Winner(calls, k, calls[j].key)
    ensures Answer(calls, j) <==> ReplayDeadline(a, p) <= calls[j].now
  {
    AnswerByHistory(calls, j);
    AnswerByHistory(calls, i);
    assert Deadline(calls[i]) == ReplayDeadline(a, p);
    forall k | 0 <= k < j && calls[k].key == calls[j].key && Answer(calls, k)
      ensures Deadline(calls[k]) <= Deadline(calls[i])
    {
      assert Winner(calls, k, calls[j].key);
      if k < i { assert Deadline(calls[k]) <= calls[i].now; }
    }
  }

  /** A request that verified the assertion in the last second of its window and reached the store one
      second later authenticates it a second time. */
  lemma LateReplay()
    ensures var a, p := Assertion(1000 * SEC, 0), Policy(300, 60);
            var calls := [Call("k", Ttl(a, p, 100), 100), Call("k", Ttl(a, p, 361), 361)];
            && Accepted(a, p, 100 * SEC) && Accepted(a, p, 360 * SEC) && Ordered(calls)
            && Answer(calls, 0) && Answer(calls, 1)
  {
    var a, p := Assertion(1000 * SEC, 0), Policy(300, 60);
    var calls := [Call("k", Ttl(a, p, 100), 100), Call("k", Ttl(a, p, 361), 361)];
    assert ReplayDeadline(a, p) == 361;
    assert Winner(calls, 0, "k") by { assert calls[..0] == []; }
    NextWinExactly(calls, 0, 1, a, p);
  }
}
