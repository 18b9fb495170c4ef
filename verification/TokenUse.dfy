/** The one-time-use store behind authorization codes, refresh tokens and client
    assertions: a map from use key to expiry, swept lazily. */
module TokenUse {
  const PURGE_INTERVAL: nat := 60

  datatype Store = Store(entries: map<string, nat>, nextPurge: nat)

  /** One call: the key, the requested retention and the clock reading it made. */
  datatype Call = Call(key: string, ttl: nat, now: nat)

  const EMPTY := Store(map[], 0)

  function AtLeastOne(ttl: nat): nat { if ttl < 1 then 1 else ttl }

  /** The instant up to which a successful call blocks its key. */
  function Deadline(c: Call): nat { c.now + AtLeastOne(c.ttl) }

  function Purge(entries: map<string, nat>, now: nat): map<string, nat> {
    map k | k in entries && entries[k] > now :: entries[k]
  }

  function Swept(s: Store, now: nat): Store {
    if now >= s.nextPurge then Store(Purge(s.entries, now), now + PURGE_INTERVAL) else s
  }

  predicate Live(entries: map<string, nat>, key: string, now: nat) {
    key in entries && entries[key] > now
  }

  /** What `consume` does to the store, and whether this call won. */
  function ConsumeStep(s: Store, c: Call): (Store, bool) {
    var t := Swept(s, c.now);
    if Live(t.entries, c.key, c.now) then (t, false)
    else (t.(entries := t.entries[c.key := Deadline(c)]), true)
  }

  /** The in-process store. */
  class InMemoryTokenUseStore {
    var entries: map<string, nat>
    var nextPurge: nat

    ghost function Model(): Store
      reads this
    {
      Store(entries, nextPurge)
    }

    constructor ()
      ensures Model() == EMPTY
    {
      entries, nextPurge := map[], 0;
    }

    /** Wins exactly when no unexpired entry for the key is held; a win records the key until
        `now + max(ttl, 1)`, a loss changes nothing but what the sweep drops. `now` is the clock reading the
        call made before it took the lock. */
    method Consume(key: string, ttl: nat, now: nat) returns (won: bool)
      modifies this
      ensures won <==> !(key in old(entries) && old(entries)[key] > now)
      ensures won ==> key in entries && entries[key] == now + AtLeastOne(ttl)
      ensures forall k :: k != key || !won ==> (Live(entries, k, now) <==> Live(old(entries), k, now))
      ensures forall k :: k in entries && (k != key || !won) ==> k in old(entries) && entries[k] == old(entries)[k]
      ensures (Model(), won) == ConsumeStep(old(Model()), Call(key, ttl, now))
    {
      if now >= nextPurge {
        entries := map k | k in entries && entries[k] > now :: entries[k];
        nextPurge := now + PURGE_INTERVAL;
      }
      if key in entries && entries[key] > now {
        return false;
      }
      entries := entries[key := now + (if ttl < 1 then 1 else ttl)];
      return true;
    }
  }

  // ---- Runs -------------------------------------------------------------

  ghost predicate Ordered(calls: seq<Call>) {
    forall i, j :: 0 <= i < j < |calls| ==> calls[i].now <= calls[j].now
  }

  function Run(calls: seq<Call>): Store {
    if calls == [] then EMPTY else ConsumeStep(Run(calls[..|calls| - 1]), calls[|calls| - 1]).0
  }

  /** The answer given to call `i` of a run. */
  function Answer(calls: seq<Call>, i: nat): bool
    requires i < |calls|
  {
    ConsumeStep(Run(calls[..i]), calls[i]).1
  }

  /** A store that never forgets. */
  function UnsweptRun(calls: seq<Call>): map<string, nat> {
    if calls == [] then map[]
    else
      var m := UnsweptRun(calls[..|calls| - 1]);
      var c := calls[|calls| - 1];
      if Live(m, c.key, c.now) then m else m[c.key := Deadline(c)]
  }

  /** The sweep only ever drops what has already expired. */
  lemma {:induction false} SweptMatchesUnswept(calls: seq<Call>, now: nat)
    requires Ordered(calls)
    requires forall i :: 0 <= i < |calls| ==> calls[i].now <= now
    ensures forall k :: Live(Run(calls).entries, k, now) <==> Live(UnsweptRun(calls), k, now)
    ensures forall k :: k in Run(calls).entries ==>
            k in UnsweptRun(calls) && UnsweptRun(calls)[k] == Run(calls).entries[k]
  {
    if calls != [] {
      var n := |calls| - 1;
      var c := calls[n];
      SweptMatchesUnswept(calls[..n], c.now);
      SweptMatchesUnswept(calls[..n], now);
      var before, after := Run(calls[..n]), Run(calls);
      assert after == ConsumeStep(before, c).0;
      forall k
        ensures Live(after.entries, k, now) <==> Live(UnsweptRun(calls), k, now)
      {
        assert Live(before.entries, k, now) <==> Live(UnsweptRun(calls[..n]), k, now);
        assert Live(before.entries, c.key, c.now) <==> Live(UnsweptRun(calls[..n]), c.key, c.now);
        assert Live(Swept(before, c.now).entries, k, now) <==> Live(before.entries, k, now);
      }
    }
  }

  /** Under a clock that never goes back, the swept store answers every call exactly as a
      store that never purges. */
  lemma SweptAnswersAsUnswept(calls: seq<Call>, i: nat)
    requires Ordered(calls) && i < |calls|
    ensures Answer(calls, i) <==> !Live(UnsweptRun(calls[..i]), calls[i].key, calls[i].now)
  {
    SweptMatchesUnswept(calls[..i], calls[i].now);
  }

  /** Call `i` won and still blocks its key at `now`. */
  ghost predicate Blocks(calls: seq<Call>, i: nat, key: string, now: nat)
    requires i < |calls|
  {
    calls[i].key == key && Answer(calls, i) && Deadline(calls[i]) > now
  }

  ghost predicate SomeBlocks(calls: seq<Call>, key: string, now: nat) {
    exists i :: 0 <= i < |calls| && Blocks(calls, i, key, now)
  }

  lemma SomeBlocksStep(calls: seq<Call>, key: string, now: nat)
    requires calls != []
    ensures var n := |calls| - 1;
            SomeBlocks(calls, key, now) <==> SomeBlocks(calls[..n], key, now) || Blocks(calls, n, key, now)
  {
    var n := |calls| - 1;
    var before := calls[..n];
    forall i | 0 <= i < n
      ensures Blocks(calls, i, key, now) == Blocks(before, i, key, now)
    {
      assert before[..i] == calls[..i];
    }
    if i :| 0 <= i < |before| && Blocks(before, i, key, now) {
      assert Blocks(calls, i, key, now);
    }
  }

  lemma SomeBlocksFades(calls: seq<Call>, key: string, now: nat, later: nat)
    requires now <= later && SomeBlocks(calls, key, later)
    ensures SomeBlocks(calls, key, now)
  {
    var i :| 0 <= i < |calls| && Blocks(calls, i, key, later);
    assert Blocks(calls, i, key, now);
  }

  /** A key is live exactly when some earlier winning call still blocks it. */
  lemma {:induction false} LiveByHistory(calls: seq<Call>, key: string, now: nat)
    requires Ordered(calls)
    requires forall i :: 0 <= i < |calls| ==> calls[i].now <= now
    ensures Live(UnsweptRun(calls), key, now) <==> SomeBlocks(calls, key, now)
  {
    if calls != [] {
      var n := |calls| - 1;
      var before, c := calls[..n], calls[n];
      LiveByHistory(before, key, now);
      LiveByHistory(before, key, c.now);
      SweptAnswersAsUnswept(calls, n);
      SomeBlocksStep(calls, key, now);
      if SomeBlocks(before, key, now) {
        SomeBlocksFades(before, key, c.now, now);
      }
    }
  }

  /** The store's whole behaviour, without mentioning its map: a call wins exactly when no earlier
      winning call for the same key reserved it past this instant. */
  lemma AnswerByHistory(calls: seq<Call>, j: nat)
    requires Ordered(calls) && j < |calls|
    ensures Answer(calls, j) <==>
            forall i :: 0 <= i < j && calls[i].key == calls[j].key && Answer(calls, i) ==>
              Deadline(calls[i]) <= calls[j].now
  {
    var before, c := calls[..j], calls[j];
    SweptAnswersAsUnswept(calls, j);
    LiveByHistory(before, c.key, c.now);
    forall i | 0 <= i < j
      ensures Blocks(before, i, c.key, c.now) ==
              (calls[i].key == c.key && Answer(calls, i) && Deadline(calls[i]) > c.now)
    {
      assert before[..i] == calls[..i];
    }
    if i :| 0 <= i < j && calls[i].key == c.key && Answer(calls, i) && Deadline(calls[i]) > c.now {
      assert Blocks(before, i, c.key, c.now);
    }
  }

  // ---- Readings made before the lock is taken ---------------------------------

  /** The clock is read before the lock, so calls may take effect out of the order of their readings.
      Then a sweep by a later reading can free a key early: the swept store and the one that never purges
      may differ. */
  lemma OutOfOrderReadings()
    ensures var calls := [Call("k", 61, 0), Call("other", 1, 61), Call("k", 1, 60)];
            Answer(calls, 2) && Live(UnsweptRun(calls[..2]), "k", 60)
  {
    var calls := [Call("k", 61, 0), Call("other", 1, 61), Call("k", 1, 60)];
    assert calls[..2][..1] == [calls[0]] && calls[..2] == [calls[0], calls[1]] && [calls[0]][..0] == [];
    assert |"k"| != |"other"|;
    assert Run([calls[0]]) == Store(map["k" := 61], 60);
    assert "k" !in Run(calls[..2]).entries;
    assert UnsweptRun([calls[0]]) == map["k" := 61];
  }

  ghost predicate Winner(calls: seq<Call>, i: nat, key: string)
    requires i < |calls|
  {
    calls[i].key == key && Answer(calls, i)
  }

  /** Every win that reaches past `clock` is on record, and whatever is on record some win put there. */
  ghost predicate OnRecord(calls: seq<Call>, entries: map<string, nat>, key: string, clock: nat) {
    && (forall i :: 0 <= i < |calls| && Winner(calls, i, key) ==>
          Deadline(calls[i]) <= clock || (key in entries && entries[key] >= Deadline(calls[i])))
    && (key in entries ==> exists i :: 0 <= i < |calls| && Winner(calls, i, key) && Deadline(calls[i]) == entries[key])
  }

  lemma WinnerPrefix(calls: seq<Call>, n: nat, i: nat, key: string)
    requires i < n <= |calls|
    ensures Winner(calls[..n], i, key) == Winner(calls, i, key)
  {
    assert calls[..n][..i] == calls[..i];
  }

  lemma OnRecordStep(calls: seq<Call>, key: string, clock: nat)
    requires calls != [] && calls[|calls| - 1].now <= clock
    requires OnRecord(calls[..|calls| - 1], Run(calls[..|calls| - 1]).entries, key, clock)
    ensures OnRecord(calls, Run(calls).entries, key, clock)
  {
    var n := |calls| - 1;
    var before, after := Run(calls[..n]).entries, Run(calls).entries;
    forall i | 0 <= i < n
      ensures Winner(calls[..n], i, key) == Winner(calls, i, key)
    {
      WinnerPrefix(calls, n, i, key);
    }
    if key in before {
      var i :| 0 <= i < n && Winner(calls[..n], i, key) && Deadline(calls[..n][i]) == before[key];
      assert Winner(calls, i, key) && Deadline(calls[i]) == before[key];
    }
    if key in after && !Winner(calls, n, key) {
      assert key in before && after[key] == before[key];
    }
    forall i | 0 <= i < |calls| && Winner(calls, i, key)
      ensures Deadline(calls[i]) <= clock || (key in after && after[key] >= Deadline(calls[i]))
    {
      if i < n {
        assert Winner(calls[..n], i, key) && calls[..n][i] == calls[i];
      }
    }
  }

  lemma {:induction false} RunOnRecord(calls: seq<Call>, key: string, clock: nat)
    requires forall i :: 0 <= i < |calls| ==> calls[i].now <= clock
    ensures OnRecord(calls, Run(calls).entries, key, clock)
  {
    if calls != [] {
      RunOnRecord(calls[..|calls| - 1], key, clock);
      OnRecordStep(calls, key, clock);
    }
  }

  /** In whatever order the readings took effect: a call that takes the lock at `clock` wins only if every
      earlier win for its key has run out by then, and does win if they had by its own reading. */
  lemma AnswerByLockInstant(calls: seq<Call>, j: nat, clock: nat)
    requires j < |calls| && forall i :: 0 <= i <= j ==> calls[i].now <= clock
    ensures Answer(calls, j) ==>
              forall i :: 0 <= i < j && Winner(calls, i, calls[j].key) ==> Deadline(calls[i]) <= clock
    ensures (forall i :: 0 <= i < j && Winner(calls, i, calls[j].key) ==> Deadline(calls[i]) <= calls[j].now) ==>
              Answer(calls, j)
  {
    var before := calls[..j];
    RunOnRecord(before, calls[j].key, clock);
    forall i | 0 <= i < j
      ensures Winner(before, i, calls[j].key) == Winner(calls, i, calls[j].key) && before[i] == calls[i]
    {
      WinnerPrefix(calls, j, i, calls[j].key);
    }
  }

  /** Call `k` starts by sweeping the map. */
  ghost predicate Sweeps(calls: seq<Call>, k: nat)
    requires k < |calls|
  {
    calls[k].now >= Run(calls[..k]).nextPurge
  }

  /** Before call `j`, the win of call `i` is the latest for the key and no sweep by a reading at or past its
      deadline has come by since. */
  ghost predicate Standing(calls: seq<Call>, i: nat, j: nat, key: string)
    requires i < j <= |calls|
  {
    && Winner(calls, i, key)
    && (forall k :: i < k < j ==> !Winner(calls, k, key))
    && (forall k :: i < k < j && Sweeps(calls, k) ==> calls[k].now < Deadline(calls[i]))
  }

  /** The map's entry for the key before call `n` is the standing win's, if there is one. */
  ghost predicate Tracked(calls: seq<Call>, n: nat, key: string)
    requires n <= |calls|
  {
    var m := Run(calls[..n]).entries;
    && (forall i :: 0 <= i < n && Standing(calls, i, n, key) ==> key in m && m[key] == Deadline(calls[i]))
    && (key in m ==> exists i :: 0 <= i < n && Standing(calls, i, n, key))
  }

  lemma StandingStep(calls: seq<Call>, i: nat, n: nat, key: string)
    requires i < n < |calls|
    ensures Standing(calls, i, n + 1, key) <==>
            && Standing(calls, i, n, key) && !Winner(calls, n, key)
            && (Sweeps(calls, n) ==> calls[n].now < Deadline(calls[i]))
  {
  }

  /** What one call does to the entry of a key. */
  lemma EntryStep(calls: seq<Call>, n: nat, key: string)
    requires n < |calls|
    ensures var before, after := Run(calls[..n]).entries, Run(calls[..n + 1]).entries;
            if Winner(calls, n, key) then key in after && after[key] == Deadline(calls[n])
            else
              && (key in after <==> key in before && (Sweeps(calls, n) ==> calls[n].now < before[key]))
              && (key in after ==> after[key] == before[key])
  {
    assert calls[..n + 1][..n] == calls[..n];
  }

  lemma TrackedStep(calls: seq<Call>, n: nat, key: string)
    requires n < |calls| && Tracked(calls, n, key)
    ensures Tracked(calls, n + 1, key)
  {
    EntryStep(calls, n, key);
    forall i | 0 <= i < n
      ensures Standing(calls, i, n + 1, key) <==>
              && Standing(calls, i, n, key) && !Winner(calls, n, key)
              && (Sweeps(calls, n) ==> calls[n].now < Deadline(calls[i]))
    {
      StandingStep(calls, i, n, key);
    }
    if Winner(calls, n, key) {
      assert Standing(calls, n, n + 1, key);
    } else if key in Run(calls[..n + 1]).entries {
      var i :| 0 <= i < n && Standing(calls, i, n, key);
      assert Standing(calls, i, n + 1, key);
    }
  }

  lemma {:induction false} RunTracked(calls: seq<Call>, n: nat, key: string)
    requires n <= |calls|
    ensures Tracked(calls, n, key)
    decreases n
  {
    if n > 0 {
      RunTracked(calls, n - 1, key);
      TrackedStep(calls, n - 1, key);
    }
  }

  /** The exact answer, in whatever order the readings took effect: a call wins exactly when the standing win
      for its key, if any, has run out by the call's own reading. */
  lemma AnswerExactly(calls: seq<Call>, j: nat)
    requires j < |calls|
    ensures Answer(calls, j) <==>
            forall i :: 0 <= i < j && Standing(calls, i, j, calls[j].key) ==> Deadline(calls[i]) <= calls[j].now
  {
    RunTracked(calls, j, calls[j].key);
  }
}
