/** At most one exchange per code or refresh token, over every interleaving of requests. */
module SingleUse {
  import opened Tokens
  import opened Provider
  import opened ProviderInvariant
  import opened UseKeys

  predicate IsWin(e: Event, t: string) { e.Use? && e.won && e.token == t }

  ghost predicate Won(log: seq<Event>, t: string) {
    exists i :: 0 <= i < |log| && IsWin(log[i], t)
  }

  predicate Spendable(p: Payload) { p.Code? || p.Refresh? }

  function KeyOf(cfg: Config, s: State, t: string): string
    requires t in s.minted
  {
    UseKeyOf(cfg, t, PayloadOf(s, t))
  }

  /** Every win whose reservation is still running is on record in the store. */
  ghost predicate Recorded(cfg: Config, s: State, t: string)
    requires t in s.minted
  {
    forall i :: 0 <= i < |s.log| && IsWin(s.log[i], t) ==>
      s.log[i].until <= s.now || (KeyOf(cfg, s, t) in s.store.entries
                                  && s.store.entries[KeyOf(cfg, s, t)] >= s.log[i].until)
  }

  ghost predicate WonUntil(log: seq<Event>, t: string, until: nat) {
    exists i :: 0 <= i < |log| && IsWin(log[i], t) && log[i].until == until
  }

  /** Whatever the store holds for a token, minted or not, some win put it there. */
  ghost predicate Explained(cfg: Config, s: State, t: string, kind: string) {
    var key := UseKey(kind, cfg.digest(t));
    key in s.store.entries ==> WonUntil(s.log, t, s.store.entries[key])
  }

  ghost predicate UseInv(cfg: Config, s: State) {
    && (forall t {:trigger Recorded(cfg, s, t)} :: t in s.minted && Spendable(PayloadOf(s, t)) ==> Recorded(cfg, s, t))
    && (forall t, kind {:trigger Explained(cfg, s, t, kind)} :: kind == KIND_CODE || kind == KIND_REFRESH ==>
        Explained(cfg, s, t, kind))
  }

  /** Nothing is won, and the store neither loses an unexpired token entry nor gains one. */
  ghost predicate Quiet(cfg: Config, s: State, t: State) {
    && Extends(s, t)
    && s.log <= t.log && (forall i :: |s.log| <= i < |t.log| ==> !(t.log[i].Use? && t.log[i].won))
    && (forall k, kind {:trigger UseKey(kind, cfg.digest(k))} :: kind == KIND_CODE || kind == KIND_REFRESH ==>
          var key := UseKey(kind, cfg.digest(k));
          && (key in s.store.entries && s.store.entries[key] > t.now ==>
              key in t.store.entries && t.store.entries[key] == s.store.entries[key])
          && (key in t.store.entries ==> key in s.store.entries && t.store.entries[key] == s.store.entries[key]))
  }

  lemma WonIsMinted(cfg: Config, s: State, t: string)
    requires Valid(cfg.codec) && Inv(cfg, s) && Won(s.log, t)
    ensures t in s.minted
  {
    var i :| 0 <= i < |s.log| && IsWin(s.log[i], t);
    assert EventElem(cfg, s, s.log[i]);
  }

  lemma QuietRecorded(cfg: Config, s: State, t: State, k: string)
    requires Valid(cfg.codec) && Inv(cfg, s) && UseInv(cfg, s) && Quiet(cfg, s, t)
    requires k in t.minted && Spendable(PayloadOf(t, k))
    ensures Recorded(cfg, t, k)
  {
    forall i | 0 <= i < |t.log| && IsWin(t.log[i], k)
      ensures t.log[i].until <= t.now
              || (KeyOf(cfg, t, k) in t.store.entries && t.store.entries[KeyOf(cfg, t, k)] >= t.log[i].until)
    {
      assert t.log[i] == s.log[i];
      assert IsWin(s.log[i], k);
      WonIsMinted(cfg, s, k);
      assert t.minted[k] == s.minted[k] && KeyOf(cfg, t, k) == KeyOf(cfg, s, k);
      assert Recorded(cfg, s, k);
    }
  }

  lemma WonUntilGrows(before: seq<Event>, after: seq<Event>, t: string, until: nat)
    requires before <= after && WonUntil(before, t, until)
    ensures WonUntil(after, t, until)
  {
    var i :| 0 <= i < |before| && IsWin(before[i], t) && before[i].until == until;
    assert IsWin(after[i], t) && after[i].until == until;
  }

  lemma QuietKeeps(cfg: Config, s: State, t: State)
    requires Valid(cfg.codec) && Inv(cfg, s) && UseInv(cfg, s) && Quiet(cfg, s, t)
    ensures UseInv(cfg, t)
  {
    forall k | k in t.minted && Spendable(PayloadOf(t, k))
      ensures Recorded(cfg, t, k)
    {
      QuietRecorded(cfg, s, t, k);
    }
    forall k, kind | kind == KIND_CODE || kind == KIND_REFRESH
      ensures Explained(cfg, t, k, kind)
    {
      assert Explained(cfg, s, k, kind);
      var key := UseKey(kind, cfg.digest(k));
      if key in t.store.entries {
        WonUntilGrows(s.log, t.log, k, t.store.entries[key]);
      }
    }
  }

  /** Keys name their kind and their token. */
  lemma KeysDiffer(cfg: Config, t1: string, k1: string, t2: string, k2: string)
    requires ValidConfig(cfg)
    requires k1 == KIND_CODE || k1 == KIND_REFRESH
    requires k2 == KIND_CODE || k2 == KIND_REFRESH || k2 == KIND_ASSERTION
    ensures UseKey(k1, cfg.digest(t1)) == UseKey(k2, cfg.digest(t2)) ==> k1 == k2 && t1 == t2
  {
    KindsDiffer();
    if UseKey(k1, cfg.digest(t1)) == UseKey(k2, cfg.digest(t2)) {
      UseKeyInjective(k1, cfg.digest(t1), k2, cfg.digest(t2));
    }
  }

  lemma NotAssertionKey(k1: string, d1: string, d2: string)
    requires k1 == KIND_CODE || k1 == KIND_REFRESH
    ensures UseKey(k1, d1) != UseKey(KIND_ASSERTION, d2)
  {
    KindsDiffer();
    if UseKey(k1, d1) == UseKey(KIND_ASSERTION, d2) {
      UseKeyInjective(k1, d1, KIND_ASSERTION, d2);
    }
  }

  lemma AssertionUseQuiet(cfg: Config, s: State, digest: string, ttl: nat, reading: nat)
    requires Valid(cfg.codec)
    ensures Quiet(cfg, s, Step(cfg, s, AssertionUse(digest, ttl, reading)))
  {
    forall k, kind | kind == KIND_CODE || kind == KIND_REFRESH
      ensures UseKey(kind, cfg.digest(k)) != UseKey(KIND_ASSERTION, digest)
    {
      NotAssertionKey(kind, cfg.digest(k), digest);
    }
  }

  ghost predicate Consumes(s: State, id: nat) { id in s.pending && s.pending[id].stage.Entered? }

  /** The answer this consume step gets from the store. */
  predicate Wins(cfg: Config, s: State, id: nat)
    requires Consumes(s, id)
  {
    var p := s.pending[id];
    var key := UseKeyOf(cfg, p.token, AsPayload(p.exchange));
    !(key in s.store.entries && s.store.entries[key] > p.stage.reading)
  }

  lemma LosingIsQuiet(cfg: Config, s: State, id: nat)
    requires Valid(cfg.codec) && Consumes(s, id) && !Wins(cfg, s, id) && s.pending[id].stage.reading <= s.now
    ensures Quiet(cfg, s, ConsumeStep(cfg, s, id))
  {
  }

  lemma WinningRecords(cfg: Config, s: State, id: nat, k: string)
    requires ValidConfig(cfg) && Inv(cfg, s) && UseInv(cfg, s) && Consumes(s, id) && Wins(cfg, s, id)
    requires k in s.minted && Spendable(PayloadOf(s, k))
    ensures Recorded(cfg, ConsumeStep(cfg, s, id), k)
  {
    var p, t := s.pending[id], ConsumeStep(cfg, s, id);
    assert PendingElem(cfg, s, p);
    assert Recorded(cfg, s, k);
    KeysDiffer(cfg, p.token, if PayloadOf(s, p.token).Code? then KIND_CODE
               else KIND_REFRESH, k, if PayloadOf(s, k).Code? then KIND_CODE else KIND_REFRESH);
    forall i | 0 <= i < |t.log| && IsWin(t.log[i], k)
      ensures t.log[i].until <= t.now
              || (KeyOf(cfg, t, k) in t.store.entries && t.store.entries[KeyOf(cfg, t, k)] >= t.log[i].until)
    {
      if i < |s.log| {
        assert t.log[i] == s.log[i];
      }
    }
  }

  lemma WinningExplained(cfg: Config, s: State, id: nat, k: string, kind: string)
    requires ValidConfig(cfg) && Inv(cfg, s) && UseInv(cfg, s) && Consumes(s, id) && Wins(cfg, s, id)
    requires kind == KIND_CODE || kind == KIND_REFRESH
    ensures Explained(cfg, ConsumeStep(cfg, s, id), k, kind)
  {
    var p, t := s.pending[id], ConsumeStep(cfg, s, id);
    assert PendingElem(cfg, s, p);
    assert Explained(cfg, s, k, kind);
    var key := UseKey(kind, cfg.digest(k));
    if key in t.store.entries {
      if key == UseKeyOf(cfg, p.token, AsPayload(p.exchange)) {
        KeysDiffer(cfg, p.token, if PayloadOf(s, p.token).Code? then KIND_CODE else KIND_REFRESH, k, kind);
        assert IsWin(t.log[|s.log|], k) && t.log[|s.log|].until == t.store.entries[key];
      } else {
        WonUntilGrows(s.log, t.log, k, t.store.entries[key]);
      }
    }
  }

  lemma WinningKeeps(cfg: Config, s: State, id: nat)
    requires ValidConfig(cfg) && Inv(cfg, s) && UseInv(cfg, s) && Consumes(s, id) && Wins(cfg, s, id)
    ensures UseInv(cfg, ConsumeStep(cfg, s, id))
  {
    var t := ConsumeStep(cfg, s, id);
    forall k | k in t.minted && Spendable(PayloadOf(t, k))
      ensures Recorded(cfg, t, k)
    {
      WinningRecords(cfg, s, id, k);
    }
    forall k, kind | kind == KIND_CODE || kind == KIND_REFRESH
      ensures Explained(cfg, t, k, kind)
    {
      WinningExplained(cfg, s, id, k, kind);
    }
  }

  /** Every step but a winning consume leaves the store's record of tokens alone. */
  lemma OtherStepsQuiet(cfg: Config, s: State, a: Action)
    requires Valid(cfg.codec) && Extends(s, Step(cfg, s, a)) && !(a.Consume? && Consumes(s, a.id))
    ensures Quiet(cfg, s, Step(cfg, s, a))
  {
    if a.AssertionUse? {
      AssertionUseQuiet(cfg, s, a.digest, a.ttl, a.reading);
    }
  }

  lemma StepKeepsUse(cfg: Config, s: State, a: Action)
    requires ValidConfig(cfg) && Inv(cfg, s) && UseInv(cfg, s)
    ensures UseInv(cfg, Step(cfg, s, a))
  {
    var t := Step(cfg, s, a);
    if a.Consume? && Consumes(s, a.id) {
      if Wins(cfg, s, a.id) {
        WinningKeeps(cfg, s, a.id);
      } else {
        assert TtlReaches(s.now, s.pending[a.id]);
        LosingIsQuiet(cfg, s, a.id);
        QuietKeeps(cfg, s, t);
      }
    } else {
      StepKeeps(cfg, s, a);
      OtherStepsQuiet(cfg, s, a);
      QuietKeeps(cfg, s, t);
    }
  }

  lemma {:induction false} RunKeepsUse(cfg: Config, actions: seq<Action>)
    requires ValidConfig(cfg)
    ensures Inv(cfg, Run(cfg, actions)) && UseInv(cfg, Run(cfg, actions))
  {
    RunKeeps(cfg, actions);
    if actions != [] {
      var n := |actions| - 1;
      RunKeepsUse(cfg, actions[..n]);
      StepKeepsUse(cfg, Run(cfg, actions[..n]), actions[n]);
    }
  }

  /** Every earlier win for the token reserved it no further than `instant`. */
  ghost predicate FreeAt(log: seq<Event>, t: string, instant: nat) {
    forall i :: 0 <= i < |log| && IsWin(log[i], t) ==> log[i].until <= instant
  }

  lemma ConsumeLogs(cfg: Config, s: State, id: nat)
    requires Valid(cfg.codec) && Consumes(s, id)
    ensures var t := ConsumeStep(cfg, s, id);
            && |t.log| == |s.log| + 1 && t.log[|s.log|].won == Wins(cfg, s, id)
            && (id in t.pending <==> Wins(cfg, s, id))
  {
  }

  /** A consume step wins only if no earlier win for the token reaches past now, and always if none reaches
      past the step's own reading of the clock; so, if that reading is current, exactly then. Module
      StandingWins has the exact condition for every reading. */
  lemma WinBounds(cfg: Config, s: State, id: nat)
    requires ValidConfig(cfg) && Inv(cfg, s) && UseInv(cfg, s) && Consumes(s, id)
    ensures Wins(cfg, s, id) ==> FreeAt(s.log, s.pending[id].token, s.now)
    ensures FreeAt(s.log, s.pending[id].token, s.pending[id].stage.reading) ==> Wins(cfg, s, id)
    ensures s.pending[id].stage.reading == s.now ==>
              (Wins(cfg, s, id) <==> FreeAt(s.log, s.pending[id].token, s.now))
  {
    var p := s.pending[id];
    assert PendingElem(cfg, s, p) && TtlReaches(s.now, p);
    assert Recorded(cfg, s, p.token);
    assert Explained(cfg, s, p.token, if PayloadOf(s, p.token).Code? then KIND_CODE else KIND_REFRESH);
  }

  /** A second win for a token can only come once the first one's reservation has run out. */
  ghost predicate Spaced(log: seq<Event>) {
    forall i, j {:trigger log[i], log[j]} ::
      0 <= i < j < |log| && log[i].Use? && log[i].won && IsWin(log[j], log[i].token) ==> log[i].until <= log[j].at
  }

  lemma OtherStepsAddNoWin(cfg: Config, s: State, a: Action)
    requires Valid(cfg.codec) && !(a.Consume? && Consumes(s, a.id))
    ensures var t := Step(cfg, s, a); s.log <= t.log && forall i :: |s.log| <= i < |t.log| ==> !t.log[i].Use?
  {
  }

  lemma SpacedGrows(log: seq<Event>, more: seq<Event>)
    requires Spaced(log) && log <= more
    requires forall j :: |log| <= j < |more| && more[j].Use? && more[j].won ==>
               j == |log| && FreeAt(log, more[j].token, more[j].at)
    ensures Spaced(more)
  {
    forall i, j | 0 <= i < j < |more| && more[i].Use? && more[i].won && IsWin(more[j], more[i].token)
      ensures more[i].until <= more[j].at
    {
      assert i < |log|;
      assert more[i] == log[i] && IsWin(log[i], more[j].token);
      if j < |log| { assert more[j] == log[j]; }
    }
  }

  lemma StepKeepsSpaced(cfg: Config, s: State, a: Action)
    requires ValidConfig(cfg) && Inv(cfg, s) && UseInv(cfg, s) && Spaced(s.log)
    ensures Spaced(Step(cfg, s, a).log)
  {
    var t := Step(cfg, s, a);
    if a.Consume? && Consumes(s, a.id) {
      WinBounds(cfg, s, a.id);
      ConsumeLogs(cfg, s, a.id);
    } else {
      OtherStepsAddNoWin(cfg, s, a);
    }
    SpacedGrows(s.log, t.log);
  }

  lemma {:induction false} RunSpaced(cfg: Config, actions: seq<Action>)
    requires ValidConfig(cfg)
    ensures Spaced(Run(cfg, actions).log)
  {
    if actions != [] {
      var n := |actions| - 1;
      RunSpaced(cfg, actions[..n]);
      RunKeepsUse(cfg, actions[..n]);
      StepKeepsSpaced(cfg, Run(cfg, actions[..n]), actions[n]);
    }
  }

  /** Single use: in every run, among the consume steps for one token taken before that token's
      expiry at most one wins. */
  lemma AtMostOneWinBeforeExpiry(cfg: Config, actions: seq<Action>, i: nat, j: nat)
    requires ValidConfig(cfg)
    requires var log := Run(cfg, actions).log;
             && i < |log| && j < |log| && log[i].Use? && log[i].won && IsWin(log[j], log[i].token)
             && log[i].at < log[i].exp && log[j].at < log[j].exp
    ensures i == j
  {
    RunKeeps(cfg, actions);
    RunSpaced(cfg, actions);
    var s := Run(cfg, actions);
    assert EventElem(cfg, s, s.log[i]) && EventElem(cfg, s, s.log[j]);
  }
}
