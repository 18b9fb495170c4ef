/** The exact answer of a consume step, over every interleaving and whatever order clock readings take
    effect in: which earlier win, if any, still stands in its way. */
module StandingWins {
  import opened Text
  import opened Tokens
  import opened Provider
  import opened ProviderInvariant
  import opened SingleUse
  import opened UseKeys

  /** The win at `i` is the token's latest, and no sweep by a reading at or past its end has come by since. */
  ghost predicate Standing(log: seq<Event>, sweeps: seq<SweepRecord>, i: nat, t: string)
    requires i < |log|
  {
    && IsWin(log[i], t)
    && (forall j :: i < j < |log| ==> !IsWin(log[j], t))
    && (forall k :: 0 <= k < |sweeps| && sweeps[k].after > i ==> sweeps[k].upTo < log[i].until)
  }

  /** The store's entry for a token is its standing win's, if there is one. */
  ghost predicate Tracks(log: seq<Event>, sweeps: seq<SweepRecord>, t: string, entry: Option<nat>) {
    && (forall i :: 0 <= i < |log| && Standing(log, sweeps, i, t) ==> entry == Some(log[i].until))
    && (entry.Some? ==> exists i :: 0 <= i < |log| && Standing(log, sweeps, i, t))
  }

  ghost predicate SweepsInLog(log: seq<Event>, sweeps: seq<SweepRecord>) {
    forall k :: 0 <= k < |sweeps| ==> sweeps[k].after <= |log|
  }

  function Swept(entry: Option<nat>, upTo: nat): Option<nat> {
    if entry.Some? && entry.value <= upTo then None else entry
  }

  lemma TracksSweep(log: seq<Event>, sweeps: seq<SweepRecord>, t: string, entry: Option<nat>, upTo: nat)
    requires Tracks(log, sweeps, t, entry)
    ensures Tracks(log, sweeps + [SweepRecord(|log|, upTo)], t, Swept(entry, upTo))
  {
    var more := sweeps + [SweepRecord(|log|, upTo)];
    forall i | 0 <= i < |log|
      ensures Standing(log, more, i, t) <==> Standing(log, sweeps, i, t) && upTo < log[i].until
    {
      assert more[|sweeps|].after > i;
      assert forall k :: 0 <= k < |sweeps| ==> more[k] == sweeps[k];
    }
    if Swept(entry, upTo).Some? {
      var i :| 0 <= i < |log| && Standing(log, sweeps, i, t);
      assert Standing(log, more, i, t);
    }
  }

  lemma TracksEvent(log: seq<Event>, sweeps: seq<SweepRecord>, t: string, entry: Option<nat>, e: Event)
    requires Tracks(log, sweeps, t, entry) && !IsWin(e, t)
    ensures Tracks(log + [e], sweeps, t, entry)
  {
    forall i | 0 <= i < |log|
      ensures Standing(log + [e], sweeps, i, t) <==> Standing(log, sweeps, i, t)
    {
      assert forall j :: 0 <= j < |log| ==> (log + [e])[j] == log[j];
    }
    if entry.Some? {
      var i :| 0 <= i < |log| && Standing(log, sweeps, i, t);
      assert Standing(log + [e], sweeps, i, t);
    }
  }

  lemma TracksWin(log: seq<Event>, sweeps: seq<SweepRecord>, t: string, e: Event)
    requires SweepsInLog(log, sweeps) && IsWin(e, t)
    ensures Tracks(log + [e], sweeps, t, Some(e.until))
  {
    var more := log + [e];
    forall i | 0 <= i < |more|
      ensures Standing(more, sweeps, i, t) <==> i == |log|
    {
      assert more[|log|] == e;
    }
    assert Standing(more, sweeps, |log|, t);
  }

  function Entry(cfg: Config, s: State, t: string): Option<nat>
    requires t in s.minted
  {
    var key := KeyOf(cfg, s, t);
    if key in s.store.entries then Some(s.store.entries[key]) else None
  }

  ghost predicate TokenTracked(cfg: Config, s: State, t: string)
    requires t in s.minted
  {
    Tracks(s.log, s.sweeps, t, Entry(cfg, s, t))
  }

  ghost predicate TrackInv(cfg: Config, s: State) {
    && SweepsInLog(s.log, s.sweeps)
    && forall t {:trigger TokenTracked(cfg, s, t)} ::
         t in s.minted && Spendable(PayloadOf(s, t)) ==> TokenTracked(cfg, s, t)
  }

  /** What a step does to one token: perhaps a sweep, and no win of it. */
  ghost predicate Passes(cfg: Config, s: State, u: State, t: string, swept: Option<nat>)
    requires t in s.minted && t in u.minted
  {
    match swept
    case None => u.sweeps == s.sweeps && Entry(cfg, u, t) == Entry(cfg, s, t)
    case Some(upTo) =>
      && u.sweeps == s.sweeps + [SweepRecord(|s.log|, upTo)]
      && Entry(cfg, u, t) == Swept(Entry(cfg, s, t), upTo)
  }

  ghost predicate AddsNoWin(s: State, u: State, t: string) {
    u.log == s.log || (|u.log| == |s.log| + 1 && s.log <= u.log && !IsWin(u.log[|s.log|], t))
  }

  lemma PassesKeeps(cfg: Config, s: State, u: State, t: string, swept: Option<nat>)
    requires t in s.minted && t in u.minted && TokenTracked(cfg, s, t)
    requires Passes(cfg, s, u, t, swept) && AddsNoWin(s, u, t)
    ensures TokenTracked(cfg, u, t)
  {
    if swept.Some? { TracksSweep(s.log, s.sweeps, t, Entry(cfg, s, t), swept.value); }
    if u.log != s.log {
      var e := u.log[|s.log|];
      assert u.log == s.log + [e];
      TracksEvent(s.log, u.sweeps, t, Entry(cfg, u, t), e);
    }
  }

  // ---- Steps -----------------------------------------------------------------------

  lemma SweepPasses(cfg: Config, s: State, reading: nat, t: string)
    requires t in s.minted
    ensures Passes(cfg, s, SweepStep(s, reading), t, if reading > s.now then None else Some(reading))
  {
  }

  /** The sweep a call makes by its reading, if one is due. */
  function Due(s: State, reading: nat): Option<nat> {
    if reading >= s.store.nextPurge then Some(reading) else None
  }

  lemma AssertionPasses(cfg: Config, s: State, digest: string, ttl: nat, reading: nat, t: string)
    requires t in s.minted && Spendable(PayloadOf(s, t)) && reading <= s.now
    ensures Passes(cfg, s, AssertionUseStep(s, digest, ttl, reading), t, Due(s, reading))
  {
    NotAssertionKey(if PayloadOf(s, t).Code? then KIND_CODE else KIND_REFRESH, cfg.digest(t), digest);
  }

  /** A consume step that loses, or that is about another token. */
  lemma ConsumePasses(cfg: Config, s: State, id: nat, t: string)
    requires ValidConfig(cfg) && Inv(cfg, s) && Consumes(s, id) && t in s.minted && Spendable(PayloadOf(s, t))
    requires t != s.pending[id].token || !Wins(cfg, s, id)
    ensures Passes(cfg, s, ConsumeStep(cfg, s, id), t, Due(s, s.pending[id].stage.reading))
    ensures AddsNoWin(s, ConsumeStep(cfg, s, id), t)
  {
    var p := s.pending[id];
    assert PendingElem(cfg, s, p);
    KeysDiffer(cfg, p.token, if PayloadOf(s, p.token).Code? then KIND_CODE else KIND_REFRESH,
               t, if PayloadOf(s, t).Code? then KIND_CODE else KIND_REFRESH);
  }

  lemma WinTracked(cfg: Config, s: State, id: nat)
    requires Valid(cfg.codec) && Inv(cfg, s) && SweepsInLog(s.log, s.sweeps) && Consumes(s, id) && Wins(cfg, s, id)
    requires s.pending[id].token in s.minted
    ensures TokenTracked(cfg, ConsumeStep(cfg, s, id), s.pending[id].token)
  {
    var p, u := s.pending[id], ConsumeStep(cfg, s, id);
    assert PendingElem(cfg, s, p);
    var e := u.log[|s.log|];
    assert u.log == s.log + [e] && SweepsInLog(s.log, u.sweeps);
    TracksWin(s.log, u.sweeps, p.token, e);
  }

  /** A token that is new has never been won, and nothing is recorded under its key. */
  lemma NewTracked(cfg: Config, s: State, u: State, t: string)
    requires Valid(cfg.codec) && Inv(cfg, s) && UseInv(cfg, s)
    requires t !in s.minted && t in u.minted && Spendable(PayloadOf(u, t))
    requires u.store == s.store && u.sweeps == s.sweeps && AddsNoWin(s, u, t)
    ensures TokenTracked(cfg, u, t)
  {
    var kind := if PayloadOf(u, t).Code? then KIND_CODE else KIND_REFRESH;
    assert Explained(cfg, s, t, kind);
    assert !Won(s.log, t) by {
      if Won(s.log, t) { WonIsMinted(cfg, s, t); }
    }
    assert Entry(cfg, u, t).None?;
    assert forall i :: 0 <= i < |u.log| ==> !IsWin(u.log[i], t);
  }

  ghost predicate TouchesStore(s: State, a: Action) {
    a.Sweep? || a.AssertionUse? || (a.Consume? && Consumes(s, a.id))
  }

  lemma OtherSteps(cfg: Config, s: State, a: Action)
    requires Valid(cfg.codec) && !TouchesStore(s, a)
    ensures var u := Step(cfg, s, a); u.store == s.store && u.sweeps == s.sweeps
    ensures var u := Step(cfg, s, a);
            u.log == s.log || (|u.log| == |s.log| + 1 && s.log <= u.log && !u.log[|s.log|].Use?)
  {
  }

  lemma OtherTracked(cfg: Config, s: State, a: Action, t: string)
    requires Valid(cfg.codec) && Inv(cfg, s) && UseInv(cfg, s) && TrackInv(cfg, s) && !TouchesStore(s, a)
    requires t in Step(cfg, s, a).minted && Spendable(PayloadOf(Step(cfg, s, a), t))
    ensures TokenTracked(cfg, Step(cfg, s, a), t)
  {
    var u := Step(cfg, s, a);
    OtherSteps(cfg, s, a);
    if t in s.minted {
      StepKeeps(cfg, s, a);
      assert TokenTracked(cfg, s, t);
      PassesKeeps(cfg, s, u, t, None);
    } else {
      NewTracked(cfg, s, u, t);
    }
  }

  lemma StoreTracked(cfg: Config, s: State, a: Action, t: string)
    requires ValidConfig(cfg) && Inv(cfg, s) && TrackInv(cfg, s) && TouchesStore(s, a)
    requires t in s.minted && Spendable(PayloadOf(s, t)) && Step(cfg, s, a).minted == s.minted
    ensures TokenTracked(cfg, Step(cfg, s, a), t)
  {
    var u := Step(cfg, s, a);
    assert TokenTracked(cfg, s, t);
    match a
    case Sweep(reading) =>
      SweepPasses(cfg, s, reading, t);
      PassesKeeps(cfg, s, u, t, if reading > s.now then None else Some(reading));
    case AssertionUse(digest, ttl, reading) =>
      if reading <= s.now {
        AssertionPasses(cfg, s, digest, ttl, reading, t);
        PassesKeeps(cfg, s, u, t, Due(s, reading));
      }
    case Consume(id) =>
      if t == s.pending[id].token && Wins(cfg, s, id) {
        WinTracked(cfg, s, id);
      } else {
        ConsumePasses(cfg, s, id, t);
        PassesKeeps(cfg, s, u, t, Due(s, s.pending[id].stage.reading));
      }
  }

  lemma StepSweepsInLog(cfg: Config, s: State, a: Action)
    requires Valid(cfg.codec) && SweepsInLog(s.log, s.sweeps)
    ensures SweepsInLog(Step(cfg, s, a).log, Step(cfg, s, a).sweeps)
    ensures TouchesStore(s, a) ==> Step(cfg, s, a).minted == s.minted
  {
  }

  lemma StepKeepsTrack(cfg: Config, s: State, a: Action)
    requires ValidConfig(cfg) && Inv(cfg, s) && UseInv(cfg, s) && TrackInv(cfg, s)
    ensures TrackInv(cfg, Step(cfg, s, a))
  {
    var u := Step(cfg, s, a);
    StepSweepsInLog(cfg, s, a);
    forall t | t in u.minted && Spendable(PayloadOf(u, t))
      ensures TokenTracked(cfg, u, t)
    {
      if TouchesStore(s, a) {
        StoreTracked(cfg, s, a, t);
      } else {
        OtherTracked(cfg, s, a, t);
      }
    }
  }

  lemma {:induction false} RunKeepsTrack(cfg: Config, actions: seq<Action>)
    requires ValidConfig(cfg)
    ensures TrackInv(cfg, Run(cfg, actions))
  {
    if actions != [] {
      var n := |actions| - 1;
      RunKeepsTrack(cfg, actions[..n]);
      RunKeepsUse(cfg, actions[..n]);
      StepKeepsTrack(cfg, Run(cfg, actions[..n]), actions[n]);
    }
  }

  /** In every run a consume step wins exactly when the token's standing win, if any, has run out by the
      step's own reading of the clock. */
  lemma WinsExactly(cfg: Config, actions: seq<Action>, id: nat)
    requires ValidConfig(cfg) && Consumes(Run(cfg, actions), id)
    ensures var s := Run(cfg, actions);
            var p := s.pending[id];
            Wins(cfg, s, id) <==>
            forall i :: 0 <= i < |s.log| && Standing(s.log, s.sweeps, i, p.token) ==> s.log[i].until <= p.stage.reading
  {
    var s := Run(cfg, actions);
    RunKeepsTrack(cfg, actions);
    RunKeeps(cfg, actions);
    assert PendingElem(cfg, s, s.pending[id]);
    assert TokenTracked(cfg, s, s.pending[id].token);
  }
}
