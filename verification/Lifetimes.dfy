/** No code, access token or refresh token outlives the lifetime configured for its kind. */
module Lifetimes {
  import opened Text
  import opened Tokens
  import opened Provider
  import opened ProviderInvariant

  function TtlOf(cfg: Config, p: Payload): nat {
    match p
    case Code(_) => cfg.codeTtl
    case Access(_) => cfg.accessTtl
    case Refresh(_) => cfg.refreshTtl
  }

  ghost predicate ShortLived(cfg: Config, s: State, t: string)
    requires t in s.minted
  {
    Exp(PayloadOf(s, t)) <= s.now + TtlOf(cfg, PayloadOf(s, t))
  }

  predicate ReadByNow(stage: Stage, now: nat) { stage.Checked? || stage.readAt <= now }

  ghost predicate LifeInv(cfg: Config, s: State) {
    && (forall t {:trigger ShortLived(cfg, s, t)} :: t in s.minted ==> ShortLived(cfg, s, t))
    && (forall id :: id in s.pending ==> ReadByNow(s.pending[id].stage, s.now))
  }

  lemma FinishShortLived(cfg: Config, s: State, a: Action, t: string)
    requires Valid(cfg.codec) && LifeInv(cfg, s) && a.Finish? && t in FinishStep(cfg, s, a).minted && t !in s.minted
    ensures ShortLived(cfg, FinishStep(cfg, s, a), t)
  {
    assert ReadByNow(s.pending[a.id].stage, s.now);
  }

  lemma AuthorizeShortLived(cfg: Config, s: State, a: Action, t: string)
    requires Valid(cfg.codec) && a.Authorize? && t in AuthorizeStep(cfg, s, a).minted && t !in s.minted
    ensures ShortLived(cfg, AuthorizeStep(cfg, s, a), t)
  {
  }

  lemma StepKeepsTokens(cfg: Config, s: State, a: Action, t: string)
    requires Valid(cfg.codec) && LifeInv(cfg, s) && Extends(s, Step(cfg, s, a)) && t in Step(cfg, s, a).minted
    ensures ShortLived(cfg, Step(cfg, s, a), t)
  {
    if t in s.minted {
      assert ShortLived(cfg, s, t);
    } else if a.Finish? {
      FinishShortLived(cfg, s, a, t);
    } else if a.Authorize? {
      AuthorizeShortLived(cfg, s, a, t);
    }
  }

  lemma StepKeepsReadings(cfg: Config, s: State, a: Action, id: nat)
    requires Valid(cfg.codec) && LifeInv(cfg, s) && s.now <= Step(cfg, s, a).now && id in Step(cfg, s, a).pending
    ensures ReadByNow(Step(cfg, s, a).pending[id].stage, Step(cfg, s, a).now)
  {
    if id in s.pending { assert ReadByNow(s.pending[id].stage, s.now); }
  }

  lemma {:induction false} RunKeepsLife(cfg: Config, actions: seq<Action>)
    requires Valid(cfg.codec)
    ensures LifeInv(cfg, Run(cfg, actions))
  {
    if actions != [] {
      var n := |actions| - 1;
      var s, a := Run(cfg, actions[..n]), actions[n];
      RunKeepsLife(cfg, actions[..n]);
      RunKeeps(cfg, actions[..n]);
      StepKeeps(cfg, s, a);
      forall t | t in Step(cfg, s, a).minted
        ensures ShortLived(cfg, Step(cfg, s, a), t)
      {
        StepKeepsTokens(cfg, s, a, t);
      }
      forall id | id in Step(cfg, s, a).pending
        ensures ReadByNow(Step(cfg, s, a).pending[id].stage, Step(cfg, s, a).now)
      {
        StepKeepsReadings(cfg, s, a, id);
      }
    }
  }

  lemma {:induction false} RunExtends(cfg: Config, actions: seq<Action>, more: seq<Action>)
    requires Valid(cfg.codec)
    ensures Extends(Run(cfg, actions), Run(cfg, actions + more))
    decreases more
  {
    if more == [] {
      assert actions + more == actions;
    } else {
      var n := |more| - 1;
      var whole := actions + more;
      assert whole[..|whole| - 1] == actions + more[..n];
      RunExtends(cfg, actions, more[..n]);
      RunKeeps(cfg, actions + more[..n]);
      StepKeeps(cfg, Run(cfg, actions + more[..n]), more[n]);
    }
  }

  /** Whatever happens in between: once the lifetime of its kind has passed since any moment at which a
      token existed, it opens no more, and UserInfo refuses it. */
  lemma TokensExpire(cfg: Config, actions: seq<Action>, more: seq<Action>, t: string, jkt: Option<string>)
    requires Valid(cfg.codec) && t in Run(cfg, actions).minted
    requires Run(cfg, actions + more).now >= Run(cfg, actions).now + TtlOf(cfg, PayloadOf(Run(cfg, actions), t))
    ensures var s := Run(cfg, actions + more);
            && t in s.minted && UserInfo(cfg, s, t, jkt).None?
            && OpenCode(cfg.codec, s.minted[t].envelope, s.now).None?
            && OpenAccess(cfg.codec, s.minted[t].envelope, s.now).None?
            && OpenRefresh(cfg.codec, s.minted[t].envelope, s.now).None?
  {
    RunExtends(cfg, actions, more);
    RunKeepsLife(cfg, actions);
    assert ShortLived(cfg, Run(cfg, actions), t);
  }
}
