/** What holds of every run of the provider, read off the invariants. */
module ProviderTheorems {
  import opened Text
  import opened Json
  import opened Clients
  import opened Tokens
  import opened Claims
  import opened Provider
  import opened ProviderInvariant
  import opened SingleUse
  import opened RefreshFamily
  import Pkce

  // ---- Token responses ---------------------------------------------------------

  /** In every run the responses to a code or refresh token never outnumber the consume steps it won. */
  lemma AnswersWithinWins(cfg: Config, actions: seq<Action>, t: string)
    requires Valid(cfg.codec)
    ensures AnswerCount(Run(cfg, actions).log, t) <= WinCount(Run(cfg, actions).log, t)
  {
    RunKeepsFamily(cfg, actions);
    assert Counted(Run(cfg, actions), t);
  }

  /** In every run a code or refresh token whose own wins came before its expiry yields at most one token
      response, whatever happens to other tokens. */
  lemma OneResponsePerToken(cfg: Config, actions: seq<Action>, t: string, i: nat, j: nat)
    requires ValidConfig(cfg) && TimelyToken(Run(cfg, actions).log, t)
    requires var log := Run(cfg, actions).log; i < |log| && j < |log| && IsAnswer(log[i], t) && IsAnswer(log[j], t)
    ensures i == j
  {
    TimelyWonOnce(cfg, actions, t);
    OnceWonCounts(Run(cfg, actions).log, t);
    AnswersWithinWins(cfg, actions, t);
    TwoAnswersCount(Run(cfg, actions).log, t, i, j);
  }

  // ---- Refresh families -------------------------------------------------------

  /** Every win of a token of this family came before that token's expiry. */
  ghost predicate TimelyFamily(s: State, family: Option<string>) {
    forall t {:trigger TimelyToken(s.log, t)} :: t in s.minted && s.minted[t].family == family ==> TimelyToken(s.log, t)
  }

  lemma TimelyFamilyOnce(cfg: Config, actions: seq<Action>, family: Option<string>)
    requires ValidConfig(cfg) && TimelyFamily(Run(cfg, actions), family)
    ensures FamilyOnce(Run(cfg, actions), family)
  {
    var s := Run(cfg, actions);
    forall t | t in s.minted && s.minted[t].family == family
      ensures OnceWon(s.log, t)
    {
      assert TimelyToken(s.log, t);
      TimelyWonOnce(cfg, actions, t);
    }
  }

  /** A refresh token's parent was consumed. */
  lemma ParentConsumed(s: State, t: string)
    requires FamilyInv(s) && t in s.minted && PayloadOf(s, t).Refresh?
    ensures s.minted[t].parent.Some? && Won(s.log, s.minted[t].parent.value)
  {
    assert ChildOf(s, t);
    var i :| 0 <= i < |s.log| && IsBirth(s.log[i], s.minted[t].parent, t);
    var x := s.log[i].request.token;
    TwoAnswersCount(s.log, x, i, i);
    assert Counted(s, x);
    WinsPositive(s.log, x);
  }

  /** In every run each code and refresh token ends a finite path of parent links that starts at the code
      of its family, and every other member of that path has been consumed. */
  lemma EveryTokenRooted(cfg: Config, actions: seq<Action>, t: string) returns (path: seq<string>)
    requires Valid(cfg.codec) && t in Run(cfg, actions).minted && Spendable(PayloadOf(Run(cfg, actions), t))
    ensures var s := Run(cfg, actions);
            && PathTo(s, path, t) && s.minted[t].family == Some(path[0])
            && forall i :: 0 <= i < |path| - 1 ==> Won(s.log, path[i])
  {
    var s := Run(cfg, actions);
    RunKeepsFamily(cfg, actions);
    assert Rooted(s, t);
    path :| PathTo(s, path, t);
    forall i | 0 <= i < |path| - 1
      ensures Won(s.log, path[i])
    {
      ParentConsumed(s, path[i + 1]);
    }
  }

  /** A parent won once has one child. */
  lemma OneChild(s: State, a: string, b: string)
    requires FamilyInv(s) && a in s.minted && b in s.minted && PayloadOf(s, a).Refresh? && PayloadOf(s, b).Refresh?
    requires s.minted[a].parent == s.minted[b].parent && s.minted[a].parent.Some?
    requires OnceWon(s.log, s.minted[a].parent.value)
    ensures a == b
  {
    var x := s.minted[a].parent.value;
    assert ChildOf(s, a) && ChildOf(s, b);
    var i :| 0 <= i < |s.log| && IsBirth(s.log[i], Some(x), a);
    var j :| 0 <= j < |s.log| && IsBirth(s.log[j], Some(x), b);
    OnceWonCounts(s.log, x);
    assert Counted(s, x);
    TwoAnswersCount(s.log, x, i, j);
  }

  /** Two paths of a family won once agree as far as both go. */
  lemma {:induction false} PathsAgree(s: State, p: seq<string>, a: string, q: seq<string>, b: string, i: nat)
    requires FamilyInv(s) && PathTo(s, p, a) && PathTo(s, q, b) && p[0] == q[0] && FamilyOnce(s, Some(p[0]))
    requires i < |p| && i < |q|
    ensures p[i] == q[i]
  {
    if i > 0 {
      PathsAgree(s, p, a, q, b, i - 1);
      assert OnceWon(s.log, p[i - 1]);
      OneChild(s, p[i], q[i]);
    }
  }

  /** In every run, the codes and refresh tokens of a family whose own wins came before expiry form a chain:
      of two members one lies on the other's path from the code, and at most one is unconsumed. */
  lemma FamilyIsChain(cfg: Config, actions: seq<Action>, a: string, p: seq<string>, b: string, q: seq<string>)
    requires ValidConfig(cfg)
    requires var s := Run(cfg, actions);
             PathTo(s, p, a) && PathTo(s, q, b) && p[0] == q[0] && TimelyFamily(s, Some(p[0]))
    ensures p <= q || q <= p
    ensures !Won(Run(cfg, actions).log, a) && !Won(Run(cfg, actions).log, b) ==> a == b
  {
    var s := Run(cfg, actions);
    RunKeepsFamily(cfg, actions);
    TimelyFamilyOnce(cfg, actions, Some(p[0]));
    forall i | 0 <= i < |p| && i < |q| ensures p[i] == q[i] { PathsAgree(s, p, a, q, b, i); }
    if !Won(s.log, a) && !Won(s.log, b) {
      UnconsumedHolds(s, p, a);
      UnconsumedHolds(s, q, b);
    }
  }

  lemma UnconsumedHolds(s: State, path: seq<string>, t: string)
    requires PathTo(s, path, t) && !Won(s.log, t)
    ensures Holds(s, Token(t)) && FamilyOf(s, Token(t)) == Some(path[0])
  {
    var n := |path| - 1;
    assert path[n] in s.minted && s.minted[path[n]].family == Some(path[0]);
  }

  /** Each token of the path was minted from the one before it. */
  ghost predicate Rotation(s: State, path: seq<string>) {
    && path != []
    && (forall i :: 0 <= i < |path| ==> path[i] in s.minted && PayloadOf(s, path[i]).Refresh?)
    && (forall i :: 0 < i < |path| ==> s.minted[path[i]].parent == Some(path[i - 1]))
  }

  /** Along any number of rotations the identity of the grant is constant, scope and claims only
      shrink, and a key binding once set never changes. */
  lemma {:induction false} RotationPreserves(cfg: Config, s: State, path: seq<string>)
    requires Valid(cfg.codec) && Inv(cfg, s) && Rotation(s, path)
    ensures var first, last := PayloadOf(s, path[0]).refresh, PayloadOf(s, path[|path| - 1]).refresh;
            && last.clientId == first.clientId && last.sub == first.sub && last.nonce == first.nonce
            && last.acr == first.acr && last.authTime == first.authTime
            && NoWider(last.scope, first.scope) && Within(last.claims, first.claims)
            && (first.cnfJkt.Some? ==> last.cnfJkt == first.cnfJkt)
            && s.minted[path[|path| - 1]].family == s.minted[path[0]].family
  {
    if |path| > 1 {
      var n := |path| - 1;
      RotationPreserves(cfg, s, path[..n]);
      assert MintedElem(cfg, s, path[n]);
      assert PayloadOf(s, path[n - 1]).Refresh?;
    }
  }

  /** And the whole chain stays faithful to the authorization at its head, in every run. */
  lemma DescendantsMatchGrant(cfg: Config, actions: seq<Action>, t: string)
    requires Valid(cfg.codec) && t in Run(cfg, actions).minted && PayloadOf(Run(cfg, actions), t).Refresh?
    ensures var s := Run(cfg, actions);
            && s.minted[t].grant < |s.grants| && RefreshWithin(s.grants[s.minted[t].grant], PayloadOf(s, t).refresh)
  {
    RunKeeps(cfg, actions);
    assert MintedElem(cfg, Run(cfg, actions), t);
  }

  /** Every token response: the type says "DPoP" exactly when the access token is bound to a key, the
      refresh token beside it carries the same binding, and the ID token repeats the authorization. */
  lemma ResponsesAreBound(cfg: Config, actions: seq<Action>, i: nat)
    requires Valid(cfg.codec) && i < |Run(cfg, actions).log| && Run(cfg, actions).log[i].Response?
    ensures var s := Run(cfg, actions);
            var e := s.log[i];
            && e.access in s.minted && PayloadOf(s, e.access).Access?
            && (e.tokenType == "DPoP" <==> PayloadOf(s, e.access).access.cnfJkt.Some?)
            && (e.tokenType != "DPoP" ==> e.tokenType == "Bearer")
            && (e.refresh.Some? ==> e.refresh.value in s.minted && PayloadOf(s, e.refresh.value).Refresh?
                                    && PayloadOf(s, e.refresh.value).refresh.cnfJkt ==
                                    PayloadOf(s, e.access).access.cnfJkt)
            && s.minted[e.access].grant < |s.grants|
            && (e.idToken.Some? ==> IdTokenMatches(s.grants[s.minted[e.access].grant], e.idToken.value))
  {
    RunKeeps(cfg, actions);
    assert EventElem(cfg, Run(cfg, actions), Run(cfg, actions).log[i]);
  }

  // ---- Requests handled at one instant ------------------------------------------

  /** The clock only moves while no request is in flight. */
  ghost predicate Instantaneous(cfg: Config, actions: seq<Action>)
    requires Valid(cfg.codec)
  {
    forall i :: 0 <= i < |actions| && actions[i].Tick? ==> Run(cfg, actions[..i]).pending == map[]
  }

  /** No consume step won at or after its token's expiry. */
  ghost predicate Timely(log: seq<Event>) {
    forall i :: 0 <= i < |log| && log[i].Use? && log[i].won ==> log[i].at < log[i].exp
  }

  ghost predicate InFlightAlive(s: State) {
    forall id :: id in s.pending ==> s.now < ExchangeExp(s.pending[id].exchange)
  }

  lemma StepStaysTimely(cfg: Config, s: State, a: Action)
    requires Valid(cfg.codec) && InFlightAlive(s) && Timely(s.log) && (a.Tick? ==> s.pending == map[])
    ensures InFlightAlive(Step(cfg, s, a)) && Timely(Step(cfg, s, a).log)
  {
  }

  /** Requests each handled at one instant make every token and every family timely. */
  lemma {:induction false} InstantaneousIsTimely(cfg: Config, actions: seq<Action>)
    requires Valid(cfg.codec) && Instantaneous(cfg, actions)
    ensures InFlightAlive(Run(cfg, actions)) && Timely(Run(cfg, actions).log)
    ensures forall t :: TimelyToken(Run(cfg, actions).log, t)
  {
    if actions != [] {
      var n := |actions| - 1;
      forall i | 0 <= i < n && actions[..n][i].Tick?
        ensures Run(cfg, actions[..n][..i]).pending == map[]
      {
        assert actions[..n][..i] == actions[..i];
      }
      InstantaneousIsTimely(cfg, actions[..n]);
      StepStaysTimely(cfg, Run(cfg, actions[..n]), actions[n]);
    }
  }

  // ---- Scope, claims and UserInfo ------------------------------------------------

  /** Every access token, by any grant and after any number of refreshes, stays within the scope
      registered for the client when the grant was made, and holds no standard claim whose defining
      scope it lacks. */
  lemma AccessTokensContained(cfg: Config, actions: seq<Action>, t: string)
    requires Valid(cfg.codec) && t in Run(cfg, actions).minted && PayloadOf(Run(cfg, actions), t).Access?
    ensures var s := Run(cfg, actions);
            var at := PayloadOf(s, t).access;
            && s.minted[t].grant < |s.grants|
            && var g := s.grants[s.minted[t].grant];
            && at.clientId == g.client.clientId
            && (g.client.scope.Some? ==> NoWider(at.scope, g.client.scope.value))
            && AllAllowed(at.scope, at.claims)
            && (g.UserGrant? ==> at.sub == g.sub && NoWider(at.scope, g.req.scope) && Within(at.claims, g.claims))
            && (g.ServiceGrant? ==> at.sub == at.clientId && at.claims == map[] && "openid" !in Words(at.scope))
  {
    RunKeeps(cfg, actions);
    var s := Run(cfg, actions);
    assert MintedElem(cfg, s, t);
    assert GrantOk(cfg, s.grants[s.minted[t].grant]);
  }

  /** UserInfo answers only for tokens of an end-user grant, with that grant's subject, to the holder
      of the bound key; a client-credentials token is always refused. */
  lemma UserInfoAnswersForUsers(cfg: Config, actions: seq<Action>, t: string, jkt: Option<string>)
    requires Valid(cfg.codec)
    ensures var s := Run(cfg, actions);
            var r := UserInfo(cfg, s, t, jkt);
            r.Some? ==>
              && t in s.minted && PayloadOf(s, t).Access? && s.minted[t].grant < |s.grants|
              && var g := s.grants[s.minted[t].grant];
              && g.UserGrant? && "openid" in Words(g.req.scope)
              && "sub" in r.value && r.value["sub"] == Str(g.sub)
              && (forall k :: k in r.value && k != "sub" ==> k in g.claims && g.claims[k] == r.value[k])
              && (PayloadOf(s, t).access.cnfJkt.Some? ==> jkt == PayloadOf(s, t).access.cnfJkt)
  {
    if t in Run(cfg, actions).minted && PayloadOf(Run(cfg, actions), t).Access? {
      AccessTokensContained(cfg, actions, t);
    }
  }

  /** A live end-user access token with the `openid` scope, and the bound key if there is one. */
  ghost predicate MayAsk(s: State, t: string, jkt: Option<string>) {
    && t in s.minted && PayloadOf(s, t).Access?
    && var at := PayloadOf(s, t).access;
    && s.now < at.exp && "openid" in Words(at.scope) && (at.cnfJkt.Some? ==> jkt == at.cnfJkt)
  }

  lemma UserInfoOfState(cfg: Config, s: State, t: string, jkt: Option<string>)
    requires t in s.minted ==> s.minted[t].envelope.key in cfg.codec.keys
    ensures var r := UserInfo(cfg, s, t, jkt);
            && (r.Some? <==> MayAsk(s, t, jkt))
            && (r.Some? ==>
                  forall k :: Get(r.value, k) ==
                    if k == "sub" then Some(Str(PayloadOf(s, t).access.sub)) else Get(PayloadOf(s, t).access.claims, k))
  {
  }

  /** UserInfo answers exactly who may ask, and answers the token's claims with the grant's subject under
      `sub`. */
  lemma UserInfoExactly(cfg: Config, actions: seq<Action>, t: string, jkt: Option<string>)
    requires Valid(cfg.codec)
    ensures var s := Run(cfg, actions); UserInfo(cfg, s, t, jkt).Some? <==> MayAsk(s, t, jkt)
    ensures var s := Run(cfg, actions);
            MayAsk(s, t, jkt) ==>
              && s.minted[t].grant < |s.grants| && s.grants[s.minted[t].grant].UserGrant?
              && forall k :: Get(UserInfo(cfg, s, t, jkt).value, k) ==
                   if k == "sub" then Some(Str(s.grants[s.minted[t].grant].sub))
                   else Get(PayloadOf(s, t).access.claims, k)
  {
    var s := Run(cfg, actions);
    assert t in s.minted ==> s.minted[t].envelope.key in cfg.codec.keys by {
      RunKeeps(cfg, actions);
      if t in s.minted { assert MintedElem(cfg, s, t); }
    }
    UserInfoOfState(cfg, s, t, jkt);
    if MayAsk(s, t, jkt) { AccessTokensContained(cfg, actions, t); }
  }

  // ---- Exchanges ---------------------------------------------------------------

  /** Every answered exchange was made by the client of the authorization, which presented the redirect
      URI of its request if that was not empty; a refresh was made by the same client. */
  lemma ExchangesByTheClient(cfg: Config, actions: seq<Action>, i: nat)
    requires Valid(cfg.codec) && i < |Run(cfg, actions).log| && Run(cfg, actions).log[i].Response?
    ensures var s := Run(cfg, actions);
            var p := s.log[i].request;
            && p.token in s.minted && s.minted[p.token].grant < |s.grants|
            && s.grants[s.minted[p.token].grant].UserGrant?
            && var req := s.grants[s.minted[p.token].grant].req;
            && p.client.clientId == req.clientId
            && (p.exchange.CodeExchange? && req.redirectUri != "" ==> p.exchange.redirectUri == Some(req.redirectUri))
  {
    RunKeeps(cfg, actions);
    var s := Run(cfg, actions);
    var p := s.log[i].request;
    assert EventElem(cfg, s, s.log[i]);
    assert MintedElem(cfg, s, p.token);
  }

  // ---- PKCE -------------------------------------------------------------------

  /** Every answered exchange of a code whose authorization carried a challenge supplied a well-formed
      verifier whose S256 value is that challenge; a public client never gets by without one. */
  lemma PkceHolds(cfg: Config, actions: seq<Action>, i: nat)
    requires Valid(cfg.codec) && i < |Run(cfg, actions).log|
    requires Run(cfg, actions).log[i].Response? && Run(cfg, actions).log[i].request.exchange.CodeExchange?
    ensures var s := Run(cfg, actions);
            var p := s.log[i].request;
            && p.token in s.minted && s.minted[p.token].grant < |s.grants|
            && s.grants[s.minted[p.token].grant].UserGrant?
            && var req := s.grants[s.minted[p.token].grant].req;
            && (p.client.authMethod == AUTH_NONE ==> req.codeChallenge.Some?)
            && (req.codeChallenge.Some? ==>
                  && p.exchange.verifier.Some? && Pkce.IsValidVerifier(p.exchange.verifier.value)
                  && cfg.digest(p.exchange.verifier.value) == req.codeChallenge.value)
  {
    RunKeeps(cfg, actions);
    var s := Run(cfg, actions);
    var p := s.log[i].request;
    assert EventElem(cfg, s, s.log[i]);
    assert MintedElem(cfg, s, p.token);
    assert GrantOk(cfg, s.grants[s.minted[p.token].grant]);
    var req := s.grants[s.minted[p.token].grant].req;
    assert req.codeChallenge.Some? ==> req.codeChallengeMethod == Some("S256");
  }
}
