/** The token endpoint, said in the fields of requests and tokens: exactly which requests are taken up, and
    exactly what every token response of every run holds. */
module TokenResponses {
  import opened Text
  import opened Json
  import opened Clients
  import opened Tokens
  import opened Claims
  import opened Provider
  import opened ProviderInvariant
  import Pkce

  // ---- What a response holds --------------------------------------------------------

  /** The scope of a refresh: the requested words if any were named, else the old scope. */
  ghost predicate ScopeChosen(requested: Option<string>, former: string, scope: string) {
    match requested
    case None => scope == former
    case Some(r) => Words(scope) == Words(r) && Words(r) != [] && forall w :: w in Words(r) ==> w in Words(former)
  }

  /** The key binding: an old one stays and was proved, otherwise the presented key. */
  ghost predicate BindingChosen(former: Option<string>, presented: Option<string>, cnf: Option<string>) {
    if former.Some? then cnf == former && presented == former else cnf == presented
  }

  ghost predicate ClaimsKept(scope: string, former: map<string, Json>, claims: map<string, Json>) {
    forall k :: Get(claims, k) == if AllowedByScope(scope, k) then Get(former, k) else None
  }

  /** What the exchanged token says of scope, claims and binding, carried over to the new access token. */
  ghost predicate AccessExact(cfg: Config, p: Pending, at: AccessToken, answeredAt: nat) {
    && at.clientId == p.client.clientId
    && match p.exchange
       case CodeExchange(c, _, _) =>
         && at.sub == c.sub && at.scope == c.scope && at.claims == c.claims && at.cnfJkt == p.dpop
         && at.exp == answeredAt + cfg.accessTtl
       case RefreshExchange(r, _, _, requested) =>
         && at.sub == r.sub && ScopeChosen(requested, r.scope, at.scope) && ClaimsKept(at.scope, r.claims, at.claims)
         && BindingChosen(r.cnfJkt, p.dpop, at.cnfJkt)
         && p.stage.Used? && at.exp == p.stage.readAt + cfg.accessTtl
  }

  function NonceOf(x: Exchange): Option<string> { if x.CodeExchange? then x.code.nonce else x.rt.nonce }
  function AcrOf(x: Exchange): Option<string> { if x.CodeExchange? then x.code.acr else x.rt.acr }
  function AuthTimeOf(x: Exchange): nat { if x.CodeExchange? then x.code.authTime else x.rt.authTime }

  /** The refresh token beside an access token agrees with it and carries the authentication on. */
  ghost predicate RefreshExact(cfg: Config, p: Pending, at: AccessToken, rt: RefreshToken) {
    && rt.clientId == at.clientId && rt.sub == at.sub && rt.scope == at.scope && rt.claims == at.claims
    && rt.cnfJkt == at.cnfJkt && rt.exp + cfg.accessTtl == at.exp + cfg.refreshTtl
    && rt.nonce == NonceOf(p.exchange) && rt.acr == AcrOf(p.exchange) && rt.authTime == AuthTimeOf(p.exchange)
  }

  ghost predicate IdTokenExact(cfg: Config, p: Pending, access: string, at: AccessToken, c: IdTokenContent) {
    && c.clientId == at.clientId && c.sub == at.sub && c.claims == at.claims
    && c.nonce == NonceOf(p.exchange) && c.acr == AcrOf(p.exchange) && c.authTime == AuthTimeOf(p.exchange)
    && c.code.None? && c.accessToken == if cfg.tokenHashDefined then Some(access) else None
  }

  /** Everything a token response says. */
  ghost predicate ResponseExact(cfg: Config, s: State, e: Event)
    requires e.Response?
  {
    var p := e.request;
    && e.access in s.minted && PayloadOf(s, e.access).Access?
    && var at := PayloadOf(s, e.access).access;
    && AccessExact(cfg, p, at, e.answeredAt)
    && e.scope == at.scope && e.expiresIn == cfg.accessTtl
    && e.tokenType == (if at.cnfJkt.Some? then "DPoP" else "Bearer")
    && (e.refresh.Some? <==> p.exchange.RefreshExchange? || "refresh_token" in p.client.grantTypes)
    && (e.refresh.Some? ==>
          && e.refresh.value in s.minted && PayloadOf(s, e.refresh.value).Refresh?
          && RefreshExact(cfg, p, at, PayloadOf(s, e.refresh.value).refresh))
    && (e.idToken.Some? <==> "openid" in Words(at.scope))
    && (e.idToken.Some? ==> IdTokenExact(cfg, p, e.access, at, e.idToken.value))
  }

  /** What a refresh request in flight has settled. */
  ghost predicate Settled(p: Pending) {
    p.exchange.RefreshExchange? ==>
      && ScopeChosen(p.exchange.requested, p.exchange.rt.scope, p.exchange.scope)
      && BindingChosen(p.exchange.rt.cnfJkt, p.dpop, p.exchange.cnfJkt)
  }

  ghost predicate ResponseInv(cfg: Config, s: State) {
    && (forall id :: id in s.pending ==> Settled(s.pending[id]))
    && (forall i :: 0 <= i < |s.log| && s.log[i].Response? ==> ResponseExact(cfg, s, s.log[i]))
  }

  // ---- Steps --------------------------------------------------------------------------

  lemma ExactPersists(cfg: Config, s: State, t: State, e: Event)
    requires e.Response? && ResponseExact(cfg, s, e) && Extends(s, t)
    ensures ResponseExact(cfg, t, e)
  {
    assert t.minted[e.access] == s.minted[e.access];
    if e.refresh.Some? { assert t.minted[e.refresh.value] == s.minted[e.refresh.value]; }
  }

  lemma ClaimsExactly(scope: string, claims: map<string, Json>)
    ensures ClaimsKept(scope, claims, FilterClaims(scope, claims))
  {
    forall k
      ensures Get(FilterClaims(scope, claims), k) == if AllowedByScope(scope, k) then Get(claims, k) else None
    {
      FilterClaimsExactly(scope, claims, k);
    }
  }

  lemma AccessOfExact(cfg: Config, p: Pending, now: nat)
    requires Settled(p) && p.stage.Used?
    ensures AccessExact(cfg, p, AccessOf(cfg, p, if p.exchange.CodeExchange? then now else p.stage.readAt), now)
  {
    if p.exchange.RefreshExchange? {
      ClaimsExactly(p.exchange.scope, p.exchange.rt.claims);
    }
  }

  lemma RefreshOfExact(cfg: Config, p: Pending, stamp: nat)
    ensures RefreshExact(cfg, p, AccessOf(cfg, p, stamp), RefreshOf(cfg, p, stamp))
  {
  }

  lemma IdTokenOfExact(cfg: Config, p: Pending, access: string, stamp: nat)
    ensures IdTokenOf(cfg, p, access).Some? <==> "openid" in Words(AccessOf(cfg, p, stamp).scope)
    ensures IdTokenOf(cfg, p, access).Some? ==>
              IdTokenExact(cfg, p, access, AccessOf(cfg, p, stamp), IdTokenOf(cfg, p, access).value)
  {
  }

  /** What the finishing step mints and logs, by name. */
  lemma FinishMints(cfg: Config, s: State, a: Action)
    requires Valid(cfg.codec) && Finishes(s, a)
    ensures var p, t := s.pending[a.id], FinishStep(cfg, s, a);
            var stamp := if p.exchange.CodeExchange? then s.now else p.stage.readAt;
            var refresh := if IssuesRefresh(p) then Some(a.refresh) else None;
            && t.log == s.log + [Answer(cfg, p, a.access, refresh, IdTokenOf(cfg, p, a.access), s.now)]
            && a.access in t.minted && PayloadOf(t, a.access) == Access(AccessOf(cfg, p, stamp))
            && (refresh.Some? ==> a.refresh in t.minted && PayloadOf(t, a.refresh) == Refresh(RefreshOf(cfg, p, stamp)))
            && t.pending == s.pending - {a.id}
  {
  }

  lemma TypeExact(cfg: Config, p: Pending, stamp: nat)
    requires Settled(p)
    ensures TokenType(p.dpop) == if AccessOf(cfg, p, stamp).cnfJkt.Some? then "DPoP" else "Bearer"
  {
  }

  lemma FinishExact(cfg: Config, s: State, a: Action)
    requires Valid(cfg.codec) && Finishes(s, a) && Settled(s.pending[a.id])
    ensures var t := FinishStep(cfg, s, a); |t.log| == |s.log| + 1 && s.log <= t.log && t.log[|s.log|].Response?
    ensures var t := FinishStep(cfg, s, a); ResponseExact(cfg, t, t.log[|s.log|])
  {
    var p, t := s.pending[a.id], FinishStep(cfg, s, a);
    var stamp := if p.exchange.CodeExchange? then s.now else p.stage.readAt;
    FinishMints(cfg, s, a);
    AccessOfExact(cfg, p, s.now);
    RefreshOfExact(cfg, p, stamp);
    IdTokenOfExact(cfg, p, a.access, stamp);
    TypeExact(cfg, p, stamp);
  }

  lemma BeginRefreshSettles(cfg: Config, s: State, a: Action)
    requires a.BeginRefresh? && a.id !in s.pending && a.id in BeginRefreshStep(cfg, s, a).pending
    ensures Settled(BeginRefreshStep(cfg, s, a).pending[a.id])
  {
    if a.requested.Some? { WordsJoin(Words(a.requested.value)); }
  }

  lemma PendingSettled(cfg: Config, s: State, a: Action, id: nat)
    requires Valid(cfg.codec) && (forall k :: k in s.pending ==> Settled(s.pending[k])) && id in Step(cfg, s, a).pending
    ensures Settled(Step(cfg, s, a).pending[id])
  {
    if id in s.pending {
      assert Settled(s.pending[id]);
    } else if a.BeginRefresh? {
      BeginRefreshSettles(cfg, s, a);
    }
  }

  lemma OtherLogs(cfg: Config, s: State, a: Action)
    requires Valid(cfg.codec) && !Finishes(s, a)
    ensures var t := Step(cfg, s, a);
            s.log <= t.log && forall i :: |s.log| <= i < |t.log| ==> !t.log[i].Response?
  {
  }

  lemma StepKeepsResponses(cfg: Config, s: State, a: Action)
    requires Valid(cfg.codec) && Inv(cfg, s) && ResponseInv(cfg, s)
    ensures ResponseInv(cfg, Step(cfg, s, a))
  {
    var t := Step(cfg, s, a);
    assert Extends(s, t) by { StepKeeps(cfg, s, a); }
    forall id | id in t.pending ensures Settled(t.pending[id]) { PendingSettled(cfg, s, a, id); }
    NewResponsesExact(cfg, s, a);
    LogStaysExact(cfg, s, t);
  }

  lemma NewResponsesExact(cfg: Config, s: State, a: Action)
    requires Valid(cfg.codec) && forall k :: k in s.pending ==> Settled(s.pending[k])
    ensures var t := Step(cfg, s, a);
            && s.log <= t.log
            && forall i :: |s.log| <= i < |t.log| && t.log[i].Response? ==> ResponseExact(cfg, t, t.log[i])
  {
    if Finishes(s, a) { FinishExact(cfg, s, a); } else { OtherLogs(cfg, s, a); }
  }

  lemma LogStaysExact(cfg: Config, s: State, t: State)
    requires ResponseInv(cfg, s) && Extends(s, t) && s.log <= t.log
    requires forall i :: |s.log| <= i < |t.log| && t.log[i].Response? ==> ResponseExact(cfg, t, t.log[i])
    ensures forall i :: 0 <= i < |t.log| && t.log[i].Response? ==> ResponseExact(cfg, t, t.log[i])
  {
    forall i | 0 <= i < |t.log| && t.log[i].Response?
      ensures ResponseExact(cfg, t, t.log[i])
    {
      if i < |s.log| {
        assert t.log[i] == s.log[i];
        ExactPersists(cfg, s, t, s.log[i]);
      }
    }
  }

  lemma {:induction false} RunKeepsResponses(cfg: Config, actions: seq<Action>)
    requires Valid(cfg.codec)
    ensures ResponseInv(cfg, Run(cfg, actions))
  {
    if actions != [] {
      var n := |actions| - 1;
      RunKeepsResponses(cfg, actions[..n]);
      RunKeeps(cfg, actions[..n]);
      StepKeepsResponses(cfg, Run(cfg, actions[..n]), actions[n]);
    }
  }

  /** Every token response of every run holds exactly what the exchanged token and the request determine. */
  lemma ResponsesAreExact(cfg: Config, actions: seq<Action>, i: nat)
    requires Valid(cfg.codec) && i < |Run(cfg, actions).log| && Run(cfg, actions).log[i].Response?
    ensures var s := Run(cfg, actions);
            var e := s.log[i];
            && ResponseExact(cfg, s, e)
            && e.request.token in s.minted && PayloadOf(s, e.request.token) == AsPayload(e.request.exchange)
  {
    RunKeepsResponses(cfg, actions);
    RunKeeps(cfg, actions);
    assert EventElem(cfg, Run(cfg, actions), Run(cfg, actions).log[i]);
  }

  // ---- Which requests are taken up -----------------------------------------------------

  /** 43 to 128 unreserved characters. */
  ghost predicate VerifierSyntax(v: string) {
    && 43 <= |v| <= 128
    && forall c :: c in v ==>
         'a' <= c <= 'z' || 'A' <= c <= 'Z' || '0' <= c <= '9' || c == '-' || c == '.' || c == '_' || c == '~'
  }

  /** The proof of possession of a code: the verifier behind its challenge, or a client with a secret. */
  ghost predicate ProvesPossession(cfg: Config, client: Client, c: AuthCode, verifier: Option<string>) {
    if c.challenge.Some? then
      verifier.Some? && VerifierSyntax(verifier.value) && cfg.digest(verifier.value) == c.challenge.value
    else client.authMethod != "none"
  }

  ghost predicate CodeRedeemable(cfg: Config, s: State, a: Action)
    requires a.BeginCode?
  {
    && "authorization_code" in a.client.grantTypes && a.code in s.minted && PayloadOf(s, a.code).Code?
    && var c := PayloadOf(s, a.code).code;
    && s.now < c.exp && c.clientId == a.client.clientId
    && (c.redirectUri == "" || a.redirectUri == Some(c.redirectUri))
    && ProvesPossession(cfg, a.client, c, a.verifier)
  }

  lemma SyntaxExactly(v: string)
    ensures VerifierSyntax(v) <==> Pkce.IsValidVerifier(v)
  {
    assert forall i :: 0 <= i < |v| ==> v[i] in v;
  }

  lemma PossessionExactly(cfg: Config, client: Client, c: AuthCode, verifier: Option<string>)
    requires c.challenge.Some? ==> c.challengeMethod == Some("S256") && Pkce.IsValidS256Challenge(c.challenge.value)
    ensures PkceSatisfied(cfg, client, c, verifier) <==> ProvesPossession(cfg, client, c, verifier)
  {
    if verifier.Some? { SyntaxExactly(verifier.value); }
  }

  lemma CodesHaveS256(cfg: Config, s: State, t: string)
    requires Valid(cfg.codec) && Inv(cfg, s) && t in s.minted && PayloadOf(s, t).Code?
    ensures s.minted[t].envelope.key in cfg.codec.keys
    ensures var c := PayloadOf(s, t).code;
            c.challenge.Some? ==> c.challengeMethod == Some("S256") && Pkce.IsValidS256Challenge(c.challenge.value)
  {
    assert MintedElem(cfg, s, t);
    assert GrantOk(cfg, s.grants[s.minted[t].grant]);
  }

  /** In every reachable state a code request is taken up exactly when it redeems its code, with what it
      presented; otherwise nothing changes. */
  lemma BeginCodeExactly(cfg: Config, s: State, a: Action)
    requires Valid(cfg.codec) && Inv(cfg, s) && a.BeginCode?
    ensures var t := Step(cfg, s, a);
            if a.id !in s.pending && CodeRedeemable(cfg, s, a) then
              var x := CodeExchange(PayloadOf(s, a.code).code, a.verifier, a.redirectUri);
              t == s.(pending := s.pending[a.id := Pending(a.client, a.code, x, a.dpop, Checked)])
            else t == s
  {
    if a.code in s.minted && PayloadOf(s, a.code).Code? {
      CodesHaveS256(cfg, s, a.code);
      PossessionExactly(cfg, a.client, PayloadOf(s, a.code).code, a.verifier);
    }
  }

  ghost predicate RefreshRedeemable(s: State, a: Action)
    requires a.BeginRefresh?
  {
    && "refresh_token" in a.client.grantTypes && a.token in s.minted && PayloadOf(s, a.token).Refresh?
    && var r := PayloadOf(s, a.token).refresh;
    && s.now < r.exp && r.clientId == a.client.clientId
    && (r.cnfJkt.Some? ==> a.dpop == r.cnfJkt)
    && (a.requested.Some? ==>
          Words(a.requested.value) != [] && forall w :: w in Words(a.requested.value) ==> w in Words(r.scope))
  }

  /** The same for a refresh request. */
  lemma BeginRefreshExactly(cfg: Config, s: State, a: Action)
    requires Valid(cfg.codec) && Inv(cfg, s) && a.BeginRefresh?
    ensures var t := Step(cfg, s, a);
            if a.id !in s.pending && RefreshRedeemable(s, a) then
              && a.id in t.pending && t == s.(pending := s.pending[a.id := t.pending[a.id]])
              && var p := t.pending[a.id];
              && p.client == a.client && p.token == a.token && p.dpop == a.dpop && p.stage.Checked? && Settled(p)
              && p.exchange.RefreshExchange? && p.exchange.rt == PayloadOf(s, a.token).refresh
              && p.exchange.requested == a.requested
            else t == s
  {
    assert a.token in s.minted ==> s.minted[a.token].envelope.key in cfg.codec.keys by {
      if a.token in s.minted { assert MintedElem(cfg, s, a.token); }
    }
    RefreshTakenUp(cfg, s, a);
    if a.id !in s.pending && RefreshRedeemable(s, a) { BeginRefreshSettles(cfg, s, a); }
  }

  lemma RefreshTakenUp(cfg: Config, s: State, a: Action)
    requires a.BeginRefresh? && (a.token in s.minted ==> s.minted[a.token].envelope.key in cfg.codec.keys)
    ensures var t := BeginRefreshStep(cfg, s, a);
            if a.id !in s.pending && RefreshRedeemable(s, a) then
              && a.id in t.pending && t == s.(pending := s.pending[a.id := t.pending[a.id]])
              && var p := t.pending[a.id];
              && p.client == a.client && p.token == a.token && p.dpop == a.dpop && p.stage.Checked?
              && p.exchange.RefreshExchange? && p.exchange.rt == PayloadOf(s, a.token).refresh
              && p.exchange.requested == a.requested
            else t == s
  {
  }

  // ---- Client credentials ------------------------------------------------------------------

  /** A word is granted when it is registered and, if a scope was requested, requested. */
  ghost predicate GrantsWord(client: Client, requested: Option<string>, w: string) {
    client.scope.Some? && w in Words(client.scope.value) && (requested.Some? ==> w in Words(requested.value))
  }

  ghost predicate ServiceAllowed(s: State, a: Action)
    requires a.ClientCredentials?
  {
    && a.client.authMethod != "none" && "client_credentials" in a.client.grantTypes && a.access !in s.minted
    && !GrantsWord(a.client, a.requested, "openid") && exists w :: GrantsWord(a.client, a.requested, w)
  }

  lemma GrantedExactly(client: Client, requested: Option<string>, w: string)
    ensures w in GrantedScopes(client, requested) <==> GrantsWord(client, requested, w)
  {
  }

  ghost predicate ServiceMinted(cfg: Config, s: State, t: State, a: Action)
    requires a.ClientCredentials?
  {
    && t.minted.Keys == s.minted.Keys + {a.access} && (forall k :: k in s.minted ==> t.minted[k] == s.minted[k])
    && PayloadOf(t, a.access).Access?
    && var at := PayloadOf(t, a.access).access;
    && at.clientId == a.client.clientId && at.sub == a.client.clientId && at.claims == map[] && at.cnfJkt == a.dpop
    && at.exp == s.now + cfg.accessTtl
    && (forall w :: w in Words(at.scope) <==> GrantsWord(a.client, a.requested, w))
    && t.grants == s.grants + [ServiceGrant(a.client)] && t.log == s.log && t.store == s.store && t.pending == s.pending
  }

  /** A service token is minted exactly when some registered word is granted and `openid` is not, with exactly
      the granted words; otherwise nothing changes. */
  lemma ClientCredentialsExactly(cfg: Config, s: State, a: Action)
    requires Valid(cfg.codec) && a.ClientCredentials?
    ensures var t := Step(cfg, s, a); if ServiceAllowed(s, a) then ServiceMinted(cfg, s, t, a) else t == s
  {
    var granted := GrantedScopes(a.client, a.requested);
    forall w
      ensures w in granted <==> GrantsWord(a.client, a.requested, w)
    {
      GrantedExactly(a.client, a.requested, w);
    }
    GrantedAreWords(a.client, a.requested);
    WordsJoin(granted);
    if granted != [] { assert GrantsWord(a.client, a.requested, granted[0]); }
  }

  // ---- The way of a request --------------------------------------------------------------

  /** Only request `id` changes, from stage `before` to stage `after`. */
  ghost predicate Moves(s: State, t: State, id: nat, before: Stage, after: Stage) {
    && id in s.pending && s.pending[id].stage == before
    && t == s.(pending := s.pending[id := s.pending[id].(stage := after)])
  }

  /** The clock is read for the stamp, then for the retention, then by the store; each time it is the present
      one. The retention lasts to the token's expiry, and at least a second. */
  lemma ReadingsExactly(cfg: Config, s: State, id: nat)
    requires Valid(cfg.codec) && id in s.pending
    ensures s.pending[id].stage.Checked? ==> Moves(s, Step(cfg, s, ReadClock(id)), id, Checked, Clocked(s.now))
    ensures forall r :: s.pending[id].stage == Clocked(r) ==>
              exists ttl :: Moves(s, Step(cfg, s, ComputeTtl(id)), id, Clocked(r), Timed(r, ttl))
                            && (if s.now + 1 < ExchangeExp(s.pending[id].exchange)
                                then s.now + ttl == ExchangeExp(s.pending[id].exchange) else ttl == 1)
    ensures forall r, ttl :: s.pending[id].stage == Timed(r, ttl) ==>
              Moves(s, Step(cfg, s, EnterStore(id)), id, Timed(r, ttl), Entered(r, ttl, s.now))
  {
    if s.pending[id].stage.Clocked? {
      var r, ttl := s.pending[id].stage.readAt, TtlUntil(ExchangeExp(s.pending[id].exchange), s.now);
      assert Moves(s, Step(cfg, s, ComputeTtl(id)), id, Clocked(r), Timed(r, ttl));
    }
  }

  /** Under the store's lock: the key decides by the reading, a win reserves it and lets the request go on, a
      loss ends the request; either way the use is on the log. */
  lemma ConsumeExactly(cfg: Config, s: State, id: nat, r: nat, ttl: nat, reading: nat)
    requires Valid(cfg.codec) && id in s.pending && s.pending[id].stage == Entered(r, ttl, reading)
    ensures var p, t := s.pending[id], Step(cfg, s, Consume(id));
            var key := UseKeyOf(cfg, p.token, AsPayload(p.exchange));
            var until := reading + if ttl < 1 then 1 else ttl;
            var won := !(key in s.store.entries && s.store.entries[key] > reading);
            && t.log == s.log + [Use(p.token, ExchangeExp(p.exchange), s.now, until, won)]
            && (won ==> key in t.store.entries && t.store.entries[key] == until)
            && t.pending == (if won then s.pending[id := p.(stage := Used(r))] else s.pending - {id})
            && t.minted == s.minted && t.grants == s.grants && t.now == s.now
  {
  }

  /** A request that consumed its token is answered whenever the strings to be minted are new. */
  lemma FinishExactly(cfg: Config, s: State, id: nat, access: string, refresh: string)
    requires Valid(cfg.codec) && Inv(cfg, s) && id in s.pending && s.pending[id].stage.Used?
    requires access !in s.minted && refresh !in s.minted && access != refresh
    ensures var t := Step(cfg, s, Finish(id, access, refresh));
            && t.pending == s.pending - {id} && t.now == s.now && t.store == s.store && t.grants == s.grants
            && |t.log| == |s.log| + 1 && t.log[|s.log|].Response? && t.log[|s.log|].request == s.pending[id]
            && t.log[|s.log|].access == access && t.log[|s.log|].answeredAt == s.now
            && (t.log[|s.log|].refresh.Some? ==> t.log[|s.log|].refresh.value == refresh)
            && (access in t.minted && t.minted[access].parent == Some(s.pending[id].token))
            && t.minted.Keys <= s.minted.Keys + {access, refresh}
  {
    assert PendingElem(cfg, s, s.pending[id]);
  }
}
