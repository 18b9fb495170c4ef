/** What every step of the provider keeps about grants, minted tokens, requests in flight and responses. */
module ProviderInvariant {
  import opened Text
  import opened Requests
  import opened Clients
  import opened Tokens
  import opened Claims
  import opened Provider

  ghost predicate GrantOk(cfg: Config, g: Grant) {
    g.UserGrant? ==>
      RequestAccepted(cfg, g.client, g.req) && IssFits(cfg, g.req) && g.sub != "" && AllAllowed(g.req.scope, g.claims)
  }

  ghost predicate NoWider(scope: string, original: string) {
    forall w :: w in Words(scope) ==> w in Words(original)
  }

  /** A refresh token stays within the authorization it descends from. */
  ghost predicate RefreshWithin(g: Grant, rt: RefreshToken) {
    && g.UserGrant?
    && rt.clientId == g.req.clientId && rt.sub == g.sub && rt.nonce == g.req.nonce
    && rt.acr == g.acr && rt.authTime == g.authTime
    && NoWider(rt.scope, g.req.scope) && Within(rt.claims, g.claims) && AllAllowed(rt.scope, rt.claims)
  }

  ghost predicate AccessWithin(g: Grant, at: AccessToken) {
    match g
    case UserGrant(_, req, sub, claims, _, _) =>
      && at.clientId == req.clientId && at.sub == sub
      && NoWider(at.scope, req.scope) && Within(at.claims, claims) && AllAllowed(at.scope, at.claims)
    case ServiceGrant(client) =>
      && at.clientId == at.sub == client.clientId
      && client.scope.Some? && NoWider(at.scope, client.scope.value)
      && "openid" !in Words(at.scope) && at.claims == map[]
  }

  ghost predicate TokenOk(g: Grant, p: Payload) {
    match p
    case Code(c) => g.UserGrant? && WantsCode(g.req) && c == CodeFor(g, c.exp)
    case Access(at) => AccessWithin(g, at)
    case Refresh(rt) => RefreshWithin(g, rt)
  }

  /** One rotation step: who, what for and how strongly bound never changes or widens. */
  ghost predicate Inherits(parent: Payload, rt: RefreshToken) {
    match parent
    case Code(c) =>
      && rt.clientId == c.clientId && rt.sub == c.sub && rt.nonce == c.nonce && rt.acr == c.acr
      && rt.authTime == c.authTime
      && rt.scope == c.scope && rt.claims == c.claims
    case Refresh(p) =>
      && rt.clientId == p.clientId && rt.sub == p.sub && rt.nonce == p.nonce && rt.acr == p.acr
      && rt.authTime == p.authTime
      && NoWider(rt.scope, p.scope) && Within(rt.claims, p.claims)
      && (p.cnfJkt.Some? ==> rt.cnfJkt == p.cnfJkt)
    case Access(_) => false
  }

  function PayloadOf(s: State, t: string): Payload
    requires t in s.minted
  {
    s.minted[t].envelope.payload
  }

  ghost predicate MintedElem(cfg: Config, s: State, t: string)
    requires t in s.minted && Valid(cfg.codec)
  {
    var m := s.minted[t];
    && m.grant < |s.grants|
    && m.envelope.key == cfg.codec.keys[0]
    && TokenOk(s.grants[m.grant], m.envelope.payload)
    && (m.envelope.payload.Code? ==> m.parent.None? && m.family == Some(t))
    && (m.envelope.payload.Refresh? ==>
          && m.parent.Some? && m.parent.value in s.minted && m.family.Some?
          && s.minted[m.parent.value].family == m.family
          && Inherits(PayloadOf(s, m.parent.value), m.envelope.payload.refresh))
  }

  ghost predicate PendingElem(cfg: Config, s: State, p: Pending) {
    && p.token in s.minted
    && PayloadOf(s, p.token) == AsPayload(p.exchange)
    && match p.exchange
       case CodeExchange(code, verifier, redirectUri) => CodeRequestAccepted(cfg, p.client, code, redirectUri, verifier)
       case RefreshExchange(rt, scope, cnf, _) =>
         && rt.clientId == p.client.clientId
         && NoWider(scope, rt.scope)
         && RefreshBinding(rt.cnfJkt, p.dpop) == Some(cnf)
  }

  /** Whatever the clock does next, the requested retention reaches the token's expiry. */
  ghost predicate TtlReaches(now: nat, p: Pending) {
    && (p.stage.Timed? ==> p.stage.ttl >= 1 && now + p.stage.ttl >= ExchangeExp(p.exchange))
    && (p.stage.Entered? ==>
          && p.stage.ttl >= 1 && p.stage.reading <= now
          && p.stage.reading + p.stage.ttl >= ExchangeExp(p.exchange))
  }

  ghost predicate IdTokenMatches(g: Grant, c: IdTokenContent) {
    && g.UserGrant?
    && c.clientId == g.req.clientId && c.sub == g.sub && c.nonce == g.req.nonce && c.acr == g.acr
    && c.authTime == g.authTime
    && Within(c.claims, g.claims)
  }

  /** At the token endpoint an ID token is tied to the access token issued with it, if a hash is defined. */
  ghost predicate TiedTo(cfg: Config, idToken: Option<IdTokenContent>, access: string) {
    idToken.Some? ==>
      idToken.value.code.None? && idToken.value.accessToken == if cfg.tokenHashDefined then Some(access) else None
  }

  ghost predicate EventElem(cfg: Config, s: State, e: Event) {
    match e
    case Use(token, exp, at, until, _) => token in s.minted && exp == Exp(PayloadOf(s, token)) && at <= s.now
    && exp <= until
    case Response(p, access, refresh, tokenType, idToken, _, _, _) =>
      && PendingElem(cfg, s, p) && p.stage.Used?
      && access in s.minted && s.minted[access].parent == Some(p.token) && PayloadOf(s, access).Access?
      && (tokenType == "DPoP" <==> PayloadOf(s, access).access.cnfJkt.Some?)
      && (tokenType == "DPoP" || tokenType == "Bearer")
      && s.minted[access].grant < |s.grants| && TiedTo(cfg, idToken, access)
      && (idToken.Some? ==> IdTokenMatches(s.grants[s.minted[access].grant], idToken.value))
      && (refresh.Some? ==> refresh.value in s.minted && s.minted[refresh.value].parent == Some(p.token)
                            && PayloadOf(s, refresh.value).Refresh?
                            && PayloadOf(s, refresh.value).refresh.cnfJkt == PayloadOf(s, access).access.cnfJkt)
    case FrontChannel(grant, access, code, idToken) =>
      && grant < |s.grants| && s.grants[grant].UserGrant?
      && (access.Some? <==> WantsAccessToken(s.grants[grant].req))
      && (code.Some? <==> WantsCode(s.grants[grant].req))
      && (idToken.Some? <==> WantsIdToken(s.grants[grant].req))
      && (code.Some? ==>
            code.value in s.minted && PayloadOf(s, code.value).Code? && s.minted[code.value].grant == grant)
      && (idToken.Some? ==>
            && IdTokenMatches(s.grants[grant], idToken.value)
            && idToken.value.code == code && idToken.value.accessToken == access)
      && (access.Some? ==>
            && access.value in s.minted && PayloadOf(s, access.value).Access?
            && PayloadOf(s, access.value).access.cnfJkt.None?)
  }

  ghost predicate Inv(cfg: Config, s: State)
    requires Valid(cfg.codec)
  {
    && (forall i :: 0 <= i < |s.grants| ==> GrantOk(cfg, s.grants[i]))
    && (forall t {:trigger MintedElem(cfg, s, t)} :: t in s.minted ==> MintedElem(cfg, s, t))
    && (forall id :: id in s.pending ==> PendingElem(cfg, s, s.pending[id]) && TtlReaches(s.now, s.pending[id]))
    && (forall i :: 0 <= i < |s.log| ==> EventElem(cfg, s, s.log[i]))
  }

  /** Later states only add. */
  ghost predicate Extends(s: State, t: State) {
    && s.grants <= t.grants
    && (forall k :: k in s.minted ==> k in t.minted && t.minted[k] == s.minted[k])
    && s.now <= t.now
  }

  lemma MintedPersists(cfg: Config, s: State, t: State, k: string)
    requires Valid(cfg.codec) && Extends(s, t) && k in s.minted && MintedElem(cfg, s, k)
    ensures MintedElem(cfg, t, k)
  {
    assert t.minted[k] == s.minted[k];
  }

  lemma PendingPersists(cfg: Config, s: State, t: State, p: Pending)
    requires Extends(s, t) && PendingElem(cfg, s, p)
    ensures PendingElem(cfg, t, p) && (TtlReaches(s.now, p) ==> TtlReaches(t.now, p))
  {
    assert t.minted[p.token] == s.minted[p.token];
  }

  lemma EventPersists(cfg: Config, s: State, t: State, e: Event)
    requires Extends(s, t) && EventElem(cfg, s, e)
    ensures EventElem(cfg, t, e)
  {
    if e.Response? {
      PendingPersists(cfg, s, t, e.request);
    }
  }

  lemma ElemsPersist(cfg: Config, s: State, t: State)
    requires Valid(cfg.codec) && Inv(cfg, s) && Extends(s, t)
    ensures forall k {:trigger MintedElem(cfg, t, k)} :: k in s.minted ==> MintedElem(cfg, t, k)
    ensures forall id :: id in s.pending ==> PendingElem(cfg, t, s.pending[id]) && TtlReaches(t.now, s.pending[id])
    ensures forall i :: 0 <= i < |s.log| ==> EventElem(cfg, t, s.log[i])
  {
    forall k | k in s.minted
      ensures MintedElem(cfg, t, k)
    {
      MintedPersists(cfg, s, t, k);
    }
    forall id | id in s.pending
      ensures PendingElem(cfg, t, s.pending[id]) && TtlReaches(t.now, s.pending[id])
    {
      PendingPersists(cfg, s, t, s.pending[id]);
    }
    forall i | 0 <= i < |s.log|
      ensures EventElem(cfg, t, s.log[i])
    {
      EventPersists(cfg, s, t, s.log[i]);
    }
  }

  ghost predicate NewPendingOk(cfg: Config, s: State, t: State) {
    forall id :: id in t.pending ==>
      (id in s.pending && s.pending[id] == t.pending[id])
      || (PendingElem(cfg, t, t.pending[id]) && TtlReaches(t.now, t.pending[id]))
  }

  /** It is enough to look at what a step added. */
  lemma InvFromAdditions(cfg: Config, s: State, t: State)
    requires Valid(cfg.codec) && Inv(cfg, s) && Extends(s, t)
    requires forall i :: |s.grants| <= i < |t.grants| ==> GrantOk(cfg, t.grants[i])
    requires forall k {:trigger MintedElem(cfg, t, k)} :: k in t.minted && k !in s.minted ==> MintedElem(cfg, t, k)
    requires NewPendingOk(cfg, s, t)
    requires s.log <= t.log
    requires forall i :: |s.log| <= i < |t.log| ==> EventElem(cfg, t, t.log[i])
    ensures Inv(cfg, t)
  {
    ElemsPersist(cfg, s, t);
    forall i | 0 <= i < |t.grants|
      ensures GrantOk(cfg, t.grants[i])
    {
      if i < |s.grants| { assert t.grants[i] == s.grants[i]; }
    }
    forall i | 0 <= i < |t.log|
      ensures EventElem(cfg, t, t.log[i])
    {
      if i < |s.log| { assert t.log[i] == s.log[i]; }
    }
  }

  lemma AuthorizeGrants(cfg: Config, s: State, a: Action)
    requires Valid(cfg.codec) && a.Authorize? && |AuthorizeStep(cfg, s, a).grants| != |s.grants|
    ensures var t := AuthorizeStep(cfg, s, a); |t.grants| == |s.grants| + 1 && GrantOk(cfg, t.grants[|s.grants|])
  {
  }

  lemma AuthorizeMints(cfg: Config, s: State, a: Action, k: string)
    requires Valid(cfg.codec) && a.Authorize? && k in AuthorizeStep(cfg, s, a).minted && k !in s.minted
    ensures MintedElem(cfg, AuthorizeStep(cfg, s, a), k)
  {
  }

  lemma AuthorizeResponds(cfg: Config, s: State, a: Action)
    requires Valid(cfg.codec) && a.Authorize? && |AuthorizeStep(cfg, s, a).grants| != |s.grants|
    ensures var t := AuthorizeStep(cfg, s, a); |t.log| == |s.log| + 1 && EventElem(cfg, t, t.log[|s.log|])
  {
  }

  lemma AuthorizeKeeps(cfg: Config, s: State, a: Action)
    requires Valid(cfg.codec) && Inv(cfg, s) && a.Authorize?
    ensures Inv(cfg, AuthorizeStep(cfg, s, a)) && Extends(s, AuthorizeStep(cfg, s, a))
  {
    var t := AuthorizeStep(cfg, s, a);
    if |t.grants| != |s.grants| {
      AuthorizeGrants(cfg, s, a);
      AuthorizeResponds(cfg, s, a);
      forall k | k in t.minted && k !in s.minted ensures MintedElem(cfg, t, k) { AuthorizeMints(cfg, s, a, k); }
      InvFromAdditions(cfg, s, t);
    }
  }

  lemma GrantedAreWords(client: Client, requested: Option<string>)
    ensures var ws := GrantedScopes(client, requested); forall i :: 0 <= i < |ws| ==> IsWord(ws[i])
  {
    var ws := GrantedScopes(client, requested);
    forall i | 0 <= i < |ws|
      ensures IsWord(ws[i])
    {
      if requested.Some? { assert ws[i] in Words(requested.value); }
    }
  }

  lemma ClientCredentialsKeeps(cfg: Config, s: State, a: Action)
    requires Valid(cfg.codec) && Inv(cfg, s) && a.ClientCredentials?
    ensures Inv(cfg, ClientCredentialsStep(cfg, s, a)) && Extends(s, ClientCredentialsStep(cfg, s, a))
  {
    var t := ClientCredentialsStep(cfg, s, a);
    if |t.grants| != |s.grants| {
      var granted := GrantedScopes(a.client, a.requested);
      GrantedAreWords(a.client, a.requested);
      WordsJoin(granted);
      assert granted[0] in granted;
      assert TokenOk(t.grants[|s.grants|], PayloadOf(t, a.access));
      assert MintedElem(cfg, t, a.access);
      InvFromAdditions(cfg, s, t);
    }
  }

  lemma NarrowingNarrows(original: string, requested: Option<string>)
    ensures var r := NarrowedScope(original, requested); r.Some? ==> NoWider(r.value, original)
  {
    if requested.Some? {
      WordsJoin(Words(requested.value));
    }
  }

  /** A step that only changes requests, the store and the clock. */
  ghost predicate OnlyRequests(s: State, t: State) {
    t.grants == s.grants && t.minted == s.minted && s.now <= t.now
  }

  lemma BeginCodeKeeps(cfg: Config, s: State, a: Action)
    requires Valid(cfg.codec) && Inv(cfg, s) && a.BeginCode?
    ensures Inv(cfg, BeginCodeStep(cfg, s, a)) && OnlyRequests(s, BeginCodeStep(cfg, s, a))
  {
    var t := BeginCodeStep(cfg, s, a);
    if a.id !in s.pending && a.id in t.pending {
      assert PendingElem(cfg, t, t.pending[a.id]);
      InvFromAdditions(cfg, s, t);
    }
  }

  lemma BeginRefreshKeeps(cfg: Config, s: State, a: Action)
    requires Valid(cfg.codec) && Inv(cfg, s) && a.BeginRefresh?
    ensures Inv(cfg, BeginRefreshStep(cfg, s, a)) && OnlyRequests(s, BeginRefreshStep(cfg, s, a))
  {
    var t := BeginRefreshStep(cfg, s, a);
    if a.id !in s.pending && a.id in t.pending {
      NarrowingNarrows(PayloadOf(s, a.token).refresh.scope, a.requested);
      assert PendingElem(cfg, t, t.pending[a.id]);
      InvFromAdditions(cfg, s, t);
    }
  }

  lemma PendingRestaged(cfg: Config, s: State, t: State, p: Pending, stage: Stage)
    requires PendingElem(cfg, s, p) && OnlyRequests(s, t)
    ensures PendingElem(cfg, t, p.(stage := stage)) && Exp(PayloadOf(t, p.token)) == ExchangeExp(p.exchange)
  {
  }

  /** Moving one request on, or dropping it, with at most one event. */
  lemma RequestMoves(cfg: Config, s: State, t: State, id: nat, stage: Stage, until: nat, won: bool)
    requires Valid(cfg.codec) && Inv(cfg, s) && OnlyRequests(s, t) && id in s.pending
    requires t.pending == s.pending - {id} || t.pending == s.pending[id := s.pending[id].(stage := stage)]
    requires TtlReaches(t.now, s.pending[id].(stage := stage))
    requires t.log == s.log || (ExchangeExp(s.pending[id].exchange) <= until
                                && t.log == s.log + [Use(s.pending[id].token, ExchangeExp(s.pending[id].exchange),
                                                         t.now, until, won)])
    ensures Inv(cfg, t)
  {
    var p := s.pending[id];
    PendingRestaged(cfg, s, t, p, stage);
    assert s.log <= t.log;
    InvFromAdditions(cfg, s, t);
  }

  lemma ConsumeKeeps(cfg: Config, s: State, id: nat)
    requires Valid(cfg.codec) && Inv(cfg, s)
    ensures Inv(cfg, ConsumeStep(cfg, s, id)) && OnlyRequests(s, ConsumeStep(cfg, s, id))
  {
    if id in s.pending && s.pending[id].stage.Entered? {
      var t := ConsumeStep(cfg, s, id);
      RequestMoves(cfg, s, t, id, Used(s.pending[id].stage.readAt), t.log[|s.log|].until, t.log[|s.log|].won);
    }
  }

  lemma ReadClockKeeps(cfg: Config, s: State, id: nat)
    requires Valid(cfg.codec) && Inv(cfg, s)
    ensures Inv(cfg, ReadClockStep(s, id)) && OnlyRequests(s, ReadClockStep(s, id))
  {
    if id in s.pending && s.pending[id].stage.Checked? {
      RequestMoves(cfg, s, ReadClockStep(s, id), id, Clocked(s.now), 0, false);
    }
  }

  lemma ComputeTtlKeeps(cfg: Config, s: State, id: nat)
    requires Valid(cfg.codec) && Inv(cfg, s)
    ensures Inv(cfg, ComputeTtlStep(s, id)) && OnlyRequests(s, ComputeTtlStep(s, id))
  {
    if id in s.pending && s.pending[id].stage.Clocked? {
      var p := s.pending[id];
      RequestMoves(cfg, s, ComputeTtlStep(s, id), id, Timed(p.stage.readAt, TtlUntil(ExchangeExp(p.exchange), s.now)),
                   0, false);
    }
  }

  lemma EnterStoreKeeps(cfg: Config, s: State, id: nat)
    requires Valid(cfg.codec) && Inv(cfg, s)
    ensures Inv(cfg, EnterStoreStep(s, id)) && OnlyRequests(s, EnterStoreStep(s, id))
  {
    if id in s.pending && s.pending[id].stage.Timed? {
      var p := s.pending[id];
      assert TtlReaches(s.now, p);
      RequestMoves(cfg, s, EnterStoreStep(s, id), id, Entered(p.stage.readAt, p.stage.ttl, s.now), 0, false);
    }
  }

  lemma EnvironmentKeeps(cfg: Config, s: State, a: Action)
    requires Valid(cfg.codec) && Inv(cfg, s) && (a.Tick? || a.Sweep? || a.AssertionUse? || a.Abort?)
    ensures Inv(cfg, Step(cfg, s, a)) && OnlyRequests(s, Step(cfg, s, a))
  {
    InvFromAdditions(cfg, s, Step(cfg, s, a));
  }

  ghost predicate Finishes(s: State, a: Action) {
    && a.Finish? && a.id in s.pending && s.pending[a.id].stage.Used?
    && a.access !in s.minted && a.refresh !in s.minted && a.access != a.refresh
    && s.pending[a.id].token in s.minted
  }

  ghost predicate MintsFrom(cfg: Config, s: State, t: State, p: Pending, access: string, at: AccessToken,
                            refresh: Option<string>, rt: RefreshToken)
    requires Valid(cfg.codec) && p.token in s.minted
  {
    var m := s.minted[p.token];
    var m1 := s.minted[access := Minted(Seal(cfg.codec, Access(at)), m.grant, Some(p.token), m.family)];
    && t.grants == s.grants && t.now == s.now
    && access !in s.minted
    && (refresh.Some? ==> refresh.value !in s.minted && refresh.value != access)
    && t.minted == if refresh.None? then m1 else
                     m1[refresh.value := Minted(Seal(cfg.codec, Refresh(rt)), m.grant, Some(p.token), m.family)]
  }

  /** What is known of the tokens a request mints: they stay within the grant of the token exchanged. */
  ghost predicate Faithful(s: State, p: Pending, at: AccessToken, rt: RefreshToken, idToken: Option<IdTokenContent>)
    requires p.token in s.minted
  {
    && s.minted[p.token].grant < |s.grants|
    && var g := s.grants[s.minted[p.token].grant];
    && AccessWithin(g, at) && RefreshWithin(g, rt) && (idToken.Some? ==> IdTokenMatches(g, idToken.value))
    && Inherits(PayloadOf(s, p.token), rt)
    && rt.cnfJkt == at.cnfJkt && (at.cnfJkt.Some? <==> p.dpop.Some?)
  }

  lemma MintingKeeps(cfg: Config, s: State, t: State, p: Pending, access: string, at: AccessToken,
                     refresh: Option<string>, rt: RefreshToken)
    requires Valid(cfg.codec) && PendingElem(cfg, s, p) && MintedElem(cfg, s, p.token)
    requires MintsFrom(cfg, s, t, p, access, at, refresh, rt) && Faithful(s, p, at, rt, None)
    ensures Extends(s, t) && PendingElem(cfg, t, p)
    ensures forall k {:trigger MintedElem(cfg, t, k)} :: k in t.minted && k !in s.minted ==> MintedElem(cfg, t, k)
  {
    assert t.minted[p.token] == s.minted[p.token];
  }

  lemma ResponseElem(cfg: Config, s: State, t: State, p: Pending, access: string, at: AccessToken,
                     refresh: Option<string>, rt: RefreshToken, idToken: Option<IdTokenContent>)
    requires Valid(cfg.codec) && PendingElem(cfg, s, p) && p.stage.Used?
    requires MintsFrom(cfg, s, t, p, access, at, refresh, rt) && Faithful(s, p, at, rt, idToken)
             && TiedTo(cfg, idToken, access)
    ensures EventElem(cfg, t, Answer(cfg, p, access, refresh, idToken, s.now))
  {
    assert t.minted[p.token] == s.minted[p.token];
    assert "DPoP"[0] != "Bearer"[0];
  }

  lemma FinishIsMinting(cfg: Config, s: State, a: Action)
    requires Valid(cfg.codec) && Finishes(s, a)
    ensures var p, t := s.pending[a.id], FinishStep(cfg, s, a);
            var stamp := if p.exchange.CodeExchange? then s.now else p.stage.readAt;
            var refresh := if IssuesRefresh(p) then Some(a.refresh) else None;
            && MintsFrom(cfg, s, t, p, a.access, AccessOf(cfg, p, stamp), refresh, RefreshOf(cfg, p, stamp))
            && t.log == s.log + [Answer(cfg, p, a.access, refresh, IdTokenOf(cfg, p, a.access), s.now)]
            && t.pending == s.pending - {a.id}
  {
  }

  /** What a request past its checks would mint stays within its grant. */
  lemma ExchangeWithin(cfg: Config, s: State, p: Pending, now: nat)
    requires Valid(cfg.codec) && PendingElem(cfg, s, p) && MintedElem(cfg, s, p.token)
    requires GrantOk(cfg, s.grants[s.minted[p.token].grant])
    ensures Faithful(s, p, AccessOf(cfg, p, now), RefreshOf(cfg, p, now), None)
  {
    if p.exchange.CodeExchange? {
      assert PayloadOf(s, p.token) == Code(p.exchange.code);
    } else {
      assert PayloadOf(s, p.token) == Refresh(p.exchange.rt);
    }
  }

  lemma ExchangeFaithful(cfg: Config, s: State, p: Pending, now: nat, access: string)
    requires Valid(cfg.codec) && PendingElem(cfg, s, p) && MintedElem(cfg, s, p.token)
    requires GrantOk(cfg, s.grants[s.minted[p.token].grant])
    ensures Faithful(s, p, AccessOf(cfg, p, now), RefreshOf(cfg, p, now), IdTokenOf(cfg, p, access))
  {
    ExchangeWithin(cfg, s, p, now);
  }

  lemma InvFromAnswer(cfg: Config, s: State, t: State, id: nat, e: Event)
    requires Valid(cfg.codec) && Inv(cfg, s) && Extends(s, t) && t.grants == s.grants
    requires forall k {:trigger MintedElem(cfg, t, k)} :: k in t.minted && k !in s.minted ==> MintedElem(cfg, t, k)
    requires t.pending == s.pending - {id} && t.log == s.log + [e] && EventElem(cfg, t, e)
    ensures Inv(cfg, t)
  {
    InvFromAdditions(cfg, s, t);
  }

  lemma FinishedInv(cfg: Config, s: State, t: State, id: nat, access: string, at: AccessToken, refresh: Option<string>,
                    rt: RefreshToken, idToken: Option<IdTokenContent>)
    requires Valid(cfg.codec) && Inv(cfg, s) && id in s.pending && s.pending[id].stage.Used?
    requires PendingElem(cfg, s, s.pending[id]) && MintedElem(cfg, s, s.pending[id].token)
    requires MintsFrom(cfg, s, t, s.pending[id], access, at, refresh, rt) && Faithful(s, s.pending[id], at, rt, idToken)
    requires TiedTo(cfg, idToken, access)
    requires t.pending == s.pending - {id}
    requires t.log == s.log + [Answer(cfg, s.pending[id], access, refresh, idToken, s.now)]
    ensures Inv(cfg, t) && Extends(s, t)
  {
    var p := s.pending[id];
    var e := Answer(cfg, p, access, refresh, idToken, s.now);
    assert EventElem(cfg, t, e) by { ResponseElem(cfg, s, t, p, access, at, refresh, rt, idToken); }
    MintingKeeps(cfg, s, t, p, access, at, refresh, rt);
    InvFromAnswer(cfg, s, t, id, e);
  }

  lemma FinishKeeps(cfg: Config, s: State, a: Action)
    requires Valid(cfg.codec) && Inv(cfg, s) && a.Finish?
    ensures Inv(cfg, FinishStep(cfg, s, a)) && Extends(s, FinishStep(cfg, s, a))
  {
    if Finishes(s, a) {
      var p, t := s.pending[a.id], FinishStep(cfg, s, a);
      var stamp := if p.exchange.CodeExchange? then s.now else p.stage.readAt;
      var refresh := if IssuesRefresh(p) then Some(a.refresh) else None;
      FinishIsMinting(cfg, s, a);
      ExchangeFaithful(cfg, s, p, stamp, a.access);
      assert TiedTo(cfg, IdTokenOf(cfg, p, a.access), a.access);
      FinishedInv(cfg, s, t, a.id, a.access, AccessOf(cfg, p, stamp), refresh, RefreshOf(cfg, p, stamp),
                  IdTokenOf(cfg, p, a.access));
    }
  }

  lemma StepKeeps(cfg: Config, s: State, a: Action)
    requires Valid(cfg.codec) && Inv(cfg, s)
    ensures Inv(cfg, Step(cfg, s, a)) && Extends(s, Step(cfg, s, a))
  {
    match a
    case Authorize(_, _, _, _, _, _, _, _, _) => AuthorizeKeeps(cfg, s, a);
    case ClientCredentials(_, _, _, _) => ClientCredentialsKeeps(cfg, s, a);
    case BeginCode(_, _, _, _, _, _) => BeginCodeKeeps(cfg, s, a);
    case BeginRefresh(_, _, _, _, _) => BeginRefreshKeeps(cfg, s, a);
    case EnterStore(id) => EnterStoreKeeps(cfg, s, id);
    case Consume(id) => ConsumeKeeps(cfg, s, id);
    case ReadClock(id) => ReadClockKeeps(cfg, s, id);
    case ComputeTtl(id) => ComputeTtlKeeps(cfg, s, id);
    case Finish(_, _, _) => FinishKeeps(cfg, s, a);
    case _ => EnvironmentKeeps(cfg, s, a);
  }

  lemma {:induction false} RunKeeps(cfg: Config, actions: seq<Action>)
    requires Valid(cfg.codec)
    ensures Inv(cfg, Run(cfg, actions))
  {
    if actions != [] {
      var n := |actions| - 1;
      RunKeeps(cfg, actions[..n]);
      StepKeeps(cfg, Run(cfg, actions[..n]), actions[n]);
    }
  }
}
