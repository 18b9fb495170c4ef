/** Every ID token of every run, verified by the party it was made for. */
module IdTokenRuns {
  import opened U64
  import opened Text
  import opened Provider
  import opened ProviderInvariant
  import opened IdToken
  import Tokens

  predicate CarriesIdToken(e: Event) { (e.Response? || e.FrontChannel?) && e.idToken.Some? }

  /** The access token and code delivered together with the ID token. */
  function DeliveredAccess(e: Event): Option<string>
    requires CarriesIdToken(e)
  {
    if e.Response? then Some(e.access) else e.frontAccess
  }

  function DeliveredCode(e: Event): Option<string>
    requires CarriesIdToken(e)
  {
    if e.Response? then None else e.frontCode
  }

  ghost predicate GrantedBy(s: State, e: Event, g: Grant)
    requires CarriesIdToken(e)
  {
    if e.FrontChannel? then e.grant < |s.grants| && g == s.grants[e.grant]
    else e.access in s.minted && s.minted[e.access].grant < |s.grants| && g == s.grants[s.minted[e.access].grant]
  }

  /** The access token that the ID token's hash binds: the one delivered with it, if a hash is defined. */
  function BoundAccess(cfg: Config, e: Event): Option<string>
    requires CarriesIdToken(e)
  {
    if cfg.tokenHashDefined then DeliveredAccess(e) else None
  }

  /** An ID token repeats its grant, and is tied to exactly what was delivered with it. */
  ghost predicate ContentOk(cfg: Config, e: Event, g: Grant)
    requires CarriesIdToken(e)
  {
    var c := e.idToken.value;
    && IdTokenMatches(g, c) && g.sub != ""
    && (c.code.Some? || c.accessToken.Some? ==> cfg.tokenHashDefined)
    && c.code == DeliveredCode(e) && c.accessToken == BoundAccess(cfg, e)
  }

  lemma ContentOfRun(cfg: Config, s: State, i: nat, g: Grant)
    requires Tokens.Valid(cfg.codec) && Inv(cfg, s) && i < |s.log| && CarriesIdToken(s.log[i])
    requires GrantedBy(s, s.log[i], g)
    ensures ContentOk(cfg, s.log[i], g)
  {
    assert EventElem(cfg, s, s.log[i]);
    assert GrantOk(cfg, g);
  }

  /** What the verifier must find: the clock in the token's window, the nonce of the request, a recent enough
      authentication of an accepted class, and, where the token carries a hash, the access token and code
      delivered with it. */
  ghost predicate Fits(cfg: Config, e: Event, g: Grant, p: Signer, issuedAt: nat, now: nat, x: Expectation)
    requires CarriesIdToken(e) && g.UserGrant?
  {
    var o := x.options;
    && now < issuedAt + p.ttl + Leeway(o) && issuedAt <= now + Leeway(o)
    && (x.nonce.Some? ==> x.nonce == g.req.nonce)
    && FreshEnough(x, g.authTime, now)
    && (o.acrValues.Some? ==> g.acr.Some? && g.acr.value in o.acrValues.value)
    && Binds(BoundAccess(cfg, e), o.accessToken, o.requireAtHash, o.allowUnchecked)
    && Binds(DeliveredCode(e), o.code, o.requireCHash, o.allowUnchecked)
  }

  ghost predicate Agrees(cfg: Config, e: Event, g: Grant, p: Signer, issuedAt: nat, now: nat, x: Expectation,
                         hash: TokenHash)
    requires CarriesIdToken(e) && g.UserGrant?
  {
    var t := Built(p, e.idToken.value, issuedAt, hash);
    && x.clientId == g.req.clientId && t.claims.sub == Some(g.sub)
    && (Accepts(x, t, now, hash) <==> Fits(cfg, e, g, p, issuedAt, now, x))
  }

  lemma ContentAgrees(cfg: Config, e: Event, g: Grant, p: Signer, issuedAt: nat, now: nat, x: Expectation,
                      hash: TokenHash)
    requires CarriesIdToken(e) && ContentOk(cfg, e, g)
    requires Injective(hash, p.alg) && (cfg.tokenHashDefined ==> forall v :: hash(p.alg, v).Some?)
    requires Matching(x, p, e.idToken.value) && g.authTime <= U64_MAX
    ensures Agrees(cfg, e, g, p, issuedAt, now, x, hash)
  {
    AcceptedExactly(x, p, e.idToken.value, issuedAt, now, hash);
  }

  /** In every run an ID token names the subject fixed at authorization, and the client it was made for accepts
      it exactly when it fits what that client holds. */
  lemma RunIdTokensAgree(cfg: Config, actions: seq<Action>, i: nat, g: Grant, p: Signer, issuedAt: nat, now: nat,
                         x: Expectation, hash: TokenHash)
    requires Tokens.Valid(cfg.codec)
    requires var s := Run(cfg, actions); i < |s.log| && CarriesIdToken(s.log[i]) && GrantedBy(s, s.log[i], g)
    requires Injective(hash, p.alg) && (cfg.tokenHashDefined ==> forall v :: hash(p.alg, v).Some?)
    requires Matching(x, p, Run(cfg, actions).log[i].idToken.value) && g.UserGrant? && g.authTime <= U64_MAX
    ensures Agrees(cfg, Run(cfg, actions).log[i], g, p, issuedAt, now, x, hash)
  {
    RunKeeps(cfg, actions);
    ContentOfRun(cfg, Run(cfg, actions), i, g);
    ContentAgrees(cfg, Run(cfg, actions).log[i], g, p, issuedAt, now, x, hash);
  }

  /** A verifier that holds what came with the ID token and the nonce it sent, and asks for no particular age or
      class. It may insist on the hashes the provider makes, and in the code flow may also pass the code it
      redeemed. */
  ghost predicate Holds(x: Expectation, cfg: Config, e: Event, nonce: Option<string>)
    requires CarriesIdToken(e)
  {
    && (x.nonce == None || x.nonce == nonce)
    && x.options.accessToken == DeliveredAccess(e)
    && (x.options.code == DeliveredCode(e) || (e.Response? && !x.options.requireCHash))
    && x.options.maxAge.None? && x.options.acrValues.None?
    && (x.options.requireAtHash ==> cfg.tokenHashDefined)
  }

  /** Something was delivered, and the verifier holds something else. */
  predicate Differs(delivered: Option<string>, held: Option<string>) {
    delivered.Some? && held.Some? && held != delivered
  }

  /** So a verifier that holds what was delivered accepts throughout the validity window, and one that holds
      another nonce, access token or code never does. */
  lemma FitsWhatWasDelivered(cfg: Config, e: Event, g: Grant, p: Signer, issuedAt: nat, now: nat, x: Expectation)
    requires CarriesIdToken(e) && g.UserGrant? && Configured(x) && ContentOk(cfg, e, g)
    ensures Holds(x, cfg, e, g.req.nonce) && issuedAt <= now < issuedAt + p.ttl ==> Fits(cfg, e, g, p, issuedAt, now, x)
    ensures x.nonce.Some? && x.nonce != g.req.nonce ==> !Fits(cfg, e, g, p, issuedAt, now, x)
    ensures Differs(BoundAccess(cfg, e), x.options.accessToken) ==> !Fits(cfg, e, g, p, issuedAt, now, x)
    ensures Differs(DeliveredCode(e), x.options.code) ==> !Fits(cfg, e, g, p, issuedAt, now, x)
  {
  }
}
