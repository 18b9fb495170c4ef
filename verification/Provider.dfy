/** The provider as a step machine. Requests to the token endpoint interleave: each is split where the
    code reads the clock or touches the one-time-use store, which reads the clock once more before it
    takes its lock. Time only moves forward. */
module Provider {
  import opened Text
  import opened Json
  import opened Requests
  import opened Clients
  import opened Tokens
  import opened Claims
  import Pkce
  import Redirect
  import Utf8
  import TokenUse
  import opened UseKeys

  /** `digest` is base64url(SHA-256(text)); `parsesAsUri` is the URL library's absolute-URI test;
      `emittedIss` is the issuer when responses are to carry it. */
  datatype Config = Config(
    codec: TokenCodec,
    codeTtl: nat, accessTtl: nat, refreshTtl: nat,
    digest: string -> string,
    parsesAsUri: string -> bool,
    pairwise: bool,
    tokenHashDefined: bool,
    emittedIss: Option<string>)

  ghost predicate ValidConfig(cfg: Config) {
    Valid(cfg.codec) && forall s, t :: cfg.digest(s) == cfg.digest(t) ==> s == t
  }

  // ---- Authorization endpoint --------------------------------------------

  predicate SubjectTypeSupported(cfg: Config, client: Client) {
    client.subjectType == "public" || (client.subjectType == "pairwise" && cfg.pairwise)
  }

  predicate UriAcceptable(cfg: Config, uri: string) {
    && (forall i :: 0 <= i < |uri| ==> !IsWhitespace(uri[i]) && !IsControl(uri[i]))
    && cfg.parsesAsUri(uri)
    && '#' !in uri
  }

  predicate PkceAcceptable(client: Client, req: AuthorizationRequest) {
    || (req.codeChallenge.Some? && req.codeChallengeMethod == Some("S256")
        && Pkce.IsValidS256Challenge(req.codeChallenge.value))
    || (req.codeChallenge.None? && req.codeChallengeMethod.None? && client.authMethod != AUTH_NONE)
  }

  predicate ScopeRegistered(client: Client, req: AuthorizationRequest) {
    client.scope.Some? ==> forall w :: w in Words(req.scope) ==> w in Words(client.scope.value)
  }

  /** `client` is the registration found under the request's client id. */
  ghost predicate RequestAccepted(cfg: Config, client: Client, req: AuthorizationRequest) {
    && client.clientId == req.clientId
    && req.redirectUri in client.redirectUris
    && (req.state.Some? ==> IsValidState(req.state.value))
    && UriAcceptable(cfg, req.redirectUri)
    && SubjectTypeSupported(cfg, client)
    && ValidateResponseType(req).Ok?
    && PromptAllowed(req)
    && ValidateResponseMode(req).Ok?
    && (WantsIdToken(req) && (WantsCode(req) || WantsAccessToken(req)) ==> cfg.tokenHashDefined)
    && AllowsResponseType(client, req.responseType)
    && (WantsIdToken(req) ==> req.nonce.Some?)
    && (WantsCode(req) ==> PkceAcceptable(client, req))
    && ScopeRegistered(client, req)
  }

  /** No second `iss` may appear beside an emitted one. */
  predicate IssFits(cfg: Config, req: AuthorizationRequest) {
    !Redirect.IssCollides(Utf8.Encode(req.redirectUri), cfg.emittedIss.Some?, UseFragment(req))
  }

  // ---- State -------------------------------------------------------------

  /** What an end user or a client's own credentials authorised. */
  datatype Grant =
    | UserGrant(client: Client, req: AuthorizationRequest, sub: string, claims: map<string, Json>, acr: Option<string>,
                authTime: nat)
    | ServiceGrant(client: Client)

  /** A minted token with its provenance: the grant, the token exchanged for it, and the code at the
      head of its family. Only the envelope is visible to the provider. */
  datatype Minted = Minted(envelope: Envelope, grant: nat, parent: Option<string>, family: Option<string>)

  /** The arguments of an ID token; the signing itself is in module IdToken. */
  datatype IdTokenContent = IdTokenContent(
    clientId: string, sub: string, nonce: Option<string>, claims: map<string, Json>, acr: Option<string>,
    authTime: nat, code: Option<string>, accessToken: Option<string>)

  datatype Exchange =
    | CodeExchange(code: AuthCode, verifier: Option<string>, redirectUri: Option<string>)
    | RefreshExchange(rt: RefreshToken, scope: string, cnfJkt: Option<string>, requested: Option<string>)

  /** Where a token request stands: checks done, clock read, TTL computed, store entered with a reading
      of its own but not yet holding the lock, token consumed. */
  datatype Stage =
    | Checked
    | Clocked(readAt: nat)
    | Timed(readAt: nat, ttl: nat)
    | Entered(readAt: nat, ttl: nat, reading: nat)
    | Used(readAt: nat)

  datatype Pending = Pending(client: Client, token: string, exchange: Exchange, dpop: Option<string>, stage: Stage)

  datatype Event =
    | Use(token: string, exp: nat, at: nat, until: nat, won: bool)
    | Response(request: Pending, access: string, refresh: Option<string>, tokenType: string,
               idToken: Option<IdTokenContent>, scope: string, expiresIn: nat, answeredAt: nat)
    | FrontChannel(grant: nat, frontAccess: Option<string>, frontCode: Option<string>, idToken: Option<IdTokenContent>)

  datatype State = State(
    now: nat,
    store: TokenUse.Store,
    minted: map<string, Minted>,
    pending: map<nat, Pending>,
    grants: seq<Grant>,
    log: seq<Event>,
    sweeps: seq<SweepRecord>)

  /** A sweep of the store by the reading `upTo`, made when the log had `after` events. */
  datatype SweepRecord = SweepRecord(after: nat, upTo: nat)

  const INITIAL := State(0, TokenUse.EMPTY, map[], map[], [], [], [])

  /** `id` names an in-flight request; `access`, `refresh` and `code` name the strings that sealing
      would produce, which must be new. */
  datatype Action =
    | Tick(seconds: nat)
    | Sweep(reading: nat)
    | AssertionUse(digest: string, ttl: nat, reading: nat)
    | Authorize(req: AuthorizationRequest, client: Client, sub: string, released: map<string, Json>,
                extra: map<string, Json>,
                acr: Option<string>, authTime: Option<nat>, code: string, access: string)
    | ClientCredentials(client: Client, requested: Option<string>, dpop: Option<string>, access: string)
    | BeginCode(id: nat, client: Client, code: string, redirectUri: Option<string>, verifier: Option<string>,
                dpop: Option<string>)
    | BeginRefresh(id: nat, client: Client, token: string, requested: Option<string>, dpop: Option<string>)
    | ReadClock(id: nat)
    | ComputeTtl(id: nat)
    | EnterStore(id: nat)
    | Consume(id: nat)
    | Finish(id: nat, access: string, refresh: string)
    | Abort(id: nat)

  function UseKeyOf(cfg: Config, token: string, p: Payload): string {
    UseKey(if p.Code? then KIND_CODE else KIND_REFRESH, cfg.digest(token))
  }

  // ---- Steps -------------------------------------------------------------

  function AccessFor(req: AuthorizationRequest, sub: string, claims: map<string, Json>, exp: nat): AccessToken {
    AccessToken(req.clientId, sub, req.scope, claims, exp, None)
  }

  function CodeFor(g: Grant, exp: nat): AuthCode
    requires g.UserGrant?
  {
    AuthCode(g.req.clientId, g.req.redirectUri, g.req.scope, g.sub, g.req.nonce, g.req.codeChallenge,
             g.req.codeChallengeMethod, g.claims, g.authTime, exp, g.acr)
  }

  ghost function AuthorizeStep(cfg: Config, s: State, a: Action): State
    requires a.Authorize? && Valid(cfg.codec)
  {
    if !RequestAccepted(cfg, a.client, a.req) || !IssFits(cfg, a.req) || a.sub == "" || a.code in s.minted
       || a.access in s.minted || a.code == a.access then s
    else
      var claims := MintedClaims(a.req.scope, a.released, a.extra);
      var authTime := if a.authTime.Some? then a.authTime.value else s.now;
      var g := UserGrant(a.client, a.req, a.sub, claims, a.acr, authTime);
      var grant := |s.grants|;
      var access := if WantsAccessToken(a.req) then Some(a.access) else None;
      var code := if WantsCode(a.req) then Some(a.code) else None;
      var at := AccessFor(a.req, a.sub, claims, s.now + cfg.accessTtl);
      var m1 := if access.None? then s.minted
                else s.minted[a.access := Minted(Seal(cfg.codec, Access(at)), grant, None, None)];
      var ac := CodeFor(g, s.now + cfg.codeTtl);
      var m2 := if code.None? then m1
                else m1[a.code := Minted(Seal(cfg.codec, Code(ac)), grant, None, Some(a.code))];
      var idToken := if WantsIdToken(a.req) then
                       Some(IdTokenContent(a.req.clientId, a.sub, a.req.nonce, claims, a.acr, authTime, code, access))
                     else None;
      s.(minted := m2, grants := s.grants + [g], log := s.log + [FrontChannel(grant, access, code, idToken)])
  }

  function GrantedScopes(client: Client, requested: Option<string>): seq<string> {
    var allowed := if client.scope.Some? then Words(client.scope.value) else [];
    if requested.Some? then Kept(Words(requested.value), allowed) else allowed
  }

  function Kept(ws: seq<string>, allowed: seq<string>): (r: seq<string>)
    ensures forall w :: w in r <==> w in ws && w in allowed
  {
    if ws == [] then []
    else if ws[0] in allowed then [ws[0]] + Kept(ws[1..], allowed)
    else Kept(ws[1..], allowed)
  }

  function ClientCredentialsStep(cfg: Config, s: State, a: Action): State
    requires a.ClientCredentials? && Valid(cfg.codec)
  {
    var granted := GrantedScopes(a.client, a.requested);
    if a.client.authMethod == AUTH_NONE || "client_credentials" !in a.client.grantTypes
       || "openid" in granted || granted == [] || a.access in s.minted then s
    else
      var at := AccessToken(a.client.clientId, a.client.clientId, Join(granted, " "), map[], s.now + cfg.accessTtl,
                            a.dpop);
      s.(minted := s.minted[a.access := Minted(Seal(cfg.codec, Access(at)), |s.grants|, None, None)],
         grants := s.grants + [ServiceGrant(a.client)])
  }

  predicate PkceSatisfied(cfg: Config, client: Client, code: AuthCode, verifier: Option<string>) {
    && (client.authMethod == AUTH_NONE ==>
          code.challenge.Some? && code.challengeMethod == Some("S256") && code.challenge.value != "")
    && (code.challenge.Some? ==>
          verifier.Some? && Pkce.Verify(cfg.digest, verifier.value, code.challenge.value, code.challengeMethod))
  }

  predicate CodeRequestAccepted(cfg: Config, client: Client, code: AuthCode, redirectUri: Option<string>,
                                verifier: Option<string>) {
    && code.clientId == client.clientId
    && (code.redirectUri != "" ==> redirectUri == Some(code.redirectUri))
    && PkceSatisfied(cfg, client, code, verifier)
  }

  function BeginCodeStep(cfg: Config, s: State, a: Action): State
    requires a.BeginCode?
  {
    if a.id in s.pending || "authorization_code" !in a.client.grantTypes || a.code !in s.minted then s
    else
      match OpenCode(cfg.codec, s.minted[a.code].envelope, s.now)
      case None => s
      case Some(code) =>
        if !CodeRequestAccepted(cfg, a.client, code, a.redirectUri, a.verifier) then s
        else
          var x := CodeExchange(code, a.verifier, a.redirectUri);
          s.(pending := s.pending[a.id := Pending(a.client, a.code, x, a.dpop, Checked)])
  }

  /** The sender-constraint of what a refresh mints; None when the proof is missing or foreign. */
  function RefreshBinding(bound: Option<string>, dpop: Option<string>): Option<Option<string>> {
    if bound.None? then Some(dpop)
    else if dpop == bound then Some(bound)
    else None
  }

  /** A requested scope must be a non-empty part of the original one. */
  function NarrowedScope(original: string, requested: Option<string>): Option<string> {
    if requested.None? then Some(original)
    else
      var ws := Words(requested.value);
      if ws == [] || exists w :: w in ws && w !in Words(original) then None else Some(Join(ws, " "))
  }

  function BeginRefreshStep(cfg: Config, s: State, a: Action): State
    requires a.BeginRefresh?
  {
    if a.id in s.pending || "refresh_token" !in a.client.grantTypes || a.token !in s.minted then s
    else
      match OpenRefresh(cfg.codec, s.minted[a.token].envelope, s.now)
      case None => s
      case Some(rt) =>
        if rt.clientId != a.client.clientId then s
        else
          var cnf := RefreshBinding(rt.cnfJkt, a.dpop);
          var scope := NarrowedScope(rt.scope, a.requested);
          if cnf.None? || scope.None? then s
          else
            var x := RefreshExchange(rt, scope.value, cnf.value, a.requested);
            s.(pending := s.pending[a.id := Pending(a.client, a.token, x, a.dpop, Checked)])
  }

  function ExchangeExp(x: Exchange): nat {
    match x
    case CodeExchange(code, _, _) => code.exp
    case RefreshExchange(rt, _, _, _) => rt.exp
  }

  function AsPayload(x: Exchange): Payload {
    match x
    case CodeExchange(code, _, _) => Code(code)
    case RefreshExchange(rt, _, _, _) => Refresh(rt)
  }

  function ReadClockStep(s: State, id: nat): State {
    if id !in s.pending || !s.pending[id].stage.Checked? then s
    else s.(pending := s.pending[id := s.pending[id].(stage := Clocked(s.now))])
  }

  /** The TTL runs to the token's own expiry, at least one second. */
  function TtlUntil(exp: nat, now: nat): nat { if exp > now + 1 then exp - now else 1 }

  function ComputeTtlStep(s: State, id: nat): State {
    if id !in s.pending || !s.pending[id].stage.Clocked? then s
    else
      var p := s.pending[id];
      s.(pending := s.pending[id := p.(stage := Timed(p.stage.readAt, TtlUntil(ExchangeExp(p.exchange), s.now)))])
  }

  function EnterStoreStep(s: State, id: nat): State {
    if id !in s.pending || !s.pending[id].stage.Timed? then s
    else
      var p := s.pending[id];
      s.(pending := s.pending[id := p.(stage := Entered(p.stage.readAt, p.stage.ttl, s.now))])
  }

  /** A call sweeps the store when its reading says it is due. */
  function SweepsWith(s: State, reading: nat): seq<SweepRecord> {
    if reading >= s.store.nextPurge then s.sweeps + [SweepRecord(|s.log|, reading)] else s.sweeps
  }

  /** The store holds its lock from here on; it goes by the reading made before. */
  function ConsumeStep(cfg: Config, s: State, id: nat): State {
    if id !in s.pending || !s.pending[id].stage.Entered? then s
    else
      var p := s.pending[id];
      var key := UseKeyOf(cfg, p.token, AsPayload(p.exchange));
      var (store, won) := TokenUse.ConsumeStep(s.store, TokenUse.Call(key, p.stage.ttl, p.stage.reading));
      var until := p.stage.reading + TokenUse.AtLeastOne(p.stage.ttl);
      s.(store := store, sweeps := SweepsWith(s, p.stage.reading),
         log := s.log + [Use(p.token, ExchangeExp(p.exchange), s.now, until, won)],
         pending := if won then s.pending[id := p.(stage := Used(p.stage.readAt))] else s.pending - {id})
  }

  function TokenType(dpop: Option<string>): string { if dpop.Some? then "DPoP" else "Bearer" }

  function AccessOf(cfg: Config, p: Pending, now: nat): AccessToken {
    match p.exchange
    case CodeExchange(c, _, _) => AccessToken(p.client.clientId, c.sub, c.scope, c.claims, now + cfg.accessTtl, p.dpop)
    case RefreshExchange(rt, scope, cnf, _) =>
      AccessToken(p.client.clientId, rt.sub, scope, FilterClaims(scope, rt.claims), now + cfg.accessTtl, cnf)
  }

  function RefreshOf(cfg: Config, p: Pending, now: nat): RefreshToken {
    match p.exchange
    case CodeExchange(c, _, _) =>
      RefreshToken(p.client.clientId, c.sub, c.scope, c.nonce, c.claims, c.authTime, now + cfg.refreshTtl, c.acr,
                   p.dpop)
    case RefreshExchange(rt, scope, cnf, _) =>
      RefreshToken(p.client.clientId, rt.sub, scope, rt.nonce, FilterClaims(scope, rt.claims), rt.authTime,
                   now + cfg.refreshTtl, rt.acr, cnf)
  }

  function IdTokenOf(cfg: Config, p: Pending, access: string): Option<IdTokenContent> {
    var at := AccessOf(cfg, p, 0);
    var rt := RefreshOf(cfg, p, 0);
    if "openid" in Words(at.scope) then
      Some(IdTokenContent(at.clientId, at.sub, rt.nonce, at.claims, rt.acr, rt.authTime, None,
                          if cfg.tokenHashDefined then Some(access) else None))
    else None
  }

  predicate IssuesRefresh(p: Pending) {
    p.exchange.RefreshExchange? || "refresh_token" in p.client.grantTypes
  }

  /** The token response to a request. */
  function Answer(cfg: Config, p: Pending, access: string, refresh: Option<string>, idToken: Option<IdTokenContent>,
                  now: nat): Event {
    Response(p, access, refresh, TokenType(p.dpop), idToken, AccessOf(cfg, p, now).scope, cfg.accessTtl, now)
  }

  /** A code exchange stamps its tokens with the current second, a refresh with the second it read
      before consuming. */
  function FinishStep(cfg: Config, s: State, a: Action): State
    requires a.Finish? && Valid(cfg.codec)
  {
    if a.id !in s.pending || !s.pending[a.id].stage.Used? || a.access in s.minted || a.refresh in s.minted
       || a.access == a.refresh
       || s.pending[a.id].token !in s.minted then s
    else
      var p := s.pending[a.id];
      var m := s.minted[p.token];
      var stamp := if p.exchange.CodeExchange? then s.now else p.stage.readAt;
      var at := Seal(cfg.codec, Access(AccessOf(cfg, p, stamp)));
      var m1 := s.minted[a.access := Minted(at, m.grant, Some(p.token), m.family)];
      var refresh := if IssuesRefresh(p) then Some(a.refresh) else None;
      var rt := Seal(cfg.codec, Refresh(RefreshOf(cfg, p, stamp)));
      var m2 := if refresh.None? then m1 else m1[a.refresh := Minted(rt, m.grant, Some(p.token), m.family)];
      s.(minted := m2, pending := s.pending - {a.id},
         log := s.log + [Answer(cfg, p, a.access, refresh, IdTokenOf(cfg, p, a.access), s.now)])
  }

  /** A sweep at any time, by any reading already made. */
  function SweepStep(s: State, reading: nat): State {
    if reading > s.now then s
    else
      s.(store := s.store.(entries := TokenUse.Purge(s.store.entries, reading)),
         sweeps := s.sweeps + [SweepRecord(|s.log|, reading)])
  }

  /** A client assertion recorded in the shared store. */
  function AssertionUseStep(s: State, digest: string, ttl: nat, reading: nat): State {
    if reading > s.now then s
    else
      var call := TokenUse.Call(UseKey(KIND_ASSERTION, digest), ttl, reading);
      s.(store := TokenUse.ConsumeStep(s.store, call).0, sweeps := SweepsWith(s, reading))
  }

  ghost function Step(cfg: Config, s: State, a: Action): State
    requires Valid(cfg.codec)
  {
    match a
    case Tick(seconds) => s.(now := s.now + seconds)
    case Sweep(reading) => SweepStep(s, reading)
    case AssertionUse(digest, ttl, reading) => AssertionUseStep(s, digest, ttl, reading)
    case Authorize(_, _, _, _, _, _, _, _, _) => AuthorizeStep(cfg, s, a)
    case ClientCredentials(_, _, _, _) => ClientCredentialsStep(cfg, s, a)
    case BeginCode(_, _, _, _, _, _) => BeginCodeStep(cfg, s, a)
    case BeginRefresh(_, _, _, _, _) => BeginRefreshStep(cfg, s, a)
    case ReadClock(id) => ReadClockStep(s, id)
    case ComputeTtl(id) => ComputeTtlStep(s, id)
    case EnterStore(id) => EnterStoreStep(s, id)
    case Consume(id) => ConsumeStep(cfg, s, id)
    case Finish(_, _, _) => FinishStep(cfg, s, a)
    case Abort(id) => s.(pending := s.pending - {id})
  }

  ghost function Run(cfg: Config, actions: seq<Action>): State
    requires Valid(cfg.codec)
  {
    if actions == [] then INITIAL
    else Step(cfg, Run(cfg, actions[..|actions| - 1]), actions[|actions| - 1])
  }

  // ---- UserInfo ----------------------------------------------------------

  function UserInfo(cfg: Config, s: State, token: string, presentedJkt: Option<string>): Option<map<string, Json>> {
    if token !in s.minted then None
    else
      match OpenAccess(cfg.codec, s.minted[token].envelope, s.now)
      case None => None
      case Some(at) =>
        if "openid" !in Words(at.scope) then None
        else if at.cnfJkt.Some? && presentedJkt != at.cnfJkt then None
        else Some(at.claims["sub" := Str(at.sub)])
  }
}
