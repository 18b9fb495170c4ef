/** The authorization endpoint, said in the fields of request and registration: exactly which requests are
    answered, with exactly what, and what every grant of every run therefore satisfies. */
module Authorizations {
  import opened Text
  import opened Json
  import opened Requests
  import opened Clients
  import opened Tokens
  import opened Claims
  import opened Provider
  import opened ProviderInvariant
  import FormEncoding
  import Redirect
  import Utf8
  import Pkce

  const CANONICAL_LAST := "AEIMQUYcgkosw048"

  /** 43 base64url characters, the last with its two spare bits zero. */
  ghost predicate CanonicalDigest(c: string) {
    && |c| == 43 && c[42] in CANONICAL_LAST
    && forall i :: 0 <= i < 43 ==>
         'A' <= c[i] <= 'Z' || 'a' <= c[i] <= 'z' || '0' <= c[i] <= '9' || c[i] == '-' || c[i] == '_'
  }

  /** A subset of code, ID token and access token, spelled without repetition, with a code or an ID token. */
  ghost predicate AsksForArtifacts(parts: seq<string>) {
    && (forall i, j :: 0 <= i < j < |parts| ==> parts[i] != parts[j])
    && (forall p :: p in parts ==> p == "code" || p == "id_token" || p == "token")
    && ("code" in parts || "id_token" in parts)
  }

  /** `none` is not given together with another value. */
  ghost predicate PromptStandsAlone(parts: seq<string>) {
    "none" in parts ==>
      forall i, j :: 0 <= i < j < |parts| ==> parts[i] == "" || parts[j] == ""
  }

  /** What the URI, the state and the subject type must be. */
  ghost predicate WellAddressed(cfg: Config, client: Client, req: AuthorizationRequest) {
    && req.clientId == client.clientId && req.redirectUri in client.redirectUris
    && cfg.parsesAsUri(req.redirectUri)
    && (forall c :: c in req.redirectUri ==> !IsWhitespace(c) && !IsControl(c) && c != '#')
    && (req.state.Some? ==> |req.state.value| <= 1024 && forall c :: c in req.state.value ==> ' ' <= c <= '~')
    && (client.subjectType == "public" || (client.subjectType == "pairwise" && cfg.pairwise))
  }

  /** What the response type, the mode and the prompt must be. */
  ghost predicate WellTyped(cfg: Config, client: Client, req: AuthorizationRequest) {
    var parts := SplitOn(req.responseType, ' ');
    && AsksForArtifacts(parts)
    && (exists rt :: rt in client.responseTypes && multiset(SplitOn(rt, ' ')) == multiset(parts))
    && ("id_token" in parts ==> req.nonce.Some? && "openid" in Words(req.scope))
    && ("id_token" in parts && ("code" in parts || "token" in parts) ==> cfg.tokenHashDefined)
    && (req.responseMode.Some? ==>
          || req.responseMode.value == "fragment"
          || (req.responseMode.value == "query" && "id_token" !in parts && "token" !in parts))
    && (req.prompt.Some? ==> PromptStandsAlone(SplitOn(req.prompt.value, ' ')))
  }

  /** What proof key and scope must be. */
  ghost predicate WellBounded(client: Client, req: AuthorizationRequest) {
    && ("code" in SplitOn(req.responseType, ' ') ==>
          if req.codeChallenge.Some? then CanonicalDigest(req.codeChallenge.value)
             && req.codeChallengeMethod == Some("S256")
          else req.codeChallengeMethod.None? && client.authMethod != "none")
    && (client.scope.Some? ==> forall w :: w in Words(req.scope) ==> w in Words(client.scope.value))
  }

  ghost predicate Legitimate(cfg: Config, client: Client, req: AuthorizationRequest) {
    WellAddressed(cfg, client, req) && WellTyped(cfg, client, req) && WellBounded(client, req)
  }

  // ---- The endpoint's checks are these -----------------------------------------------

  lemma DigestExactly(c: string)
    ensures CanonicalDigest(c) <==> Pkce.IsValidS256Challenge(c)
  {
    if |c| == 43 {
      LastDigit(c[42]);
    }
  }

  lemma LastDigit(c: char)
    ensures c in CANONICAL_LAST <==> Pkce.Base64UrlValue(c) < 64 && Pkce.Base64UrlValue(c) % 4 == 0
  {
    var all := CANONICAL_LAST;
    assert all[0] == 'A' && all[1] == 'E' && all[2] == 'I' && all[3] == 'M' && all[4] == 'Q' && all[5] == 'U';
    assert all[6] == 'Y' && all[7] == 'c' && all[8] == 'g' && all[9] == 'k' && all[10] == 'o' && all[11] == 's';
    assert all[12] == 'w' && all[13] == '0' && all[14] == '4' && all[15] == '8';
  }

  lemma {:induction false} FilledExactly(parts: seq<string>)
    ensures forall p :: p in Filled(parts) <==> p in parts && p != ""
    ensures |Filled(parts)| >= 2 <==> exists i, j :: 0 <= i < j < |parts| && parts[i] != "" && parts[j] != ""
    ensures |Filled(parts)| == 0 <==> forall i :: 0 <= i < |parts| ==> parts[i] == ""
  {
    if parts != [] {
      var n := |parts| - 1;
      FilledExactly(parts[..n]);
      assert parts == parts[..n] + [parts[n]];
      if i, j :| 0 <= i < j < n && parts[..n][i] != "" && parts[..n][j] != "" {
        assert parts[i] != "" && parts[j] != "";
      }
      if i, j :| 0 <= i < j < |parts| && parts[i] != "" && parts[j] != "" {
        assert parts[..n][i] == parts[i];
        if j < n { assert parts[..n][j] == parts[j]; }
      }
      if parts[n] != "" && |Filled(parts[..n])| >= 1 {
        var i :| 0 <= i < n && parts[..n][i] != "";
        assert parts[i] != "" && parts[n] != "";
      }
    }
  }

  lemma PromptExactly(prompt: string)
    ensures var values := Filled(SplitOn(prompt, ' '));
            PromptStandsAlone(SplitOn(prompt, ' ')) <==> ("none" in values ==> values == ["none"])
  {
    var parts := SplitOn(prompt, ' ');
    FilledExactly(parts);
    assert |"none"| == 4;
    var values := Filled(parts);
    if "none" in values && |values| == 1 {
      assert values[0] == "none";
    }
  }

  lemma ArtifactsExactly(rt: string)
    ensures Supported(rt) <==> AsksForArtifacts(SplitOn(rt, ' '))
  {
    SupportedExactly(rt);
    var parts := SplitOn(rt, ' ');
    if AsksForArtifacts(parts) {
      assert |CODE| == 4 && |ID_TOKEN| == 8 && |TOKEN| == 5;
      forall i | 0 <= i < |parts| ensures parts[i] != "" { assert parts[i] in parts; }
    }
    assert forall p :: p in MemberSet(rt) <==> p in parts;
  }

  lemma RegisteredExactly(client: Client, rt: string)
    requires WellFormed(rt)
    ensures AllowsResponseType(client, rt) <==>
            exists r :: r in client.responseTypes && multiset(SplitOn(r, ' ')) == multiset(SplitOn(rt, ' '))
  {
    if i :| 0 <= i < |client.responseTypes| && ResponseTypeEq(client.responseTypes[i], rt) {
      ResponseTypeEquivalence(client.responseTypes[i], rt, rt);
      assert client.responseTypes[i] in client.responseTypes;
    }
    if r :| r in client.responseTypes && multiset(SplitOn(r, ' ')) == multiset(SplitOn(rt, ' ')) {
      SameBagWellFormed(r, rt);
      ResponseTypeEquivalence(r, rt, rt);
      var i :| 0 <= i < |client.responseTypes| && client.responseTypes[i] == r;
      assert ResponseTypeEq(client.responseTypes[i], rt);
    }
  }

  lemma SameBagWellFormed(r: string, rt: string)
    requires WellFormed(rt) && multiset(SplitOn(r, ' ')) == multiset(SplitOn(rt, ' '))
    ensures WellFormed(r)
  {
    var a, b := SplitOn(r, ' '), SplitOn(rt, ' ');
    forall i | 0 <= i < |a| ensures a[i] != "" {
      assert a[i] in multiset(a);
      assert a[i] in multiset(b);
    }
    DistinctMultiset(b);
    forall i, j | 0 <= i < j < |a| ensures a[i] != a[j] {
      assert multiset(b)[a[i]] <= 1;
      if a[i] == a[j] { TwiceCounted(a, i, j); }
    }
  }

  lemma TwiceCounted(a: seq<string>, i: nat, j: nat)
    requires i < j < |a| && a[i] == a[j]
    ensures multiset(a)[a[i]] >= 2
  {
    assert a == a[..j] + [a[j]] + a[j + 1..];
    assert a[i] in a[..j];
    assert multiset(a) == multiset(a[..j]) + multiset{a[j]} + multiset(a[j + 1..]);
  }

  lemma AddressedExactly(cfg: Config, client: Client, req: AuthorizationRequest)
    ensures WellAddressed(cfg, client, req) <==>
            && client.clientId == req.clientId && req.redirectUri in client.redirectUris
            && (req.state.Some? ==> IsValidState(req.state.value))
            && UriAcceptable(cfg, req.redirectUri) && SubjectTypeSupported(cfg, client)
  {
    ByIndex(req.redirectUri);
    if req.state.Some? { ByIndex(req.state.value); }
  }

  lemma ByIndex(s: string)
    ensures (forall c :: c in s ==> ' ' <= c <= '~') <==> (forall i :: 0 <= i < |s| ==> ' ' <= s[i] <= '~')
    ensures (forall c :: c in s ==> !IsWhitespace(c) && !IsControl(c) && c != '#') <==>
            (forall i :: 0 <= i < |s| ==> !IsWhitespace(s[i]) && !IsControl(s[i])) && '#' !in s
  {
    assert forall i :: 0 <= i < |s| ==> s[i] in s;
  }

  lemma WantsExactly(req: AuthorizationRequest)
    requires Supported(req.responseType)
    ensures WantsCode(req) <==> "code" in SplitOn(req.responseType, ' ')
    ensures WantsIdToken(req) <==> "id_token" in SplitOn(req.responseType, ' ')
    ensures WantsAccessToken(req) <==> "token" in SplitOn(req.responseType, ' ')
  {
    SplittersAgree(req);
  }

  lemma TypedExactly(cfg: Config, client: Client, req: AuthorizationRequest)
    ensures WellTyped(cfg, client, req) <==>
            && ValidateResponseType(req).Ok? && PromptAllowed(req) && ValidateResponseMode(req).Ok?
            && (WantsIdToken(req) && (WantsCode(req) || WantsAccessToken(req)) ==> cfg.tokenHashDefined)
            && AllowsResponseType(client, req.responseType) && (WantsIdToken(req) ==> req.nonce.Some?)
  {
    ArtifactsExactly(req.responseType);
    if Supported(req.responseType) {
      WantsExactly(req);
      SupportedExactly(req.responseType);
      RegisteredExactly(client, req.responseType);
      if req.prompt.Some? { PromptExactly(req.prompt.value); }
    }
  }

  lemma BoundedExactly(client: Client, req: AuthorizationRequest)
    requires Supported(req.responseType)
    ensures WellBounded(client, req) <==>
            (WantsCode(req) ==> PkceAcceptable(client, req)) && ScopeRegistered(client, req)
  {
    WantsExactly(req);
    if req.codeChallenge.Some? { DigestExactly(req.codeChallenge.value); }
  }

  lemma AcceptedExactly(cfg: Config, client: Client, req: AuthorizationRequest)
    ensures RequestAccepted(cfg, client, req) <==> Legitimate(cfg, client, req)
  {
    AddressedExactly(cfg, client, req);
    TypedExactly(cfg, client, req);
    if Supported(req.responseType) {
      BoundedExactly(client, req);
    } else {
      ArtifactsExactly(req.responseType);
    }
  }

  // ---- Runs ----------------------------------------------------------------------------

  /** No own `iss` beside an emitted one, unless the response goes in the fragment. */
  ghost predicate IssAlone(cfg: Config, req: AuthorizationRequest) {
    var parts := SplitOn(req.responseType, ' ');
    cfg.emittedIss.Some? && req.responseMode != Some("fragment") && "id_token" !in parts && "token" !in parts ==>
      forall p :: p in FormEncoding.Parse(Redirect.QueryOf(Utf8.Encode(req.redirectUri))) ==> p.0 != "iss"
  }

  lemma {:induction false} NamedNothing(pairs: seq<(string, string)>, name: string)
    ensures FormEncoding.Named(pairs, name) == [] <==> forall p :: p in pairs ==> p.0 != name
  {
    if pairs != [] {
      NamedNothing(pairs[1..], name);
      assert pairs == [pairs[0]] + pairs[1..];
    }
  }

  lemma IssExactly(cfg: Config, req: AuthorizationRequest)
    requires ValidateResponseType(req).Ok? && ValidateResponseMode(req).Ok?
    ensures IssFits(cfg, req) <==> IssAlone(cfg, req)
  {
    WantsExactly(req);
    QueryCarriesOnlyCode(req);
    NamedNothing(FormEncoding.Parse(Redirect.QueryOf(Utf8.Encode(req.redirectUri))), "iss");
  }

  /** Every end-user grant of every run was a legitimate request of its registered client. */
  lemma GrantsAreLegitimate(cfg: Config, actions: seq<Action>, i: nat)
    requires Valid(cfg.codec) && i < |Run(cfg, actions).grants| && Run(cfg, actions).grants[i].UserGrant?
    ensures var g := Run(cfg, actions).grants[i];
            Legitimate(cfg, g.client, g.req) && IssAlone(cfg, g.req) && g.sub != ""
  {
    RunKeeps(cfg, actions);
    var g := Run(cfg, actions).grants[i];
    assert GrantOk(cfg, g);
    AcceptedExactly(cfg, g.client, g.req);
    IssExactly(cfg, g.req);
  }

  /** The strings that sealing would produce are new. */
  ghost predicate Fresh(s: State, a: Action)
    requires a.Authorize?
  {
    a.code !in s.minted && a.access !in s.minted && a.code != a.access
  }

  ghost predicate Answerable(cfg: Config, s: State, a: Action)
    requires a.Authorize?
  {
    Legitimate(cfg, a.client, a.req) && IssAlone(cfg, a.req) && a.sub != "" && Fresh(s, a)
  }

  /** The claims a response is minted with: released claims the scope allows, overridden by the provider's
      own, none of which may bear a reserved name. */
  ghost predicate ClaimsOf(claims: map<string, Json>, a: Action)
    requires a.Authorize?
  {
    forall k :: Get(claims, k) ==
      if !AllowedByScope(a.req.scope, k) then None
      else if k in a.extra && !IsReserved(k) then Some(a.extra[k])
      else Get(a.released, k)
  }

  /** The grant recorded for the request. */
  ghost predicate GrantRecords(g: Grant, a: Action, now: nat)
    requires a.Authorize?
  {
    && g.UserGrant? && g.client == a.client && g.req == a.req && g.sub == a.sub && g.acr == a.acr
    && g.authTime == (if a.authTime.Some? then a.authTime.value else now) && ClaimsOf(g.claims, a)
  }

  ghost predicate CodeRecords(cfg: Config, c: AuthCode, g: Grant, now: nat)
    requires g.UserGrant?
  {
    && c.clientId == g.req.clientId && c.redirectUri == g.req.redirectUri && c.scope == g.req.scope && c.sub == g.sub
    && c.nonce == g.req.nonce && c.challenge == g.req.codeChallenge && c.challengeMethod == g.req.codeChallengeMethod
    && c.claims == g.claims && c.authTime == g.authTime && c.acr == g.acr && c.exp == now + cfg.codeTtl
  }

  ghost predicate AccessRecords(cfg: Config, at: AccessToken, g: Grant, now: nat)
    requires g.UserGrant?
  {
    && at.clientId == g.req.clientId && at.sub == g.sub && at.scope == g.req.scope && at.claims == g.claims
    && at.cnfJkt.None? && at.exp == now + cfg.accessTtl
  }

  ghost predicate IdTokenRecords(c: IdTokenContent, g: Grant, code: Option<string>, access: Option<string>)
    requires g.UserGrant?
  {
    && c.clientId == g.req.clientId && c.sub == g.sub && c.nonce == g.req.nonce && c.claims == g.claims
    && c.acr == g.acr && c.authTime == g.authTime && c.code == code && c.accessToken == access
  }

  function Given(asked: bool, token: string): Option<string> { if asked then Some(token) else None }

  /** One more grant and one more response, with exactly the artifacts asked for. */
  ghost predicate Responds(s: State, t: State, a: Action, code: Option<string>, access: Option<string>, idToken: bool)
    requires a.Authorize?
  {
    && |t.grants| == |s.grants| + 1 && t.grants[..|s.grants|] == s.grants && |t.log| == |s.log| + 1 && s.log <= t.log
    && var g, e := t.grants[|s.grants|], t.log[|s.log|];
    && GrantRecords(g, a, s.now)
    && e.FrontChannel? && e.grant == |s.grants| && e.frontCode == code && e.frontAccess == access
    && (e.idToken.Some? <==> idToken) && (idToken ==> IdTokenRecords(e.idToken.value, g, code, access))
    && t.now == s.now && t.store == s.store && t.pending == s.pending
  }

  function Only(token: Option<string>): set<string> { if token.Some? then {token.value} else {} }

  /** Exactly the tokens asked for are new, and they record the grant. */
  ghost predicate Mints(cfg: Config, s: State, t: State, g: Grant, code: Option<string>, access: Option<string>)
    requires g.UserGrant?
  {
    && t.minted.Keys == s.minted.Keys + Only(code) + Only(access)
    && (forall k :: k in s.minted ==> t.minted[k] == s.minted[k])
    && (code.Some? ==> PayloadOf(t, code.value).Code? && CodeRecords(cfg, PayloadOf(t, code.value).code, g, s.now))
    && (access.Some? ==>
          PayloadOf(t, access.value).Access? && AccessRecords(cfg, PayloadOf(t, access.value).access, g, s.now))
  }

  ghost predicate Answered(cfg: Config, s: State, t: State, a: Action)
    requires a.Authorize?
  {
    var parts := SplitOn(a.req.responseType, ' ');
    var code, access := Given("code" in parts, a.code), Given("token" in parts, a.access);
    && Responds(s, t, a, code, access, "id_token" in parts)
    && Mints(cfg, s, t, t.grants[|s.grants|], code, access)
  }

  lemma ClaimsExactly(a: Action)
    requires a.Authorize?
    ensures ClaimsOf(MintedClaims(a.req.scope, a.released, a.extra), a)
  {
    var claims := MintedClaims(a.req.scope, a.released, a.extra);
    forall k
      ensures Get(claims, k) ==
              if !AllowedByScope(a.req.scope, k) then None
              else if k in a.extra && !IsReserved(k) then Some(a.extra[k])
              else Get(a.released, k)
    {
      MintedClaimsExactly(a.req.scope, a.released, a.extra, k);
    }
  }

  ghost predicate Accepted(cfg: Config, s: State, a: Action)
    requires a.Authorize?
  {
    RequestAccepted(cfg, a.client, a.req) && IssFits(cfg, a.req) && a.sub != "" && Fresh(s, a)
  }

  lemma AuthorizeResponds(cfg: Config, s: State, a: Action)
    requires Valid(cfg.codec) && a.Authorize? && Accepted(cfg, s, a)
    ensures Responds(s, AuthorizeStep(cfg, s, a), a, Given(WantsCode(a.req), a.code),
                     Given(WantsAccessToken(a.req), a.access), WantsIdToken(a.req))
  {
    ClaimsExactly(a);
  }

  lemma AuthorizeMints(cfg: Config, s: State, a: Action)
    requires Valid(cfg.codec) && a.Authorize? && Accepted(cfg, s, a)
    requires |AuthorizeStep(cfg, s, a).grants| == |s.grants| + 1
             && AuthorizeStep(cfg, s, a).grants[|s.grants|].UserGrant?
    ensures var t := AuthorizeStep(cfg, s, a);
            Mints(cfg, s, t, t.grants[|s.grants|], Given(WantsCode(a.req), a.code),
                  Given(WantsAccessToken(a.req), a.access))
  {
  }

  lemma AuthorizeAnswers(cfg: Config, s: State, a: Action)
    requires Valid(cfg.codec) && a.Authorize? && Accepted(cfg, s, a)
    ensures Answered(cfg, s, AuthorizeStep(cfg, s, a), a)
  {
    WantsExactly(a.req);
    AuthorizeResponds(cfg, s, a);
    AuthorizeMints(cfg, s, a);
  }

  /** A legitimate request is answered, and nothing else is. */
  lemma AuthorizeExactly(cfg: Config, s: State, a: Action)
    requires Valid(cfg.codec) && a.Authorize?
    ensures var t := Step(cfg, s, a); if Answerable(cfg, s, a) then Answered(cfg, s, t, a) else t == s
  {
    AcceptedExactly(cfg, a.client, a.req);
    if RequestAccepted(cfg, a.client, a.req) {
      IssExactly(cfg, a.req);
      if Answerable(cfg, s, a) { AuthorizeAnswers(cfg, s, a); }
    }
  }
}
