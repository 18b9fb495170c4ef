/** ID tokens: the provider's construction and the relying party's verification. A signature is
    idealised as the name of the key that made it. */
module IdToken {
  import opened U64
  import opened Text
  import opened Json
  import opened Claims
  import opened Provider

  datatype Audience = Single(client: string) | Multiple(clients: seq<string>)

  /** Registered claims are typed fields; everything else is in `extra`. */
  datatype TokenClaims = TokenClaims(
    iss: Option<string>, sub: Option<string>, aud: Option<Audience>, iat: Option<real>, exp: Option<real>,
    nbf: Option<real>, extra: map<string, Json>)

  datatype Token = Token(alg: string, kid: Option<string>, signer: string, claims: TokenClaims)

  /** `hash(alg, value)` is the left-half token hash, None for an algorithm that defines none. */
  type TokenHash = (string, string) -> Option<string>

  // ---- The provider ------------------------------------------------------------------

  datatype Signer = Signer(issuer: string, alg: string, kid: Option<string>, key: string, ttl: nat)

  function TextClaim(name: string, value: Option<string>): map<string, Json> {
    if value.Some? then map[name := Str(value.value)] else map[]
  }

  function HashOf(hash: TokenHash, alg: string, value: Option<string>): Option<string> {
    if value.Some? then hash(alg, value.value) else None
  }

  /** A hash is wanted only where the algorithm defines one. */
  predicate Hashable(p: Signer, c: IdTokenContent, hash: TokenHash) {
    (c.code.Some? ==> hash(p.alg, c.code.value).Some?)
    && (c.accessToken.Some? ==> hash(p.alg, c.accessToken.value).Some?)
  }

  function OwnClaims(p: Signer, c: IdTokenContent, hash: TokenHash): map<string, Json> {
    TextClaim("nonce", c.nonce) + TextClaim("acr", c.acr) + map["auth_time" := Number(c.authTime as real, false)]
    + TextClaim("c_hash", HashOf(hash, p.alg, c.code)) + TextClaim("at_hash", HashOf(hash, p.alg, c.accessToken))
  }

  function Released(claims: map<string, Json>): map<string, Json> {
    map k | k in claims && !IsReserved(k) :: claims[k]
  }

  function Built(p: Signer, c: IdTokenContent, now: nat, hash: TokenHash): Token {
    Token(p.alg, p.kid, p.key,
          TokenClaims(Some(p.issuer), Some(c.sub), Some(Single(c.clientId)), Some(now as real),
                      Some((now + p.ttl) as real), None,
                      OwnClaims(p, c, hash) + Released(c.claims)))
  }

  method CollectOwn(p: Signer, c: IdTokenContent, hash: TokenHash) returns (r: Option<map<string, Json>>)
    ensures r == if Hashable(p, c, hash) then Some(OwnClaims(p, c, hash)) else None
  {
    var extra: map<string, Json> := map[];
    if c.nonce.Some? {
      extra := extra["nonce" := Str(c.nonce.value)];
    }
    ghost var first := TextClaim("nonce", c.nonce);
    assert extra == first;
    if c.acr.Some? {
      extra := extra["acr" := Str(c.acr.value)];
    }
    ghost var second := TextClaim("acr", c.acr);
    assert extra == first + second;
    extra := extra["auth_time" := Number(c.authTime as real, false)];
    ghost var timed := first + second + map["auth_time" := Number(c.authTime as real, false)];
    assert extra == timed;
    if c.code.Some? {
      var h := hash(p.alg, c.code.value);
      if h.None? {
        return None;
      }
      extra := extra["c_hash" := Str(h.value)];
    }
    ghost var coded := timed + TextClaim("c_hash", HashOf(hash, p.alg, c.code));
    assert extra == coded;
    if c.accessToken.Some? {
      var h := hash(p.alg, c.accessToken.value);
      if h.None? {
        return None;
      }
      extra := extra["at_hash" := Str(h.value)];
    }
    assert extra == coded + TextClaim("at_hash", HashOf(hash, p.alg, c.accessToken));
    assert extra == OwnClaims(p, c, hash);
    return Some(extra);
  }

  method AddReleased(own: map<string, Json>, claims: map<string, Json>, order: seq<string>)
    returns (extra: map<string, Json>)
    requires forall k :: k in claims <==> k in order
    ensures extra == own + Released(claims)
  {
    extra := own;
    for i := 0 to |order|
      invariant forall k :: Get(extra, k) == if k in order[..i] && !IsReserved(k) then Get(claims, k) else Get(own, k)
    {
      var k := order[i];
      assert order[..i + 1] == order[..i] + [k];
      if IsReserved(k) {
        continue;
      }
      extra := extra[k := claims[k]];
    }
    assert order[..|order|] == order;
    forall k ensures Get(extra, k) == Get(own + Released(claims), k) {
      assert Get(extra, k) == if k in order && !IsReserved(k) then Get(claims, k) else Get(own, k);
    }
    SameGets(extra, own + Released(claims));
  }

  /** Claims are inserted one by one; released claims in the order of `order`. */
  method BuildIdToken(p: Signer, c: IdTokenContent, order: seq<string>, now: nat, hash: TokenHash)
    returns (r: Option<Token>)
    requires forall k :: k in c.claims <==> k in order
    ensures r == if Hashable(p, c, hash) then Some(Built(p, c, now, hash)) else None
  {
    var own := CollectOwn(p, c, hash);
    if own.None? {
      return None;
    }
    var extra := AddReleased(own.value, c.claims, order);
    return Some(Token(p.alg, p.kid, p.key,
                      TokenClaims(Some(p.issuer), Some(c.sub), Some(Single(c.clientId)), Some(now as real),
                                  Some((now + p.ttl) as real), None, extra)));
  }

  /** What the token says under each name: the provider's own claims are never shadowed, no registered
      name appears twice, and other released claims are there unchanged. */
  lemma OwnClaimsStand(p: Signer, c: IdTokenContent, now: nat, hash: TokenHash)
    ensures var extra := Built(p, c, now, hash).claims.extra;
            && Get(extra, "nonce") == AsText(c.nonce) && Get(extra, "acr") == AsText(c.acr)
            && Get(extra, "auth_time") == Some(Number(c.authTime as real, false))
            && Get(extra, "c_hash") == AsText(HashOf(hash, p.alg, c.code))
            && Get(extra, "at_hash") == AsText(HashOf(hash, p.alg, c.accessToken))
            && "azp" !in extra
  {
    OwnLookups(p, c, hash);
    NotReleased(c.claims);
    if IsOwn("azp") { OwnIsNotTyped("azp"); }
  }

  lemma NotReleased(claims: map<string, Json>)
    ensures forall k :: k in Released(claims) ==> !IsReserved(k)
    ensures IsReserved("nonce") && IsReserved("acr") && IsReserved("auth_time") && IsReserved("c_hash")
            && IsReserved("at_hash") && IsReserved("azp")
  {
  }

  function AsText(v: Option<string>): Option<Json> { if v.Some? then Some(Str(v.value)) else None }

  lemma Merged(a: (string, Option<string>), b: (string, Option<string>), t: (string, Json), d: (string, Option<string>),
               e: (string, Option<string>))
    requires a.0 != b.0 && a.0 != t.0 && a.0 != d.0 && a.0 != e.0 && b.0 != t.0 && b.0 != d.0 && b.0 != e.0
    requires t.0 != d.0 && t.0 != e.0 && d.0 != e.0
    ensures var m := TextClaim(a.0, a.1) + TextClaim(b.0, b.1) + map[t.0 := t.1] + TextClaim(d.0, d.1)
            + TextClaim(e.0, e.1);
            && Get(m, a.0) == AsText(a.1) && Get(m, b.0) == AsText(b.1) && Get(m, t.0) == Some(t.1)
            && Get(m, d.0) == AsText(d.1) && Get(m, e.0) == AsText(e.1)
            && forall k :: k in m ==> k == a.0 || k == b.0 || k == t.0 || k == d.0 || k == e.0
  {
  }

  predicate IsOwn(k: string) { k == "nonce" || k == "acr" || k == "auth_time" || k == "c_hash" || k == "at_hash" }

  predicate IsTyped(k: string) {
    k == "iss" || k == "sub" || k == "aud" || k == "iat" || k == "exp" || k == "nbf" || k == "jti"
  }

  lemma OwnIsNotTyped(k: string)
    requires IsOwn(k)
    ensures !IsTyped(k) && IsReserved(k) && k != "azp"
  {
  }

  lemma OwnLookups(p: Signer, c: IdTokenContent, hash: TokenHash)
    ensures var own := OwnClaims(p, c, hash);
            && Get(own, "nonce") == AsText(c.nonce) && Get(own, "acr") == AsText(c.acr)
            && Get(own, "auth_time") == Some(Number(c.authTime as real, false))
            && Get(own, "c_hash") == AsText(HashOf(hash, p.alg, c.code))
            && Get(own, "at_hash") == AsText(HashOf(hash, p.alg, c.accessToken))
            && forall k :: k in own ==> IsOwn(k)
  {
    var n, a, t, ch, ah := "nonce", "acr", "auth_time", "c_hash", "at_hash";
    assert |n| == 5 && |a| == 3 && |t| == 9 && |ch| == 6 && |ah| == 7;
    Merged((n, c.nonce), (a, c.acr), (t, Number(c.authTime as real, false)),
           (ch, HashOf(hash, p.alg, c.code)), (ah, HashOf(hash, p.alg, c.accessToken)));
  }

  lemma NoDuplicateNames(p: Signer, c: IdTokenContent, now: nat, hash: TokenHash, k: string)
    ensures var extra := Built(p, c, now, hash).claims.extra;
            (IsTyped(k) ==> k !in extra) && (!IsReserved(k) ==> Get(extra, k) == Get(c.claims, k))
  {
    OwnLookups(p, c, hash);
    if IsOwn(k) { OwnIsNotTyped(k); }
  }

  // ---- The relying party ------------------------------------------------------------------

  datatype Jwk = Jwk(kid: Option<string>, key: string)

  datatype Options = Options(
    leeway: Option<nat>, maxAge: Option<nat>, acrValues: Option<seq<string>>,
    accessToken: Option<string>, requireAtHash: bool, code: Option<string>, requireCHash: bool, allowUnchecked: bool)

  datatype Expectation = Expectation(
    jwks: seq<Jwk>, issuer: string, clientId: string, nonce: Option<string>, algs: seq<string>, trusted: seq<string>,
    options: Options)

  const DEFAULT_LEEWAY := 60
  const MAX_LEEWAY := 300

  function Leeway(o: Options): nat { if o.leeway.Some? then o.leeway.value else DEFAULT_LEEWAY }

  /** Option combinations that are not configuration errors. */
  predicate Configured(x: Expectation) {
    var o := x.options;
    && x.algs != []
    && (o.requireAtHash ==> o.accessToken.Some?) && (o.requireCHash ==> o.code.Some?)
    && (o.leeway.Some? ==> o.leeway.value <= MAX_LEEWAY)
    && o.acrValues != Some([])
  }

  /** A set of several keys needs a kid, and a kid must name a key. */
  predicate KidAccepted(jwks: seq<Jwk>, kid: Option<string>) {
    (|jwks| > 1 ==> kid.Some?) && (kid.Some? ==> exists i :: 0 <= i < |jwks| && jwks[i].kid == kid)
  }

  predicate SignatureOk(jwks: seq<Jwk>, t: Token) {
    exists i :: 0 <= i < |jwks| && jwks[i].key == t.signer && (t.kid.Some? ==> jwks[i].kid == t.kid)
  }

  predicate InWindow(c: TokenClaims, now: nat, leeway: nat) {
    && c.exp.Some? && now as real < c.exp.value + leeway as real
    && c.iat.Some? && c.iat.value <= (now + leeway) as real
    && (c.nbf.Some? ==> c.nbf.value <= (now + leeway) as real)
  }

  predicate AudienceHas(aud: Audience, client: string) {
    match aud
    case Single(a) => a == client
    case Multiple(names) => client in names
  }

  /** The JWT library's verdict. */
  predicate JwtOk(x: Expectation, t: Token, now: nat) {
    && t.alg in x.algs && SignatureOk(x.jwks, t)
    && t.claims.iss == Some(x.issuer)
    && t.claims.aud.Some? && AudienceHas(t.claims.aud.value, x.clientId)
    && InWindow(t.claims, now, Leeway(x.options))
  }

  ghost predicate AudiencesTrusted(x: Expectation, c: TokenClaims) {
    c.aud.Some? && c.aud.value.Multiple? ==>
      var names := c.aud.value.clients;
      && (forall i, j :: 0 <= i < j < |names| ==> names[i] != names[j])
      && (forall i :: 0 <= i < |names| ==> names[i] == x.clientId || names[i] in x.trusted)
      && (|names| > 1 ==> Get(c.extra, "azp") == Some(Str(x.clientId)))
  }

  /** `auth_time` as whole seconds; None unless a non-negative number. */
  function AuthTimeSecs(v: Json): Option<nat> {
    if v.Number? && v.number >= 0.0 then Some(if v.number.Floor > U64_MAX then U64_MAX else v.number.Floor) else None
  }

  predicate AgeOk(x: Expectation, c: TokenClaims, now: nat) {
    x.options.maxAge.Some? ==>
      && "auth_time" in c.extra && AuthTimeSecs(c.extra["auth_time"]).Some?
      && var at := AuthTimeSecs(c.extra["auth_time"]).value;
      now <= SatAdd(at, x.options.maxAge.value) && at <= SatAdd(now, Leeway(x.options))
  }

  predicate AcrOk(x: Expectation, c: TokenClaims) {
    x.options.acrValues.Some? ==>
      "acr" in c.extra && c.extra["acr"].Str? && c.extra["acr"].text in x.options.acrValues.value
  }

  predicate HashOk(extra: map<string, Json>, name: string, alg: string, value: Option<string>, required: bool,
                   allowUnchecked: bool, hash: TokenHash) {
    && (required ==> name in extra)
    && (value.None? && name in extra ==> allowUnchecked)
    && (value.Some? && name in extra ==> extra[name].Str? && hash(alg, value.value) == Some(extra[name].text))
  }

  ghost predicate Accepts(x: Expectation, t: Token, now: nat, hash: TokenHash) {
    var c := t.claims;
    && Configured(x) && KidAccepted(x.jwks, t.kid) && JwtOk(x, t, now)
    && c.sub.Some? && c.sub.value != ""
    && AudiencesTrusted(x, c)
    && ("azp" in c.extra ==> c.extra["azp"] == Str(x.clientId))
    && (x.nonce.Some? ==> Get(c.extra, "nonce") == Some(Str(x.nonce.value)))
    && AgeOk(x, c, now) && AcrOk(x, c)
    && HashOk(c.extra, "at_hash", t.alg, x.options.accessToken, x.options.requireAtHash, x.options.allowUnchecked, hash)
    && HashOk(c.extra, "c_hash", t.alg, x.options.code, x.options.requireCHash, x.options.allowUnchecked, hash)
  }

  /** The audience loop, with its set of audiences seen. */
  method CheckAudiences(x: Expectation, c: TokenClaims) returns (ok: bool)
    ensures ok <==> AudiencesTrusted(x, c)
  {
    if c.aud.None? || c.aud.value.Single? {
      return true;
    }
    var names := c.aud.value.clients;
    var seen: set<string> := {};
    for k := 0 to |names|
      invariant seen == set a | a in names[..k]
      invariant forall i, j :: 0 <= i < j < k ==> names[i] != names[j]
      invariant forall i :: 0 <= i < k ==> names[i] == x.clientId || names[i] in x.trusted
    {
      if names[k] in seen {
        var i :| 0 <= i < k && names[i] == names[k];
        return false;
      }
      seen := seen + {names[k]};
      assert names[..k + 1] == names[..k] + [names[k]];
      if names[k] != x.clientId && names[k] !in x.trusted {
        return false;
      }
    }
    return |names| > 1 ==> Get(c.extra, "azp") == Some(Str(x.clientId));
  }

  method VerifyIdTokenWith(x: Expectation, t: Token, now: nat, hash: TokenHash) returns (r: Option<TokenClaims>)
    ensures r == if Accepts(x, t, now, hash) then Some(t.claims) else None
  {
    if !Configured(x) || !KidAccepted(x.jwks, t.kid) || !JwtOk(x, t, now) {
      return None;
    }
    var c := t.claims;
    if c.sub.None? || c.sub.value == "" {
      return None;
    }
    var trusted := CheckAudiences(x, c);
    if !trusted {
      return None;
    }
    if "azp" in c.extra && c.extra["azp"] != Str(x.clientId) {
      return None;
    }
    if x.nonce.Some? && Get(c.extra, "nonce") != Some(Str(x.nonce.value)) {
      return None;
    }
    if !AgeOk(x, c, now) || !AcrOk(x, c) {
      return None;
    }
    if !HashOk(c.extra, "at_hash", t.alg, x.options.accessToken, x.options.requireAtHash, x.options.allowUnchecked,
               hash) {
      return None;
    }
    if !HashOk(c.extra, "c_hash", t.alg, x.options.code, x.options.requireCHash, x.options.allowUnchecked, hash) {
      return None;
    }
    return Some(c);
  }

  // ---- What acceptance means for any token ----------------------------------------------

  /** Options that make sense: some algorithm, a bounded leeway, a value for every required hash. */
  ghost predicate Sensible(x: Expectation) {
    && x.algs != [] && (x.options.leeway.Some? ==> x.options.leeway.value <= 300)
    && (x.options.requireAtHash ==> x.options.accessToken.Some?) && (x.options.requireCHash ==> x.options.code.Some?)
    && (x.options.acrValues.Some? ==> x.options.acrValues.value != [])
  }

  /** Some key of the set made the signature, the one the token names if it names one; in a set of several it
      must. */
  ghost predicate SignedBySet(x: Expectation, t: Token) {
    && t.alg in x.algs && (|x.jwks| > 1 ==> t.kid.Some?)
    && exists k :: k in x.jwks && k.key == t.signer && (t.kid.Some? ==> k.kid == t.kid)
  }

  /** Issued by the expected issuer, about someone, for this client among distinct trusted audiences; an
      authorized party, required with several audiences, is this client. */
  ghost predicate AddressedTo(x: Expectation, c: TokenClaims) {
    && c.iss == Some(x.issuer) && c.sub.Some? && c.sub.value != ""
    && ("azp" in c.extra ==> c.extra["azp"] == Str(x.clientId))
    && c.aud.Some?
    && match c.aud.value
       case Single(client) => client == x.clientId
       case Multiple(clients) =>
         && x.clientId in clients
         && (forall i, j :: 0 <= i < j < |clients| ==> clients[i] != clients[j])
         && (forall a :: a in clients ==> a == x.clientId || a in x.trusted)
         && (|clients| > 1 ==> "azp" in c.extra)
  }

  /** Before expiry, not issued in the future, not before its start, each within the leeway. */
  ghost predicate Live(x: Expectation, c: TokenClaims, now: nat) {
    var leeway := (if x.options.leeway.Some? then x.options.leeway.value else 60) as real;
    && c.exp.Some? && now as real - leeway < c.exp.value
    && c.iat.Some? && c.iat.value - leeway <= now as real
    && (c.nbf.Some? ==> c.nbf.value - leeway <= now as real)
  }

  /** The nonce sent, an authentication recent enough and of an accepted class. */
  ghost predicate Fresh(x: Expectation, c: TokenClaims, now: nat) {
    && (x.nonce.Some? ==> "nonce" in c.extra && c.extra["nonce"] == Str(x.nonce.value))
    && (x.options.acrValues.Some? ==>
          exists a :: a in x.options.acrValues.value && "acr" in c.extra && c.extra["acr"] == Str(a))
    && (x.options.maxAge.Some? ==> AgeOk(x, c, now))
  }

  /** A hash in the token is the hash of the value held; it must be there if required, and a value must be
      held for it unless unchecked hashes are allowed. */
  ghost predicate HashMatches(c: TokenClaims, name: string, alg: string, held: Option<string>, required: bool,
                              allowUnchecked: bool, hash: TokenHash) {
    if name !in c.extra then !required
    else if held.None? then allowUnchecked
    else exists h :: hash(alg, held.value) == Some(h) && c.extra[name] == Str(h)
  }

  lemma SignedExactly(x: Expectation, t: Token)
    ensures SignedBySet(x, t) <==> t.alg in x.algs && KidAccepted(x.jwks, t.kid) && SignatureOk(x.jwks, t)
  {
    if k :| k in x.jwks && k.key == t.signer && (t.kid.Some? ==> k.kid == t.kid) {
      var i :| 0 <= i < |x.jwks| && x.jwks[i] == k;
      assert x.jwks[i].key == t.signer;
    }
    if i :| 0 <= i < |x.jwks| && x.jwks[i].key == t.signer && (t.kid.Some? ==> x.jwks[i].kid == t.kid) {
      assert x.jwks[i] in x.jwks;
    }
  }

  lemma AddressedExactly(x: Expectation, c: TokenClaims)
    ensures AddressedTo(x, c) <==>
            && c.iss == Some(x.issuer) && c.sub.Some? && c.sub.value != ""
            && c.aud.Some? && AudienceHas(c.aud.value, x.clientId)
            && AudiencesTrusted(x, c) && ("azp" in c.extra ==> c.extra["azp"] == Str(x.clientId))
  {
    if c.aud.Some? && c.aud.value.Multiple? {
      var clients := c.aud.value.clients;
      assert (forall i :: 0 <= i < |clients| ==> clients[i] == x.clientId || clients[i] in x.trusted) <==>
             (forall a :: a in clients ==> a == x.clientId || a in x.trusted) by {
        assert forall i :: 0 <= i < |clients| ==> clients[i] in clients;
      }
    }
  }

  lemma HashExactly(c: TokenClaims, name: string, alg: string, held: Option<string>, required: bool,
                    allowUnchecked: bool, hash: TokenHash)
    requires required ==> held.Some?
    ensures HashMatches(c, name, alg, held, required, allowUnchecked, hash) <==>
            HashOk(c.extra, name, alg, held, required, allowUnchecked, hash)
  {
  }

  lemma FreshExactly(x: Expectation, c: TokenClaims, now: nat)
    ensures Fresh(x, c, now) <==>
            && (x.nonce.Some? ==> Get(c.extra, "nonce") == Some(Str(x.nonce.value))) && AgeOk(x, c, now) && AcrOk(x, c)
  {
  }

  lemma LiveExactly(x: Expectation, c: TokenClaims, now: nat)
    ensures Live(x, c, now) <==> InWindow(c, now, Leeway(x.options))
  {
  }

  /** Any token at all is accepted exactly under these conditions. */
  lemma AcceptsAnyExactly(x: Expectation, t: Token, now: nat, hash: TokenHash)
    ensures Accepts(x, t, now, hash) <==>
            && Sensible(x) && SignedBySet(x, t) && AddressedTo(x, t.claims) && Live(x, t.claims, now)
            && Fresh(x, t.claims, now)
            && HashMatches(t.claims, "at_hash", t.alg, x.options.accessToken, x.options.requireAtHash,
                           x.options.allowUnchecked, hash)
            && HashMatches(t.claims, "c_hash", t.alg, x.options.code, x.options.requireCHash,
                           x.options.allowUnchecked, hash)
  {
    SignedExactly(x, t);
    AddressedExactly(x, t.claims);
    LiveExactly(x, t.claims, now);
    FreshExactly(x, t.claims, now);
    if Sensible(x) {
      HashExactly(t.claims, "at_hash", t.alg, x.options.accessToken, x.options.requireAtHash, x.options.allowUnchecked,
                  hash);
      HashExactly(t.claims, "c_hash", t.alg, x.options.code, x.options.requireCHash, x.options.allowUnchecked, hash);
    }
  }

  /** The age check: an authentication time that is a non-negative number, no older than allowed in whole
      seconds and not in the future beyond the leeway. */
  lemma AgeExactly(x: Expectation, c: TokenClaims, now: nat)
    requires x.options.maxAge.Some? && now < U64_MAX
    ensures AgeOk(x, c, now) <==>
            && "auth_time" in c.extra && c.extra["auth_time"].Number? && c.extra["auth_time"].number >= 0.0
            && now as real < c.extra["auth_time"].number.Floor as real + x.options.maxAge.value as real + 1.0
            && (c.extra["auth_time"].number.Floor <= now + Leeway(x.options) || now + Leeway(x.options) >= U64_MAX)
  {
  }

  /** With a set that holds one party's keys, only that party's tokens pass, and only those for this client. */
  lemma ForeignRefused(x: Expectation, t: Token, now: nat, hash: TokenHash, keys: set<string>)
    requires (forall k :: k in x.jwks ==> k.key in keys) && Accepts(x, t, now, hash)
    ensures t.signer in keys && t.claims.iss == Some(x.issuer) && t.alg in x.algs
    ensures t.claims.aud == Some(Single(x.clientId))
            || (t.claims.aud.Some? && t.claims.aud.value.Multiple? && x.clientId in t.claims.aud.value.clients)
  {
    AcceptsAnyExactly(x, t, now, hash);
  }

  // ---- Agreement ------------------------------------------------------------------------

  ghost predicate Injective(hash: TokenHash, alg: string) {
    forall a, b :: hash(alg, a).Some? && hash(alg, a) == hash(alg, b) ==> a == b
  }

  /** A party that expects tokens of this provider for this client. */
  ghost predicate Matching(x: Expectation, p: Signer, c: IdTokenContent) {
    && Configured(x) && x.issuer == p.issuer && x.clientId == c.clientId && p.alg in x.algs
    && KidAccepted(x.jwks, p.kid)
    && exists i :: 0 <= i < |x.jwks| && x.jwks[i] == Jwk(if p.kid.Some? then p.kid else x.jwks[i].kid, p.key)
  }

  /** A value bound into the token by its hash, against the value the verifier holds. */
  predicate Binds(minted: Option<string>, held: Option<string>, required: bool, allowUnchecked: bool) {
    if minted.None? then !required
    else if held.None? then allowUnchecked
    else held == minted
  }

  predicate FreshEnough(x: Expectation, authTime: nat, now: nat) {
    x.options.maxAge.Some? ==>
      now <= SatAdd(authTime, x.options.maxAge.value) && authTime <= SatAdd(now, Leeway(x.options))
  }

  lemma HashBinds(extra: map<string, Json>, name: string, alg: string, minted: Option<string>, held: Option<string>,
                  required: bool, allowUnchecked: bool, hash: TokenHash)
    requires Injective(hash, alg) && (minted.Some? ==> hash(alg, minted.value).Some?)
    requires Get(extra, name) == AsText(HashOf(hash, alg, minted))
    requires required ==> held.Some?
    ensures HashOk(extra, name, alg, held, required, allowUnchecked, hash) <==>
            Binds(minted, held, required, allowUnchecked)
  {
  }

  lemma BuiltJwtOk(x: Expectation, p: Signer, c: IdTokenContent, issuedAt: nat, now: nat, hash: TokenHash)
    requires Matching(x, p, c)
    ensures var t := Built(p, c, issuedAt, hash);
            JwtOk(x, t, now) <==> now < issuedAt + p.ttl + Leeway(x.options) && issuedAt <= now + Leeway(x.options)
  {
  }

  lemma BuiltAge(x: Expectation, c: IdTokenContent, extra: map<string, Json>, now: nat)
    requires Get(extra, "auth_time") == Some(Number(c.authTime as real, false)) && c.authTime <= U64_MAX
    ensures (x.options.maxAge.Some? ==>
               && "auth_time" in extra && AuthTimeSecs(extra["auth_time"]).Some?
               && now <= SatAdd(AuthTimeSecs(extra["auth_time"]).value, x.options.maxAge.value)
               && AuthTimeSecs(extra["auth_time"]).value <= SatAdd(now, Leeway(x.options)))
            <==> FreshEnough(x, c.authTime, now)
  {
    assert (c.authTime as real).Floor == c.authTime;
  }

  /** A minted ID token is accepted exactly when the clock is in its window and nonce, session age,
      authentication class, access token and code are the ones the verifier holds. */
  lemma AcceptedExactly(x: Expectation, p: Signer, c: IdTokenContent, issuedAt: nat, now: nat, hash: TokenHash)
    requires Matching(x, p, c) && Hashable(p, c, hash) && Injective(hash, p.alg)
    requires c.sub != "" && c.authTime <= U64_MAX
    ensures Accepts(x, Built(p, c, issuedAt, hash), now, hash) <==>
            && now < issuedAt + p.ttl + Leeway(x.options) && issuedAt <= now + Leeway(x.options)
            && (x.nonce.Some? ==> c.nonce == x.nonce)
            && FreshEnough(x, c.authTime, now)
            && (x.options.acrValues.Some? ==> c.acr.Some? && c.acr.value in x.options.acrValues.value)
            && Binds(c.accessToken, x.options.accessToken, x.options.requireAtHash, x.options.allowUnchecked)
            && Binds(c.code, x.options.code, x.options.requireCHash, x.options.allowUnchecked)
  {
    var t := Built(p, c, issuedAt, hash);
    var extra := t.claims.extra;
    OwnClaimsStand(p, c, issuedAt, hash);
    BuiltJwtOk(x, p, c, issuedAt, now, hash);
    BuiltAge(x, c, extra, now);
    HashBinds(extra, "at_hash", p.alg, c.accessToken, x.options.accessToken, x.options.requireAtHash,
              x.options.allowUnchecked, hash);
    HashBinds(extra, "c_hash", p.alg, c.code, x.options.code, x.options.requireCHash, x.options.allowUnchecked, hash);
  }

  /** Another nonce, access token or code is refused, at any time and under any options. */
  lemma MismatchRefused(x: Expectation, p: Signer, c: IdTokenContent, issuedAt: nat, now: nat, hash: TokenHash)
    requires Matching(x, p, c) && Hashable(p, c, hash) && Injective(hash, p.alg)
    requires c.sub != "" && c.authTime <= U64_MAX
    requires || (x.nonce.Some? && c.nonce != x.nonce)
             || (c.accessToken.Some? && x.options.accessToken.Some? && c.accessToken != x.options.accessToken)
             || (c.code.Some? && x.options.code.Some? && c.code != x.options.code)
    ensures !Accepts(x, Built(p, c, issuedAt, hash), now, hash)
  {
    AcceptedExactly(x, p, c, issuedAt, now, hash);
  }
}
