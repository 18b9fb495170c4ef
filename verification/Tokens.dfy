/** Sealed authorization codes, access tokens and refresh tokens. Sealing is idealised: an envelope
    is bound to the key that sealed it, its type tag and its payload. */
module Tokens {
  import opened Text
  import opened Json

  datatype AuthCode = AuthCode(
    clientId: string, redirectUri: string, scope: string, sub: string, nonce: Option<string>,
    challenge: Option<string>, challengeMethod: Option<string>, claims: map<string, Json>,
    authTime: nat, exp: nat, acr: Option<string>)

  datatype AccessToken = AccessToken(
    clientId: string, sub: string, scope: string, claims: map<string, Json>, exp: nat, cnfJkt: Option<string>)

  datatype RefreshToken = RefreshToken(
    clientId: string, sub: string, scope: string, nonce: Option<string>, claims: map<string, Json>,
    authTime: nat, exp: nat, acr: Option<string>, cnfJkt: Option<string>)

  /** The constructor is the type tag sealed beside the payload. */
  datatype Payload = Code(code: AuthCode) | Access(access: AccessToken) | Refresh(refresh: RefreshToken)

  datatype Envelope = Envelope(key: string, payload: Payload)

  /** `keys[0]` seals; every key is tried on open. A key stands for the secret it is derived from. */
  datatype TokenCodec = TokenCodec(keys: seq<string>)

  ghost predicate Valid(codec: TokenCodec) { codec.keys != [] }

  function Seal(codec: TokenCodec, payload: Payload): Envelope
    requires Valid(codec)
  {
    Envelope(codec.keys[0], payload)
  }

  /** What authenticated decryption yields: the payload when some codec key sealed it. */
  function Opened(codec: TokenCodec, e: Envelope): Option<Payload> {
    if e.key in codec.keys then Some(e.payload) else None
  }

  /** Tries the keys in order and stops at the first that decrypts. */
  method Open(codec: TokenCodec, e: Envelope) returns (payload: Option<Payload>)
    ensures payload == Opened(codec, e)
  {
    for i := 0 to |codec.keys|
      invariant e.key !in codec.keys[..i]
    {
      if codec.keys[i] == e.key {
        return Some(e.payload);
      }
    }
    return None;
  }

  /** Registers decryption-only secrets; empty ones are skipped. */
  method WithPreviousSecrets(codec: TokenCodec, secrets: seq<string>) returns (r: TokenCodec)
    requires Valid(codec)
    ensures Valid(r) && r.keys[0] == codec.keys[0]
    ensures forall k :: k in r.keys <==> k in codec.keys || (k in secrets && k != "")
  {
    var keys := codec.keys;
    for i := 0 to |secrets|
      invariant keys != [] && keys[0] == codec.keys[0]
      invariant forall k :: k in keys <==> k in codec.keys || (k in secrets[..i] && k != "")
    {
      assert secrets[..i + 1] == secrets[..i] + [secrets[i]];
      if secrets[i] != "" {
        keys := keys + [secrets[i]];
      }
    }
    assert secrets[..|secrets|] == secrets;
    r := TokenCodec(keys);
  }

  function OpenCode(codec: TokenCodec, e: Envelope, now: nat): Option<AuthCode> {
    var p := Opened(codec, e);
    if p.Some? && p.value.Code? && now < p.value.code.exp then Some(p.value.code) else None
  }

  function OpenAccess(codec: TokenCodec, e: Envelope, now: nat): Option<AccessToken> {
    var p := Opened(codec, e);
    if p.Some? && p.value.Access? && now < p.value.access.exp then Some(p.value.access) else None
  }

  function OpenRefresh(codec: TokenCodec, e: Envelope, now: nat): Option<RefreshToken> {
    var p := Opened(codec, e);
    if p.Some? && p.value.Refresh? && now < p.value.refresh.exp then Some(p.value.refresh) else None
  }

  function Exp(p: Payload): nat {
    match p
    case Code(c) => c.exp
    case Access(a) => a.exp
    case Refresh(r) => r.exp
  }

  /** A token sealed before a rotation opens afterwards exactly until its own expiry, as its own
      type and no other, if its secret was kept; and not at all if it was dropped. */
  method RotateAndOpen(former: TokenCodec, primary: string, kept: seq<string>, p: Payload, now: nat)
    returns (code: Option<AuthCode>, access: Option<AccessToken>, refresh: Option<RefreshToken>)
    requires Valid(former)
    ensures var opens := (former.keys[0] == primary || (former.keys[0] in kept && former.keys[0] != ""))
            && now < Exp(p);
            && (code.Some? <==> opens && p.Code?) && (access.Some? <==> opens && p.Access?)
            && (refresh.Some? <==> opens && p.Refresh?)
            && (code.Some? ==> p == Code(code.value)) && (access.Some? ==> p == Access(access.value))
            && (refresh.Some? ==> p == Refresh(refresh.value))
  {
    var e := Seal(former, p);
    var rotated := WithPreviousSecrets(TokenCodec([primary]), kept);
    code, access, refresh := OpenCode(rotated, e, now), OpenAccess(rotated, e, now), OpenRefresh(rotated, e, now);
  }
}
