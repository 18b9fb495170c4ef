/** Proof Key for Code Exchange: verifier and challenge syntax, and the comparison
    that takes the same time wherever the inputs differ. */
module Pkce {
  import opened Text

  predicate IsUnreserved(c: char) {
    || 'a' <= c <= 'z' || 'A' <= c <= 'Z' || IsDigit(c)
    || c == '-' || c == '.' || c == '_' || c == '~'
  }

  predicate IsValidVerifier(v: string) {
    43 <= |v| <= 128 && forall i :: 0 <= i < |v| ==> IsUnreserved(v[i])
  }

  /** Value of a base64url character, 64 for any other character. */
  function Base64UrlValue(c: char): (n: nat)
    ensures n <= 64
  {
    if 'A' <= c <= 'Z' then c as int - 'A' as int
    else if 'a' <= c <= 'z' then c as int - 'a' as int + 26
    else if IsDigit(c) then c as int - '0' as int + 52
    else if c == '-' then 62
    else if c == '_' then 63
    else 64
  }

  /** 32 bytes take 43 base64url characters, of which the last holds four bits: its two low bits
      must be zero in the canonical spelling. */
  predicate IsValidS256Challenge(s: string) {
    && |s| == 43
    && (forall i :: 0 <= i < |s| ==> Base64UrlValue(s[i]) < 64)
    && Base64UrlValue(s[42]) % 4 == 0
  }

  /** `digest` is base64url(SHA-256(text)). */
  predicate Verify(digest: string -> string, verifier: string, challenge: string, method_: Option<string>) {
    IsValidVerifier(verifier) &&
    match method_
    case None => verifier == challenge
    case Some(m) =>
      if m == "S256" then IsValidS256Challenge(challenge) && digest(verifier) == challenge
      else m == "plain" && verifier == challenge
  }

  /** By method: the S256 value of the verifier, the verifier itself for `plain` or no method, and nothing for
      any other method. */
  lemma VerifyByMethod(digest: string -> string, verifier: string, challenge: string, method_: Option<string>)
    ensures !IsValidVerifier(verifier) ==> !Verify(digest, verifier, challenge, method_)
    ensures IsValidVerifier(verifier) && method_ == Some("S256") ==>
              (Verify(digest, verifier, challenge, method_) <==>
               IsValidS256Challenge(challenge) && digest(verifier) == challenge)
    ensures IsValidVerifier(verifier) && (method_ == None || method_ == Some("plain")) ==>
              (Verify(digest, verifier, challenge, method_) <==> verifier == challenge)
    ensures method_ != None && method_ != Some("plain") && method_ != Some("S256") ==>
              !Verify(digest, verifier, challenge, method_)
  {
    assert |"S256"| != |"plain"|;
  }

  /** Or-ing the xor of every byte pair leaves zero exactly when the inputs are equal. */
  method ConstantTimeEq(a: seq<bv8>, b: seq<bv8>) returns (same: bool)
    ensures same <==> a == b
  {
    if |a| != |b| {
      return false;
    }
    var diff: bv8 := 0;
    for i := 0 to |a|
      invariant diff == 0 <==> a[..i] == b[..i]
    {
      assert a[..i + 1] == a[..i] + [a[i]] && b[..i + 1] == b[..i] + [b[i]];
      XorOr(diff, a[i], b[i]);
      diff := diff | (a[i] ^ b[i]);
    }
    assert a[..|a|] == a && b[..|b|] == b;
    return diff == 0;
  }

  lemma XorOr(d: bv8, x: bv8, y: bv8)
    ensures d | (x ^ y) == 0 <==> d == 0 && x == y
  {
  }

  /** The check as it runs, on UTF-8 bytes, decides `Verify`. */
  method CheckVerifier(digest: string -> string, utf8: string -> seq<bv8>, verifier: string, challenge: string,
                       method_: Option<string>)
    returns (ok: bool)
    requires forall s, t :: utf8(s) == utf8(t) ==> s == t
    ensures ok <==> Verify(digest, verifier, challenge, method_)
  {
    if !IsValidVerifier(verifier) {
      return false;
    }
    var m := if method_.None? then "plain" else method_.value;
    if m == "S256" && IsValidS256Challenge(challenge) {
      ok := ConstantTimeEq(utf8(digest(verifier)), utf8(challenge));
    } else if m == "plain" {
      ok := ConstantTimeEq(utf8(verifier), utf8(challenge));
    } else {
      ok := false;
    }
  }
}
