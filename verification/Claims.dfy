/** Which released claims a scope carries. */
module Claims {
  import opened Text
  import opened Json

  predicate IsProfileClaim(name: string) {
    || name == "name" || name == "family_name" || name == "given_name" || name == "middle_name"
    || name == "nickname" || name == "preferred_username" || name == "profile" || name == "picture"
    || name == "website" || name == "gender" || name == "birthdate" || name == "zoneinfo"
    || name == "locale" || name == "updated_at"
  }

  /** Names that only the provider itself writes into an ID token. */
  predicate IsReserved(name: string) {
    || name == "iss" || name == "sub" || name == "aud" || name == "exp" || name == "iat" || name == "nbf"
    || name == "jti" || name == "nonce" || name == "auth_time" || name == "acr" || name == "azp"
    || name == "at_hash" || name == "c_hash"
  }

  /** The scope that defines a standard claim; None for an application's own claims. */
  function DefiningScope(name: string): Option<string> {
    if IsProfileClaim(name) then Some("profile")
    else if name == "email" || name == "email_verified" then Some("email")
    else if name == "address" then Some("address")
    else if name == "phone_number" || name == "phone_number_verified" then Some("phone")
    else None
  }

  predicate AllowedByScope(scope: string, name: string) {
    var required := DefiningScope(name);
    required.None? || required.value in Words(scope)
  }

  function FilterClaims(scope: string, claims: map<string, Json>): (r: map<string, Json>)
    ensures Within(r, claims) && AllAllowed(scope, r)
  {
    map k | k in claims && AllowedByScope(scope, k) :: claims[k]
  }

  /** `a` is part of `b`. */
  ghost predicate Within(a: map<string, Json>, b: map<string, Json>) {
    forall k :: k in a ==> k in b && b[k] == a[k]
  }

  ghost predicate AllAllowed(scope: string, claims: map<string, Json>) {
    forall k :: k in claims ==> AllowedByScope(scope, k)
  }

  /** Claims sealed into what an authorization mints: released claims filtered by scope, overridden
      by the provider's own claims except reserved names. */
  function MintedClaims(scope: string, released: map<string, Json>, extra: map<string, Json>): (r: map<string, Json>)
    ensures AllAllowed(scope, r)
  {
    FilterClaims(scope, released) + map k | k in extra && !IsReserved(k) && AllowedByScope(scope, k) :: extra[k]
  }

  /** Exactly the claims the scope allows are kept, unchanged. */
  lemma FilterClaimsExactly(scope: string, claims: map<string, Json>, k: string)
    ensures Get(FilterClaims(scope, claims), k) == if AllowedByScope(scope, k) then Get(claims, k) else None
  {
  }

  /** A name is minted exactly when the scope allows it and it was released or is a non-reserved extra
      claim; the extra value wins, and a reserved name never comes from the extra claims. */
  lemma MintedClaimsExactly(scope: string, released: map<string, Json>, extra: map<string, Json>, k: string)
    ensures Get(MintedClaims(scope, released, extra), k) ==
            if !AllowedByScope(scope, k) then None
            else if k in extra && !IsReserved(k) then Some(extra[k])
            else Get(released, k)
  {
  }

  const PROFILE_CLAIMS := {
    "name", "family_name", "given_name", "middle_name", "nickname", "preferred_username", "profile", "picture",
    "website", "gender", "birthdate", "zoneinfo", "locale", "updated_at"
  }
  const EMAIL_CLAIMS := {"email", "email_verified"}
  const PHONE_CLAIMS := {"phone_number", "phone_number_verified"}
  const RESERVED := {
    "iss", "sub", "aud", "exp", "iat", "nbf", "jti", "nonce", "auth_time", "acr", "azp", "at_hash", "c_hash"
  }

  lemma ReservedExactly(name: string)
    ensures IsReserved(name) <==> name in RESERVED
  {
  }

  lemma ProfileExactly(name: string)
    ensures IsProfileClaim(name) <==> name in PROFILE_CLAIMS
  {
  }

  /** The table of section 5.4 of OpenID Connect Core 1.0. */
  lemma DefiningExactly(name: string)
    ensures DefiningScope(name) ==
            if name in PROFILE_CLAIMS then Some("profile")
            else if name in EMAIL_CLAIMS then Some("email")
            else if name == "address" then Some("address")
            else if name in PHONE_CLAIMS then Some("phone")
            else None
  {
    ProfileExactly(name);
  }

  /** A standard claim needs its scope, any other claim needs none. */
  lemma AllowedExactly(scope: string, name: string)
    ensures AllowedByScope(scope, name) <==>
            && (name in PROFILE_CLAIMS ==> "profile" in Words(scope))
            && (name in EMAIL_CLAIMS ==> "email" in Words(scope))
            && (name == "address" ==> "address" in Words(scope))
            && (name in PHONE_CLAIMS ==> "phone" in Words(scope))
  {
    var profile, email, phone := PROFILE_CLAIMS, EMAIL_CLAIMS, PHONE_CLAIMS;
    var d := DefiningScope(name);
    assert d == if name in profile then Some("profile") else if name in email then Some("email")
                else if name == "address" then Some("address") else if name in phone then Some("phone") else None by {
      DefiningExactly(name);
    }
    assert profile !! email && profile !! phone && email !! phone && "address" !in profile + email + phone by {
      StandardNamesDiffer();
    }
  }

  lemma StandardNamesDiffer()
    ensures PROFILE_CLAIMS !! EMAIL_CLAIMS && PROFILE_CLAIMS !! PHONE_CLAIMS && EMAIL_CLAIMS !! PHONE_CLAIMS
    ensures "address" !in PROFILE_CLAIMS + EMAIL_CLAIMS + PHONE_CLAIMS
  {
  }
}
