/** Authorization responses as redirects: parameters printed into the query or fragment of the
    registered redirect URI. URIs and locations are UTF-8 bytes. */
module Redirect {
  import opened Text
  import opened Requests
  import opened Utf8
  import opened FormEncoding
  import opened Numerals

  // ---- Reading a URI -----------------------------------------------------------

  function BeforeFragment(uri: Bytes): Bytes { uri[..Find(uri, HASH)] }

  /** The fragment with its hash sign, or nothing. */
  function FragmentSuffix(uri: Bytes): Bytes { uri[Find(uri, HASH)..] }

  function FragmentOf(uri: Bytes): Bytes {
    var f := FragmentSuffix(uri);
    if f == [] then [] else f[1..]
  }

  function BaseOf(uri: Bytes): Bytes {
    var b := BeforeFragment(uri);
    b[..Find(b, QUESTION)]
  }

  function QueryOf(uri: Bytes): Bytes {
    var b := BeforeFragment(uri);
    var q := Find(b, QUESTION);
    if q == |b| then [] else b[q + 1..]
  }

  // ---- Successful responses ------------------------------------------------------

  function Optional(name: string, value: Option<string>): seq<(string, string)> {
    if value.Some? then [(name, value.value)] else []
  }

  /** What one authorization response carries. */
  datatype Answer = Answer(
    idToken: Option<string>, code: Option<string>, accessToken: Option<string>, expiresIn: nat,
    state: Option<string>, iss: Option<string>)

  function AccessParams(m: Answer): seq<(string, string)> {
    if m.accessToken.None? then []
    else
      [("access_token", m.accessToken.value)] + [("token_type", "Bearer")] + [("expires_in", DecimalText(m.expiresIn))]
  }

  function ResponseParams(m: Answer): seq<(string, string)> {
    Optional("id_token", m.idToken) + Optional("code", m.code) + AccessParams(m)
    + Optional("state", m.state) + Optional("iss", m.iss)
  }

  method CollectParams(m: Answer) returns (out: seq<(string, string)>)
    ensures out == ResponseParams(m)
  {
    out := [];
    if m.idToken.Some? {
      out := out + [("id_token", m.idToken.value)];
    }
    ghost var a, b := Optional("id_token", m.idToken), Optional("code", m.code);
    assert out == a;
    if m.code.Some? {
      out := out + [("code", m.code.value)];
    }
    assert out == a + b;
    if m.accessToken.Some? {
      out := out + [("access_token", m.accessToken.value)];
      out := out + [("token_type", "Bearer")];
      out := out + [("expires_in", DecimalText(m.expiresIn))];
    }
    ghost var c := AccessParams(m);
    assert out == a + b + c;
    if m.state.Some? {
      out := out + [("state", m.state.value)];
    }
    assert out == a + b + c + Optional("state", m.state);
    if m.iss.Some? {
      out := out + [("iss", m.iss.value)];
    }
    assert out == a + b + c + Optional("state", m.state) + Optional("iss", m.iss);
  }

  function QuerySep(uri: Bytes): byte { if QUESTION in uri then AMP else QUESTION }

  function RedirectWith(uri: Bytes, params: seq<(string, string)>, fragment: bool): Bytes {
    uri + [if fragment then HASH else QuerySep(uri)] + Serialize(params)
  }

  // ---- Error responses -------------------------------------------------------------

  datatype OAuthError = OAuthError(code: string, description: Option<string>, state: Option<string>)

  const MAX_DESCRIPTION := 256

  predicate IsDescriptionChar(c: char) { ' ' <= c <= '~' && c != '"' && c != '\\' }

  /** The character set of sections 4.1.2.1 and 5.2 of RFC 6749. */
  lemma DescriptionCharExactly(c: char)
    ensures IsDescriptionChar(c) <==>
            0x20 <= c as int <= 0x21 || 0x23 <= c as int <= 0x5B || 0x5D <= c as int <= 0x7E
  {
  }

  function WireDescription(d: string): (r: string)
    ensures |r| == if |d| <= MAX_DESCRIPTION then |d| else MAX_DESCRIPTION
    ensures forall i :: 0 <= i < |r| ==> IsDescriptionChar(r[i])
    ensures forall i :: 0 <= i < |r| ==> r[i] == d[i] || (r[i] == '?' && !IsDescriptionChar(d[i]))
  {
    var n := if |d| < MAX_DESCRIPTION then |d| else MAX_DESCRIPTION;
    seq(n, i requires 0 <= i < n => if IsDescriptionChar(d[i]) then d[i] else '?')
  }

  function WireState(e: OAuthError): Option<string> {
    if e.state.Some? && IsValidState(e.state.value) then e.state else None
  }

  /** The state is echoed exactly if it could have been accepted: at most 1024 printable ASCII characters. */
  lemma WireStateExactly(e: OAuthError)
    ensures WireState(e) ==
            if e.state.Some? && |e.state.value| <= 1024 && forall c :: c in e.state.value ==> 0x20 <= c as int <= 0x7E
            then e.state else None
  {
    if e.state.Some? { assert forall i :: 0 <= i < |e.state.value| ==> e.state.value[i] in e.state.value; }
  }

  function WireText(e: OAuthError): Option<string> {
    if e.description.Some? then Some(WireDescription(e.description.value)) else None
  }

  function ErrorParams(e: OAuthError, extra: seq<(string, string)>): seq<(string, string)> {
    [("error", e.code)]
    + Optional("error_description", WireText(e))
    + Optional("state", WireState(e)) + extra
  }

  function FragmentSep(uri: Bytes): byte { if HASH in uri then AMP else HASH }

  /** The parameters go before an existing fragment in query mode, after it in fragment mode. */
  function InsertParams(uri: Bytes, params: seq<(string, string)>, fragment: bool): Bytes {
    if fragment then uri + [FragmentSep(uri)] + Serialize(params)
    else
      var base := BeforeFragment(uri);
      base + [QuerySep(base)] + Serialize(params) + FragmentSuffix(uri)
  }

  method CollectErrorParams(e: OAuthError, extra: seq<(string, string)>) returns (params: seq<(string, string)>)
    ensures params == ErrorParams(e, extra)
  {
    params := [("error", e.code)];
    var description := WireText(e);
    if description.Some? {
      params := params + [("error_description", description.value)];
    }
    assert params == [("error", e.code)] + Optional("error_description", description);
    var state := WireState(e);
    if state.Some? {
      params := params + [("state", state.value)];
    }
    assert params == [("error", e.code)] + Optional("error_description", description) + Optional("state", state);
    params := params + extra;
  }

  method ErrorRedirect(e: OAuthError, uri: Bytes, fragment: bool, extra: seq<(string, string)>)
    returns (location: Bytes)
    ensures location == InsertParams(uri, ErrorParams(e, extra), fragment)
  {
    var params := CollectErrorParams(e, extra);
    var encoded := Serialize(params);
    if fragment {
      return uri + [FragmentSep(uri)] + encoded;
    }
    var n := Find(uri, HASH);
    var base, suffix := uri[..n], uri[n..];
    return base + [QuerySep(base)] + encoded + suffix;
  }

  // ---- Locations read back -----------------------------------------------------------

  lemma FindIsMember(s: Bytes, d: byte)
    ensures d in s <==> Find(s, d) < |s|
  {
  }

  lemma FindFirst(s: Bytes, d: byte, n: nat)
    requires n <= |s| && d !in s[..n] && (n < |s| ==> s[n] == d)
    ensures Find(s, d) == n
  {
    assert forall i :: 0 <= i < n ==> s[i] == s[..n][i];
  }

  lemma BeforeHasNoHash(uri: Bytes)
    ensures HASH !in BeforeFragment(uri) && BeforeFragment(uri) + FragmentSuffix(uri) == uri
  {
  }

  lemma SplitAtHash(b: Bytes, suffix: Bytes)
    requires HASH !in b && (suffix == [] || suffix[0] == HASH)
    ensures BeforeFragment(b + suffix) == b && FragmentSuffix(b + suffix) == suffix
  {
    var s := b + suffix;
    assert s[..|b|] == b && s[|b|..] == suffix;
    FindFirst(s, HASH, |b|);
  }

  /** The query part of `b`, when `b` has no fragment. */
  function QueryIn(b: Bytes): Bytes {
    var q := Find(b, QUESTION);
    if q == |b| then [] else b[q + 1..]
  }

  lemma FirstQuery(b: Bytes, encoded: Bytes)
    requires QUESTION !in b
    ensures QueryIn(b) == [] && b[..Find(b, QUESTION)] == b
    ensures var t := b + [QUESTION] + encoded; QueryIn(t) == encoded && t[..Find(t, QUESTION)] == b
  {
    FindIsMember(b, QUESTION);
    FindAt(b, QUESTION, encoded);
    var t := b + [QUESTION] + encoded;
    assert t[|b| + 1..] == encoded && t[..|b|] == b;
  }

  lemma LongerQuery(b: Bytes, encoded: Bytes)
    requires QUESTION in b
    ensures var t := b + [AMP] + encoded;
            QueryIn(t) == QueryIn(b) + [AMP] + encoded && t[..Find(t, QUESTION)] == b[..Find(b, QUESTION)]
  {
    FindIsMember(b, QUESTION);
    var q := Find(b, QUESTION);
    var t := b + [AMP] + encoded;
    assert t[..q] == b[..q] && t[q + 1..] == b[q + 1..] + [AMP] + encoded;
    FindFirst(t, QUESTION, q);
  }

  lemma AppendedQuery(b: Bytes, t: Bytes, encoded: Bytes)
    requires t == b + [QuerySep(b)] + encoded
    ensures Parse(QueryIn(t)) == Parse(QueryIn(b)) + Parse(encoded) && t[..Find(t, QUESTION)] == b[..Find(b, QUESTION)]
  {
    if QUESTION in b {
      LongerQuery(b, encoded);
      ParseConcat(QueryIn(b), encoded);
    } else {
      FirstQuery(b, encoded);
    }
  }

  /** Query mode: the registered URI's own pairs come first, then exactly the parameters in order; base
      and fragment are untouched. */
  lemma InsertedQueryRoundTrip(uri: Bytes, params: seq<(string, string)>)
    ensures var location := InsertParams(uri, params, false);
            && Parse(QueryOf(location)) == Parse(QueryOf(uri)) + params
            && BaseOf(location) == BaseOf(uri) && FragmentSuffix(location) == FragmentSuffix(uri)
  {
    var b := BeforeFragment(uri);
    var t := b + [QuerySep(b)] + Serialize(params);
    BeforeHasNoHash(uri);
    ParseSerialize(params);
    SplitAtHash(t, FragmentSuffix(uri));
    AppendedQuery(b, t, Serialize(params));
  }

  /** A successful query-mode response to a URI without a fragment round-trips the same way. */
  lemma QueryRoundTrip(uri: Bytes, params: seq<(string, string)>)
    requires HASH !in uri
    ensures var location := RedirectWith(uri, params, false);
            && Parse(QueryOf(location)) == Parse(QueryOf(uri)) + params
            && BaseOf(location) == BaseOf(uri) && HASH !in location
  {
    var location := RedirectWith(uri, params, false);
    FindIsMember(uri, HASH);
    assert BeforeFragment(uri) == uri && FragmentSuffix(uri) == [];
    assert location + [] == location;
    InsertedQueryRoundTrip(uri, params);
    ParseSerialize(params);
  }

  lemma FragmentParts(b: Bytes, fragment: Bytes, location: Bytes)
    requires HASH !in b && location == b + ([HASH] + fragment)
    ensures BeforeFragment(location) == b && FragmentOf(location) == fragment
            && FragmentSuffix(location) == [HASH] + fragment
  {
    SplitAtHash(b, [HASH] + fragment);
    assert ([HASH] + fragment)[1..] == fragment;
  }

  /** In fragment mode the parameters are the whole fragment, and the rest is the registered URI. */
  lemma FragmentRoundTrip(uri: Bytes, params: seq<(string, string)>)
    requires HASH !in uri
    ensures var location := RedirectWith(uri, params, true);
            && InsertParams(uri, params, true) == location
            && BeforeFragment(location) == uri && FragmentSuffix(location) == [HASH] + FragmentOf(location)
            && Parse(FragmentOf(location)) == params
  {
    var location := RedirectWith(uri, params, true);
    FragmentParts(uri, Serialize(params), location);
    ParseSerialize(params);
  }

  lemma AppendedLocation(uri: Bytes, encoded: Bytes, location: Bytes)
    requires HASH in uri && location == uri + [AMP] + encoded
    ensures HASH !in BeforeFragment(uri)
    ensures location == BeforeFragment(uri) + ([HASH] + (FragmentOf(uri) + [AMP] + encoded))
  {
    FindIsMember(uri, HASH);
    BeforeHasNoHash(uri);
    var b, f := BeforeFragment(uri), FragmentOf(uri);
    assert uri == b + ([HASH] + f) by { assert FragmentSuffix(uri) == [HASH] + f; }
    Regrouped(b, f, encoded);
  }

  lemma Regrouped(b: Bytes, f: Bytes, e: Bytes)
    ensures b + ([HASH] + f) + [AMP] + e == b + ([HASH] + (f + [AMP] + e))
  {
  }

  /** Fragment mode with a fragment already there: its pairs stay first. */
  lemma FragmentAppended(uri: Bytes, params: seq<(string, string)>)
    requires HASH in uri
    ensures var location := InsertParams(uri, params, true);
            && BeforeFragment(location) == BeforeFragment(uri)
            && FragmentSuffix(location) == [HASH] + FragmentOf(location)
            && Parse(FragmentOf(location)) == Parse(FragmentOf(uri)) + params
  {
    var location, encoded := InsertParams(uri, params, true), Serialize(params);
    AppendedLocation(uri, encoded, location);
    FragmentParts(BeforeFragment(uri), FragmentOf(uri) + [AMP] + encoded, location);
    ParseConcat(FragmentOf(uri), encoded);
    ParseSerialize(params);
  }

  /** In fragment mode, with or without a fragment already there, its own pairs come first. */
  lemma InsertedFragmentRoundTrip(uri: Bytes, params: seq<(string, string)>)
    ensures var location := InsertParams(uri, params, true);
            && Parse(FragmentOf(location)) == Parse(FragmentOf(uri)) + params
            && BeforeFragment(location) == BeforeFragment(uri)
            && FragmentSuffix(location) == [HASH] + FragmentOf(location)
  {
    if HASH in uri {
      FragmentAppended(uri, params);
    } else {
      FirstFragment(uri, params);
    }
  }

  lemma FirstFragment(uri: Bytes, params: seq<(string, string)>)
    requires HASH !in uri
    ensures var location := InsertParams(uri, params, true);
            && BeforeFragment(location) == BeforeFragment(uri)
            && FragmentSuffix(location) == [HASH] + FragmentOf(location)
            && Parse(FragmentOf(location)) == Parse(FragmentOf(uri)) + params
  {
    var own := Parse(FragmentOf(uri));
    assert own == [] && BeforeFragment(uri) == uri by { NoFragment(uri); }
    assert own + params == params;
    FragmentRoundTrip(uri, params);
  }

  lemma NoFragment(uri: Bytes)
    requires HASH !in uri
    ensures FragmentOf(uri) == [] && BeforeFragment(uri) == uri && Parse(FragmentOf(uri)) == []
  {
    FindIsMember(uri, HASH);
  }

  // ---- Issuer identification ----------------------------------------------------------

  /** The check made before a redirect that carries `iss`. */
  predicate IssCollides(uri: Bytes, emitIss: bool, fragment: bool) {
    emitIss && !fragment && Named(Parse(QueryOf(uri)), "iss") != []
  }

  lemma NamedOptional(name: string, value: Option<string>, key: string)
    ensures Named(Optional(name, value), key) == if name == key && value.Some? then [value.value] else []
  {
  }

  /** Each response parameter appears once if it is present, and no other parameter does. */
  lemma ResponseParamsNamed(m: Answer, key: string)
    ensures Named(ResponseParams(m), key) ==
            if key == "id_token" && m.idToken.Some? then [m.idToken.value]
            else if key == "code" && m.code.Some? then [m.code.value]
            else if key == "access_token" && m.accessToken.Some? then [m.accessToken.value]
            else if key == "token_type" && m.accessToken.Some? then ["Bearer"]
            else if key == "expires_in" && m.accessToken.Some? then [DecimalText(m.expiresIn)]
            else if key == "state" && m.state.Some? then [m.state.value]
            else if key == "iss" && m.iss.Some? then [m.iss.value]
            else []
  {
    var a, b, c := Optional("id_token", m.idToken), Optional("code", m.code), AccessParams(m);
    var d, e := Optional("state", m.state), Optional("iss", m.iss);
    NamedConcat(a + b + c + d, e, key);
    NamedConcat(a + b + c, d, key);
    NamedConcat(a + b, c, key);
    NamedConcat(a, b, key);
    NamedOptional("id_token", m.idToken, key);
    NamedOptional("code", m.code, key);
    NamedAccess(m, key);
    NamedOptional("state", m.state, key);
    NamedOptional("iss", m.iss, key);
  }

  lemma NamedAccess(m: Answer, key: string)
    ensures Named(AccessParams(m), key) ==
            if key == "access_token" && m.accessToken.Some? then [m.accessToken.value]
            else if key == "token_type" && m.accessToken.Some? then ["Bearer"]
            else if key == "expires_in" && m.accessToken.Some? then [DecimalText(m.expiresIn)]
            else []
  {
    if m.accessToken.Some? {
      var a, b, c := [("access_token", m.accessToken.value)], [("token_type", "Bearer")],
                     [("expires_in", DecimalText(m.expiresIn))];
      NamedConcat(a + b, c, key);
      NamedConcat(a, b, key);
    }
  }

  /** The order of parameters in a successful response. */
  function Rank(name: string): nat {
    if name == "id_token" then 0 else if name == "code" then 1 else if name == "access_token" then 2
    else if name == "token_type" then 3 else if name == "expires_in" then 4 else if name == "state" then 5 else 6
  }

  ghost predicate Ascending(params: seq<(string, string)>, rank: string -> nat, low: nat, high: nat) {
    && (forall i :: 0 <= i < |params| ==> low <= rank(params[i].0) < high)
    && (forall i, j :: 0 <= i < j < |params| ==> rank(params[i].0) < rank(params[j].0))
  }

  lemma AscendingConcat(a: seq<(string, string)>, b: seq<(string, string)>, rank: string -> nat, low: nat, mid: nat,
                        high: nat)
    requires low <= mid <= high && Ascending(a, rank, low, mid) && Ascending(b, rank, mid, high)
    ensures Ascending(a + b, rank, low, high)
  {
  }

  lemma RanksDiffer()
    ensures Rank("id_token") == 0 && Rank("code") == 1 && Rank("access_token") == 2 && Rank("token_type") == 3
    ensures Rank("expires_in") == 4 && Rank("state") == 5 && Rank("iss") == 6
  {
  }

  lemma OptionalAscending(name: string, value: Option<string>, rank: string -> nat, low: nat)
    requires rank(name) == low
    ensures Ascending(Optional(name, value), rank, low, low + 1)
  {
  }

  lemma AccessAscending(m: Answer)
    ensures Ascending(AccessParams(m), Rank, 2, 5)
  {
    RanksDiffer();
    if m.accessToken.Some? {
      var p, q, r := Optional("access_token", m.accessToken), Optional("token_type", Some("Bearer")),
                     Optional("expires_in", Some(DecimalText(m.expiresIn)));
      OptionalAscending("access_token", m.accessToken, Rank, 2);
      OptionalAscending("token_type", Some("Bearer"), Rank, 3);
      OptionalAscending("expires_in", Some(DecimalText(m.expiresIn)), Rank, 4);
      AscendingConcat(p, q, Rank, 2, 3, 4);
      AscendingConcat(p + q, r, Rank, 2, 4, 5);
      assert AccessParams(m) == p + q + r;
    }
  }

  lemma FiveInOrder(a: seq<(string, string)>, b: seq<(string, string)>, c: seq<(string, string)>,
                    d: seq<(string, string)>, e: seq<(string, string)>)
    requires Ascending(a, Rank, 0, 1) && Ascending(b, Rank, 1, 2) && Ascending(c, Rank, 2, 5)
    requires Ascending(d, Rank, 5, 6) && Ascending(e, Rank, 6, 7)
    ensures Ascending(a + b + c + d + e, Rank, 0, 7)
  {
    AscendingConcat(a, b, Rank, 0, 1, 2);
    AscendingConcat(a + b, c, Rank, 0, 2, 5);
    AscendingConcat(a + b + c, d, Rank, 0, 5, 6);
    AscendingConcat(a + b + c + d, e, Rank, 0, 6, 7);
  }

  /** Parameters come in the order ID token, code, access token with its type and lifetime, state, issuer. */
  lemma ResponseInOrder(m: Answer)
    ensures Ascending(ResponseParams(m), Rank, 0, 7)
  {
    var a, b, c := Optional("id_token", m.idToken), Optional("code", m.code), AccessParams(m);
    var d, e := Optional("state", m.state), Optional("iss", m.iss);
    assert Ascending(a, Rank, 0, 1) && Ascending(b, Rank, 1, 2) by {
      RanksDiffer();
      OptionalAscending("id_token", m.idToken, Rank, 0);
      OptionalAscending("code", m.code, Rank, 1);
    }
    assert Ascending(d, Rank, 5, 6) && Ascending(e, Rank, 6, 7) by {
      RanksDiffer();
      OptionalAscending("state", m.state, Rank, 5);
      OptionalAscending("iss", m.iss, Rank, 6);
    }
    AccessAscending(m);
    FiveInOrder(a, b, c, d, e);
  }

  /** The order of parameters in an error response. */
  function ErrorRank(name: string): nat {
    if name == "error" then 0 else if name == "error_description" then 1 else if name == "state" then 2 else 3
  }

  lemma ErrorRanksDiffer()
    ensures ErrorRank("error") == 0 && ErrorRank("error_description") == 1 && ErrorRank("state") == 2
            && ErrorRank("iss") == 3
  {
  }

  lemma ErrorInOrder(e: OAuthError, iss: Option<string>)
    ensures Ascending(ErrorParams(e, Optional("iss", iss)), ErrorRank, 0, 4)
  {
    var a, b := [("error", e.code)], Optional("error_description", WireText(e));
    var c, d := Optional("state", WireState(e)), Optional("iss", iss);
    assert Ascending(a, ErrorRank, 0, 1) && Ascending(b, ErrorRank, 1, 2) by {
      ErrorRanksDiffer();
      OptionalAscending("error_description", WireText(e), ErrorRank, 1);
    }
    assert Ascending(c, ErrorRank, 2, 3) && Ascending(d, ErrorRank, 3, 4) by {
      ErrorRanksDiffer();
      OptionalAscending("state", WireState(e), ErrorRank, 2);
      OptionalAscending("iss", iss, ErrorRank, 3);
    }
    AscendingConcat(a, b, ErrorRank, 0, 1, 2);
    AscendingConcat(a + b, c, ErrorRank, 0, 2, 3);
    AscendingConcat(a + b + c, d, ErrorRank, 0, 3, 4);
  }

  /** In query mode the redirect carries exactly one `iss`, the issuer, if and only if the check passes. */
  lemma ExactlyOneIss(uri: Bytes, m: Answer, issuer: string)
    requires HASH !in uri && m.iss == Some(issuer)
    ensures Named(Parse(QueryOf(RedirectWith(uri, ResponseParams(m), false))), "iss") == [issuer] <==>
            !IssCollides(uri, true, false)
    ensures Named(Parse(FragmentOf(RedirectWith(uri, ResponseParams(m), true))), "iss") == [issuer]
  {
    QueryRoundTrip(uri, ResponseParams(m));
    FragmentRoundTrip(uri, ResponseParams(m));
    NamedConcat(Parse(QueryOf(uri)), ResponseParams(m), "iss");
    ResponseParamsNamed(m, "iss");
  }

  /** The same for the error redirect, which appends `iss` to its parameters. In fragment mode there is no
      check; one `iss` is then carried exactly when the URI's own fragment, if any, has none. */
  lemma ErrorExactlyOneIss(uri: Bytes, e: OAuthError, issuer: string)
    ensures var params := ErrorParams(e, [("iss", issuer)]);
            Named(Parse(QueryOf(InsertParams(uri, params, false))), "iss") == [issuer] <==>
              !IssCollides(uri, true, false)
    ensures var params := ErrorParams(e, [("iss", issuer)]);
            Named(Parse(FragmentOf(InsertParams(uri, params, true))), "iss") == [issuer] <==>
            Named(Parse(FragmentOf(uri)), "iss") == []
    ensures HASH !in uri ==> Named(Parse(FragmentOf(uri)), "iss") == []
  {
    var params := ErrorParams(e, [("iss", issuer)]);
    ErrorParamsNamed(e, Some(issuer), "iss");
    InsertedQueryRoundTrip(uri, params);
    NamedConcat(Parse(QueryOf(uri)), params, "iss");
    InsertedFragmentRoundTrip(uri, params);
    NamedConcat(Parse(FragmentOf(uri)), params, "iss");
    if HASH !in uri { NoFragment(uri); }
  }

  /** Each parameter of an error redirect appears once if it is present, and no other does. */
  lemma ErrorParamsNamed(e: OAuthError, iss: Option<string>, key: string)
    ensures Named(ErrorParams(e, Optional("iss", iss)), key) ==
            if key == "error" then [e.code]
            else if key == "error_description" && e.description.Some? then [WireText(e).value]
            else if key == "state" && WireState(e).Some? then [WireState(e).value]
            else if key == "iss" && iss.Some? then [iss.value]
            else []
  {
    var a, b := [("error", e.code)], Optional("error_description", WireText(e));
    var c, d := Optional("state", WireState(e)), Optional("iss", iss);
    NamedConcat(a + b + c, d, key);
    NamedConcat(a + b, c, key);
    NamedConcat(a, b, key);
    NamedOptional("error_description", WireText(e), key);
    NamedOptional("state", WireState(e), key);
    NamedOptional("iss", iss, key);
  }
}
