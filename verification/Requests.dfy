/** Authorization requests: the response type, the response mode and the prompt. */
module Requests {
  import opened Text

  datatype AuthorizationRequest = AuthorizationRequest(
    clientId: string,
    redirectUri: string,
    responseType: string,
    scope: string,
    state: Option<string>,
    nonce: Option<string>,
    codeChallenge: Option<string>,
    codeChallengeMethod: Option<string>,
    responseMode: Option<string>,
    prompt: Option<string>)

  datatype RequestError = UnsupportedResponseType | InvalidScope | InvalidRequest

  /** A state that can be accepted and echoed. */
  predicate IsValidState(state: string) {
    |state| <= 1024 && forall i :: 0 <= i < |state| ==> ' ' <= state[i] <= '~'
  }

  /** No empty member and no repetition. */
  ghost predicate WellFormed(input: string) {
    var parts := SplitOn(input, ' ');
    && (forall i :: 0 <= i < |parts| ==> parts[i] != "")
    && (forall i, j :: 0 <= i < j < |parts| ==> parts[i] != parts[j])
  }

  ghost function MemberSet(input: string): set<string> { set p | p in SplitOn(input, ' ') }

  /** The members of a response type as a set; None for an empty or repeated member. */
  method MemberValues(input: string) returns (values: Option<set<string>>)
    ensures values.Some? <==> WellFormed(input)
    ensures values.Some? ==> values.value == MemberSet(input)
  {
    var parts := SplitOn(input, ' ');
    var result: set<string> := {};
    for k := 0 to |parts|
      invariant result == set p | p in parts[..k]
      invariant forall i :: 0 <= i < k ==> parts[i] != ""
      invariant forall i, j :: 0 <= i < j < k ==> parts[i] != parts[j]
    {
      if parts[k] == "" {
        return None;
      }
      if parts[k] in result {
        var i :| 0 <= i < k && parts[i] == parts[k];
        return None;
      }
      result := result + {parts[k]};
      assert parts[..k + 1] == parts[..k] + [parts[k]];
    }
    assert parts[..|parts|] == parts;
    assert parts[0] in parts;
    return Some(result);
  }

  /** Response types are compared as space-delimited sets. */
  ghost predicate ResponseTypeEq(left: string, right: string) {
    WellFormed(left) && WellFormed(right) && MemberSet(left) == MemberSet(right)
  }

  method CompareResponseTypes(left: string, right: string) returns (same: bool)
    ensures same <==> ResponseTypeEq(left, right)
  {
    var a := MemberValues(left);
    var b := MemberValues(right);
    return a.Some? && b.Some? && a.value == b.value;
  }

  /** On well-formed values the comparison is an equivalence: it is set equality. */
  lemma ResponseTypeEquivalence(a: string, b: string, c: string)
    ensures WellFormed(a) <==> ResponseTypeEq(a, a)
    ensures ResponseTypeEq(a, b) ==> ResponseTypeEq(b, a)
    ensures ResponseTypeEq(a, b) && ResponseTypeEq(b, c) ==> ResponseTypeEq(a, c)
    ensures WellFormed(a) && WellFormed(b) ==>
              (ResponseTypeEq(a, b) <==> multiset(SplitOn(a, ' ')) == multiset(SplitOn(b, ' ')))
  {
    if WellFormed(a) && WellFormed(b) {
      DistinctMultiset(SplitOn(a, ' '));
      DistinctMultiset(SplitOn(b, ' '));
      if multiset(SplitOn(a, ' ')) == multiset(SplitOn(b, ' ')) {
        assert forall p :: p in SplitOn(a, ' ') <==> p in multiset(SplitOn(a, ' '));
        assert forall p :: p in SplitOn(b, ' ') <==> p in multiset(SplitOn(b, ' '));
      }
    }
  }

  lemma {:induction false} DistinctMultiset(parts: seq<string>)
    requires forall i, j :: 0 <= i < j < |parts| ==> parts[i] != parts[j]
    ensures multiset(parts) == multiset(set p | p in parts)
  {
    if parts != [] {
      var n := |parts| - 1;
      DistinctMultiset(parts[..n]);
      assert parts == parts[..n] + [parts[n]];
      assert (set p | p in parts) == (set p | p in parts[..n]) + {parts[n]};
      assert parts[n] !in (set p | p in parts[..n]);
    }
  }

  predicate WantsCode(req: AuthorizationRequest) { "code" in Words(req.responseType) }
  predicate WantsIdToken(req: AuthorizationRequest) { "id_token" in Words(req.responseType) }
  predicate WantsAccessToken(req: AuthorizationRequest) { "token" in Words(req.responseType) }
  predicate IsOidc(req: AuthorizationRequest) { "openid" in Words(req.scope) }

  predicate UseFragment(req: AuthorizationRequest) {
    if req.responseMode == Some("fragment") then true
    else if req.responseMode == Some("query") then false
    else WantsIdToken(req) || WantsAccessToken(req)
  }

  /** The six response types on offer. */
  function SupportedType(i: nat): string
    requires i < 6
  {
    if i == 0 then CODE
    else if i == 1 then ID_TOKEN
    else if i == 2 then ID_TOKEN + " " + TOKEN
    else if i == 3 then CODE + " " + ID_TOKEN
    else if i == 4 then CODE + " " + TOKEN
    else CODE + " " + ID_TOKEN + " " + TOKEN
  }

  ghost predicate Supported(responseType: string) {
    exists i :: 0 <= i < 6 && ResponseTypeEq(responseType, SupportedType(i))
  }

  ghost function ValidateResponseType(req: AuthorizationRequest): Result<(), RequestError> {
    if !Supported(req.responseType) then Err(UnsupportedResponseType)
    else if WantsIdToken(req) && !IsOidc(req) then Err(InvalidScope)
    else Ok(())
  }

  function ValidateResponseMode(req: AuthorizationRequest): Result<(), RequestError> {
    match req.responseMode
    case None => Ok(())
    case Some(mode) =>
      if mode == "fragment" then Ok(())
      else if mode == "query" && !WantsIdToken(req) && !WantsAccessToken(req) then Ok(())
      else Err(InvalidRequest)
  }

  /** `prompt=none` must stand alone; empty members are skipped. */
  method ValidatePrompt(req: AuthorizationRequest) returns (r: Result<(), RequestError>)
    ensures r.Ok? <==> PromptAllowed(req)
    ensures r.Err? ==> r.error == InvalidRequest
  {
    if req.prompt.None? {
      return Ok(());
    }
    var parts := SplitOn(req.prompt.value, ' ');
    var count, hasNone := 0, false;
    for k := 0 to |parts|
      invariant count == |Filled(parts[..k])|
      invariant hasNone <==> "none" in Filled(parts[..k])
    {
      assert parts[..k + 1][..k] == parts[..k];
      if parts[k] != "" {
        count := count + 1;
        hasNone := hasNone || parts[k] == "none";
      }
    }
    assert parts[..|parts|] == parts;
    if hasNone && count != 1 {
      return Err(InvalidRequest);
    }
    return Ok(());
  }

  function Filled(parts: seq<string>): seq<string> {
    if parts == [] then []
    else
      var n := |parts| - 1;
      if parts[n] == "" then Filled(parts[..n]) else Filled(parts[..n]) + [parts[n]]
  }

  predicate PromptAllowed(req: AuthorizationRequest) {
    req.prompt.Some? ==>
      var values := Filled(SplitOn(req.prompt.value, ' '));
      "none" in values ==> values == ["none"]
  }

  // ---- What a validated request can ask for ------------------------------

  lemma {:induction false} SplitOne(s: string)
    requires ' ' !in s
    ensures SplitOn(s, ' ') == [s]
  {
    if s != [] {
      SplitOne(s[1..]);
      assert s == [s[0]] + s[1..];
    }
  }

  lemma {:induction false} SplitTwo(a: string, b: string)
    requires ' ' !in a
    ensures SplitOn(a + " " + b, ' ') == [a] + SplitOn(b, ' ')
  {
    var s := a + " " + b;
    if a == [] {
      assert s[1..] == b;
    } else {
      SplitTwo(a[1..], b);
      assert s[1..] == a[1..] + " " + b;
      assert a == [a[0]] + a[1..];
      assert ([a[1..]] + SplitOn(b, ' '))[1..] == SplitOn(b, ' ');
    }
  }

  const CODE := "code"
  const ID_TOKEN := "id_token"
  const TOKEN := "token"

  /** Every combination of the three artifacts but the empty one and a lone access token. */
  ghost predicate Combination(members: set<string>) {
    members <= {CODE, ID_TOKEN, TOKEN} && (CODE in members || ID_TOKEN in members)
  }

  lemma SplitSingles()
    ensures SplitOn(CODE, ' ') == [CODE] && SplitOn(ID_TOKEN, ' ') == [ID_TOKEN] && SplitOn(TOKEN, ' ') == [TOKEN]
  {
    SplitOne(CODE);
    SplitOne(ID_TOKEN);
    SplitOne(TOKEN);
  }

  lemma SplitPair(a: string, b: string)
    requires ' ' !in a && ' ' !in b
    ensures SplitOn(a + " " + b, ' ') == [a, b]
  {
    SplitTwo(a, b);
    SplitOne(b);
  }

  lemma SplitTriple(a: string, b: string, c: string)
    requires ' ' !in a && ' ' !in b && ' ' !in c
    ensures SplitOn(a + " " + b + " " + c, ' ') == [a, b, c]
  {
    SplitTwo(a, b + " " + c);
    SplitPair(b, c);
    assert a + " " + b + " " + c == a + " " + (b + " " + c);
  }

  function SupportedParts(i: nat): seq<string>
    requires i < 6
  {
    [[CODE], [ID_TOKEN], [ID_TOKEN, TOKEN], [CODE, ID_TOKEN], [CODE, TOKEN], [CODE, ID_TOKEN, TOKEN]][i]
  }

  lemma SupportedSplit(i: nat)
    requires i < 6
    ensures SplitOn(SupportedType(i), ' ') == SupportedParts(i)
  {
    if i < 2 {
      SplitSingles();
    } else if i == 2 {
      SplitPair(ID_TOKEN, TOKEN);
    } else if i == 3 {
      SplitPair(CODE, ID_TOKEN);
    } else if i == 4 {
      SplitPair(CODE, TOKEN);
    } else {
      SplitTriple(CODE, ID_TOKEN, TOKEN);
    }
  }

  lemma PartsAreCombination(i: nat)
    requires i < 6
    ensures WellFormed(SupportedType(i))
    ensures MemberSet(SupportedType(i)) == set p | p in SupportedParts(i)
    ensures Combination(MemberSet(SupportedType(i)))
  {
    SupportedSplit(i);
  }

  /** The index of the supported response type with exactly these members. */
  function IndexOf(members: set<string>): (i: nat)
    ensures i < 6
  {
    var c, d, t := CODE in members, ID_TOKEN in members, TOKEN in members;
    if c && d && t then 5 else if c && t then 4 else if c && d then 3 else if d && t then 2 else if d then 1 else 0
  }

  lemma CombinationIsListed(members: set<string>)
    requires Combination(members)
    ensures members == set p | p in SupportedParts(IndexOf(members))
  {
    var parts := SupportedParts(IndexOf(members));
    assert CODE in members <==> CODE in parts;
    assert ID_TOKEN in members <==> ID_TOKEN in parts;
    assert TOKEN in members <==> TOKEN in parts;
  }

  /** The supported list is exactly the well-formed response types over the three artifacts that
      ask for a code or an ID token: six combinations, in any order. */
  lemma SupportedExactly(rt: string)
    ensures Supported(rt) <==> WellFormed(rt) && Combination(MemberSet(rt))
  {
    if Supported(rt) {
      var i :| 0 <= i < 6 && ResponseTypeEq(rt, SupportedType(i));
      PartsAreCombination(i);
    }
    if WellFormed(rt) && Combination(MemberSet(rt)) {
      var i := IndexOf(MemberSet(rt));
      CombinationIsListed(MemberSet(rt));
      PartsAreCombination(i);
      assert ResponseTypeEq(rt, SupportedType(i));
    }
  }

  lemma ArtifactsAreWords()
    ensures IsWord(CODE) && IsWord(ID_TOKEN) && IsWord(TOKEN)
  {
  }

  /** A supported response type has no whitespace but its single separators, so splitting on single
      spaces (used for comparison) and on whitespace (used for dispatch) give the same members. */
  lemma SplittersAgree(req: AuthorizationRequest)
    requires Supported(req.responseType)
    ensures Words(req.responseType) == SplitOn(req.responseType, ' ')
    ensures Combination(WordSet(req.responseType))
  {
    var rt := req.responseType;
    SupportedExactly(rt);
    ArtifactsAreWords();
    var parts := SplitOn(rt, ' ');
    forall k | 0 <= k < |parts|
      ensures IsWord(parts[k])
    {
      assert parts[k] in MemberSet(rt);
    }
    WordsJoin(parts);
    JoinSplitOn(rt, ' ');
    assert [' '] == " ";
    assert WordSet(rt) == MemberSet(rt);
  }

  /** An explicit mode decides; without one, an ID or access token goes in the fragment. */
  lemma FragmentExactly(req: AuthorizationRequest)
    ensures UseFragment(req) <==>
            || req.responseMode == Some("fragment")
            || (req.responseMode != Some("query")
                && ("id_token" in Words(req.responseType) || "token" in Words(req.responseType)))
  {
    assert |"fragment"| != |"query"|;
  }

  /** Once both validations pass, a response outside the fragment carries only a code. */
  lemma QueryCarriesOnlyCode(req: AuthorizationRequest)
    requires ValidateResponseType(req).Ok? && ValidateResponseMode(req).Ok?
    ensures !UseFragment(req) ==> WantsCode(req) && !WantsIdToken(req) && !WantsAccessToken(req)
    ensures WantsCode(req) || WantsIdToken(req)
    ensures WantsIdToken(req) ==> IsOidc(req)
    ensures UseFragment(req) <==> req.responseMode == Some("fragment") || WantsIdToken(req) || WantsAccessToken(req)
  {
    SplittersAgree(req);
    var ws := WordSet(req.responseType);
    assert "code" in ws <==> WantsCode(req);
    assert "id_token" in ws <==> WantsIdToken(req);
    assert "token" in ws <==> WantsAccessToken(req);
  }
}
