/** Authorization responses as the relying party reads them: pairs in any order, each protocol parameter
    at most once. Nothing accepted here is trusted yet. */
module Callback {
  import opened Text
  import opened Escaping
  import opened Utf8
  import opened FormEncoding

  datatype ResponseMode = Query | Fragment | FormPost | Jwt

  datatype Options = Options(mode: Option<ResponseMode>, acceptUnverifiedJarm: bool)

  datatype AuthorizationResponse = AuthorizationResponse(
    code: Option<string>, state: Option<string>, error: Option<string>, errorDescriptionSafe: Option<string>,
    errorUri: Option<string>, iss: Option<string>, jarmResponse: Option<string>, mode: ResponseMode)

  datatype CallbackError = BadRequest | ModeMismatch

  type Outcome = Result<AuthorizationResponse, CallbackError>

  type Pairs = seq<(string, string)>

  const RESPONSE_PARAMS: seq<string> := ["code", "state", "error", "error_description", "error_uri", "iss", "response"]

  predicate IsResponseParam(name: string) {
    name in RESPONSE_PARAMS
  }

  const VALUE_MAX := 2048
  const JARM_MAX := 32768
  const DESCRIPTION_MAX := 256
  const ERROR_MAX := 64

  /** Raw values, not yet checked. */
  datatype Fields = Fields(
    code: Option<string>, state: Option<string>, error: Option<string>, description: Option<string>,
    uri: Option<string>, iss: Option<string>)

  predicate CheckValue(v: string) {
    |v| <= VALUE_MAX && forall i :: 0 <= i < |v| ==> !IsUnsafe(v[i]) && v[i] != '\\'
  }

  predicate CheckErrorCode(v: string) {
    |v| <= ERROR_MAX && forall i :: 0 <= i < |v| ==> ' ' <= v[i] <= '~' && v[i] != '"' && v[i] != '\\'
  }

  predicate Usable(v: Option<string>) { v.Some? ==> v.value != "" && CheckValue(v.value) }

  /** `normalize` is the URL library's verdict on an absolute https URL without credentials. */
  function SafeErrorUri(uri: string, normalize: string -> Option<string>): Option<string> {
    if !CheckValue(uri) || exists c :: c in uri && IsWhitespace(c) then None else normalize(uri)
  }

  function Validate(f: Fields, mode: ResponseMode, normalize: string -> Option<string>): Outcome {
    if f.code.Some? && f.error.Some? then Err(BadRequest)
    else if f.code.None? && f.error.None? then Err(BadRequest)
    else if f.code == Some("") || f.state == Some("") || f.error == Some("") || f.iss == Some("") then Err(BadRequest)
    else if (f.code.Some? && !CheckValue(f.code.value)) || (f.state.Some? && !CheckValue(f.state.value))
         || (f.iss.Some? && !CheckValue(f.iss.value)) then Err(BadRequest)
    else if f.error.Some? && !CheckErrorCode(f.error.value) then Err(BadRequest)
    else Ok(AuthorizationResponse(
              f.code, f.state, f.error,
              if f.description.Some? then Some(Capped(f.description.value, DESCRIPTION_MAX)) else None,
              if f.uri.Some? then SafeErrorUri(f.uri.value, normalize) else None,
              f.iss, None, mode))
  }

  /** A signed response must come alone and be permitted; otherwise the plain fields are checked. */
  function Interpret(f: Fields, response: Option<string>, opts: Options, mode: ResponseMode,
                     normalize: string -> Option<string>): Outcome {
    if response.Some? then
      if !opts.acceptUnverifiedJarm && opts.mode != Some(Jwt) then Err(BadRequest)
      else if f != Fields(None, None, None, None, None, None) then Err(BadRequest)
      else if response.value == "" || |response.value| > JARM_MAX then Err(BadRequest)
      else Ok(AuthorizationResponse(None, None, None, None, None, None, response, Jwt))
    else if opts.mode == Some(Jwt) then Err(BadRequest)
    else Validate(f, mode, normalize)
  }

  // ---- Specification -------------------------------------------------------------

  function Value(pairs: Pairs, name: string): Option<string> {
    var vs := Named(pairs, name);
    if vs == [] then None else Some(vs[0])
  }

  function FieldsOf(pairs: Pairs): Fields {
    Fields(Value(pairs, "code"), Value(pairs, "state"), Value(pairs, "error"), Value(pairs, "error_description"),
           Value(pairs, "error_uri"), Value(pairs, "iss"))
  }

  ghost predicate Repeats(pairs: Pairs) { exists n :: IsResponseParam(n) && |Named(pairs, n)| > 1 }

  ghost function Parsed(pairs: Pairs, opts: Options, mode: ResponseMode, normalize: string -> Option<string>): Outcome {
    if Repeats(pairs) then Err(BadRequest)
    else Interpret(FieldsOf(pairs), Value(pairs, "response"), opts, mode, normalize)
  }

  ghost predicate Gathers(found: map<string, string>, pairs: Pairs) {
    && (forall n :: n in found ==> IsResponseParam(n) && Named(pairs, n) == [found[n]])
    && (forall n :: IsResponseParam(n) && n !in found ==> Named(pairs, n) == [])
  }

  lemma NamedSnoc(pairs: Pairs, p: (string, string), n: string)
    ensures Named(pairs + [p], n) == Named(pairs, n) + (if p.0 == n then [p.1] else [])
  {
    NamedConcat(pairs, [p], n);
  }

  lemma GathersStep(found: map<string, string>, pairs: Pairs, p: (string, string))
    requires Gathers(found, pairs) && p.0 !in found
    ensures if IsResponseParam(p.0) then Gathers(found[p.0 := p.1], pairs + [p]) else Gathers(found, pairs + [p])
  {
    forall n
      ensures Named(pairs + [p], n) == Named(pairs, n) + (if p.0 == n then [p.1] else [])
    {
      NamedSnoc(pairs, p, n);
    }
  }

  lemma RepeatFound(pairs: Pairs, i: nat, v: string)
    requires i < |pairs| && IsResponseParam(pairs[i].0) && Named(pairs[..i], pairs[i].0) == [v]
    ensures Repeats(pairs)
  {
    var n := pairs[i].0;
    assert pairs == pairs[..i] + [pairs[i]] + pairs[i + 1..];
    NamedSnoc(pairs[..i], pairs[i], n);
    NamedConcat(pairs[..i] + [pairs[i]], pairs[i + 1..], n);
    assert |Named(pairs, n)| > 1;
  }

  /** Takes the values of distinct names out of the map, one after the other. */
  method TakeAll(found: map<string, string>, names: seq<string>) returns (values: seq<Option<string>>)
    requires forall i, j :: 0 <= i < j < |names| ==> names[i] != names[j]
    ensures |values| == |names|
    ensures forall i :: 0 <= i < |names| ==> values[i] == if names[i] in found then Some(found[names[i]]) else None
  {
    values := [];
    var rest := found;
    for k := 0 to |names|
      invariant |values| == k
      invariant forall i :: 0 <= i < k ==> values[i] == if names[i] in found then Some(found[names[i]]) else None
      invariant forall i :: k <= i < |names| ==> (names[i] in rest <==> names[i] in found)
      invariant forall i :: k <= i < |names| && names[i] in rest ==> rest[names[i]] == found[names[i]]
    {
      values := values + [if names[k] in rest then Some(rest[names[k]]) else None];
      rest := rest - {names[k]};
    }
  }

  lemma ParamsDistinct()
    ensures forall i, j :: 0 <= i < j < |RESPONSE_PARAMS| ==> RESPONSE_PARAMS[i] != RESPONSE_PARAMS[j]
  {
    var lengths := [4, 5, 5, 17, 9, 3, 8];
    assert forall i :: 0 <= i < 7 ==> |RESPONSE_PARAMS[i]| == lengths[i];
    assert RESPONSE_PARAMS[1][0] != RESPONSE_PARAMS[2][0];
  }

  method TakeFields(found: map<string, string>, ghost pairs: Pairs) returns (fields: Fields, response: Option<string>)
    requires Gathers(found, pairs)
    ensures fields == FieldsOf(pairs) && response == Value(pairs, "response")
  {
    ParamsDistinct();
    var v := TakeAll(found, RESPONSE_PARAMS);
    forall i | 0 <= i < 7 ensures v[i] == Value(pairs, RESPONSE_PARAMS[i]) {
      assert IsResponseParam(RESPONSE_PARAMS[i]);
    }
    return Fields(v[0], v[1], v[2], v[3], v[4], v[5]), v[6];
  }

  /** The parsing loop. */
  method ParsePairs(pairs: Pairs, opts: Options, mode: ResponseMode, normalize: string -> Option<string>)
    returns (r: Outcome)
    ensures r == Parsed(pairs, opts, mode, normalize)
  {
    var found: map<string, string> := map[];
    for i := 0 to |pairs|
      invariant Gathers(found, pairs[..i])
    {
      var (k, v) := pairs[i];
      assert pairs[..i + 1] == pairs[..i] + [pairs[i]];
      if IsResponseParam(k) {
        if k in found {
          RepeatFound(pairs, i, found[k]);
          return Err(BadRequest);
        }
        GathersStep(found, pairs[..i], pairs[i]);
        found := found[k := v];
      } else {
        GathersStep(found, pairs[..i], pairs[i]);
      }
    }
    assert pairs[..|pairs|] == pairs;
    var fields, response := TakeFields(found, pairs);
    return Interpret(fields, response, opts, mode, normalize);
  }

  // ---- Entry points ----------------------------------------------------------------

  function ModeOr(opts: Options, default: ResponseMode): ResponseMode {
    if opts.mode.Some? then opts.mode.value else default
  }

  ghost function ParseResponse(pairs: Pairs, opts: Options, normalize: string -> Option<string>): Outcome {
    Parsed(pairs, opts, ModeOr(opts, Query), normalize)
  }

  /** One leading `?` or `#` is dropped. */
  ghost function ParseText(encoded: Bytes, opts: Options, normalize: string -> Option<string>): Outcome {
    if encoded != [] && encoded[0] == QUESTION then Parsed(Parse(encoded[1..]), opts, ModeOr(opts, Query), normalize)
    else if encoded != [] && encoded[0] == HASH
       then Parsed(Parse(encoded[1..]), opts, ModeOr(opts, Fragment), normalize)
    else Parsed(Parse(encoded), opts, ModeOr(opts, Query), normalize)
  }

  function Paired(name: string, values: seq<string>): Pairs {
    if values == [] then [] else [(name, values[0])] + Paired(name, values[1..])
  }

  function Flatten(groups: seq<(string, seq<string>)>): Pairs {
    if groups == [] then [] else Paired(groups[0].0, groups[0].1) + Flatten(groups[1..])
  }

  lemma {:induction false} PairedSnoc(name: string, values: seq<string>, v: string)
    ensures Paired(name, values + [v]) == Paired(name, values) + [(name, v)]
    decreases values
  {
    if values == [] {
      assert values + [v] == [v];
    } else {
      assert (values + [v])[1..] == values[1..] + [v];
      PairedSnoc(name, values[1..], v);
    }
  }

  lemma {:induction false} FlattenSnoc(groups: seq<(string, seq<string>)>, g: (string, seq<string>))
    ensures Flatten(groups + [g]) == Flatten(groups) + Paired(g.0, g.1)
  {
    if groups == [] {
      assert groups + [g] == [g];
    } else {
      assert (groups + [g])[1..] == groups[1..] + [g];
      FlattenSnoc(groups[1..], g);
    }
  }

  method ParseMulti(groups: seq<(string, seq<string>)>, opts: Options, normalize: string -> Option<string>)
    returns (r: Outcome)
    ensures r == ParseResponse(Flatten(groups), opts, normalize)
  {
    var pairs: Pairs := [];
    for i := 0 to |groups|
      invariant pairs == Flatten(groups[..i])
    {
      var (k, vs) := groups[i];
      for j := 0 to |vs|
        invariant pairs == Flatten(groups[..i]) + Paired(k, vs[..j])
      {
        assert vs[..j + 1] == vs[..j] + [vs[j]];
        PairedSnoc(k, vs[..j], vs[j]);
        pairs := pairs + [(k, vs[j])];
      }
      assert vs[..|vs|] == vs;
      assert groups[..i + 1] == groups[..i] + [groups[i]];
      FlattenSnoc(groups[..i], groups[i]);
    }
    assert groups[..|groups|] == groups;
    r := ParsePairs(pairs, opts, ModeOr(opts, Query), normalize);
  }

  datatype HttpRequest = HttpRequest(verb: string, queryPairs: Pairs, formPairs: Pairs)

  predicate HasProtocol(pairs: Pairs) { exists i :: 0 <= i < |pairs| && IsResponseParam(pairs[i].0) }

  predicate ModeFits(opts: Options, mode: ResponseMode) { opts.mode in [None, Some(mode), Some(Jwt)] }

  ghost function ParseRequest(req: HttpRequest, opts: Options, normalize: string -> Option<string>): Outcome {
    if EqIgnoreCase(req.verb, "GET") then
      if HasProtocol(req.formPairs) then Err(BadRequest)
      else if !ModeFits(opts, Query) then Err(ModeMismatch)
      else Parsed(req.queryPairs, opts, Query, normalize)
    else if EqIgnoreCase(req.verb, "POST") then
      if HasProtocol(req.queryPairs) then Err(BadRequest)
      else if req.formPairs == [] then Err(BadRequest)
      else if !ModeFits(opts, FormPost) then Err(ModeMismatch)
      else Parsed(req.formPairs, opts, FormPost, normalize)
    else Err(BadRequest)
  }

  // ---- Order-blindness ---------------------------------------------------------------

  /** The pairs whose names the parser owns. */
  function Protocol(pairs: Pairs): Pairs {
    if pairs == [] then []
    else if IsResponseParam(pairs[0].0) then [pairs[0]] + Protocol(pairs[1..])
    else Protocol(pairs[1..])
  }

  lemma {:induction false} NamedCount(pairs: Pairs, n: string, v: string)
    requires IsResponseParam(n)
    ensures multiset(Named(pairs, n))[v] == multiset(Protocol(pairs))[(n, v)]
  {
    if pairs != [] {
      NamedCount(pairs[1..], n, v);
    }
  }

  lemma SameNamed(p: Pairs, q: Pairs, n: string)
    requires IsResponseParam(n) && multiset(Protocol(p)) == multiset(Protocol(q))
    ensures multiset(Named(p, n)) == multiset(Named(q, n))
  {
    forall v ensures multiset(Named(p, n))[v] == multiset(Named(q, n))[v] {
      NamedCount(p, n, v);
      NamedCount(q, n, v);
    }
  }

  lemma SameSingle(a: seq<string>, b: seq<string>)
    requires multiset(a) == multiset(b)
    ensures |a| == |b| && (|a| <= 1 ==> a == b)
  {
    assert |multiset(a)| == |a| && |multiset(b)| == |b|;
    if |a| == 1 {
      assert a[0] in multiset(b);
    }
  }

  lemma ParsedByNames(p: Pairs, q: Pairs, opts: Options, mode: ResponseMode, normalize: string -> Option<string>)
    requires forall n :: IsResponseParam(n) ==>
             |Named(p, n)| == |Named(q, n)| && (|Named(p, n)| <= 1 ==> Named(p, n) == Named(q, n))
    ensures Parsed(p, opts, mode, normalize) == Parsed(q, opts, mode, normalize)
  {
    assert Repeats(p) <==> Repeats(q);
    if !Repeats(p) {
      assert forall n :: IsResponseParam(n) ==> Value(p, n) == Value(q, n);
      assert FieldsOf(p) == FieldsOf(q);
    }
  }

  /** The outcome depends only on the protocol pairs as a bag: neither their order nor any pair with
      another name matters. */
  lemma OrderBlind(p: Pairs, q: Pairs, opts: Options, mode: ResponseMode, normalize: string -> Option<string>)
    requires multiset(Protocol(p)) == multiset(Protocol(q))
    ensures Parsed(p, opts, mode, normalize) == Parsed(q, opts, mode, normalize)
  {
    forall n | IsResponseParam(n)
      ensures |Named(p, n)| == |Named(q, n)| && (|Named(p, n)| <= 1 ==> Named(p, n) == Named(q, n))
    {
      SameNamed(p, q, n);
      SameSingle(Named(p, n), Named(q, n));
    }
    ParsedByNames(p, q, opts, mode, normalize);
  }

  lemma {:induction false} ProtocolBag(pairs: Pairs)
    ensures forall p :: multiset(Protocol(pairs))[p] == if IsResponseParam(p.0) then multiset(pairs)[p] else 0
  {
    if pairs != [] {
      ProtocolBag(pairs[1..]);
      assert pairs == [pairs[0]] + pairs[1..];
    }
  }

  /** In particular any reordering of the pairs gives the same outcome. */
  lemma Reordered(p: Pairs, q: Pairs, opts: Options, mode: ResponseMode, normalize: string -> Option<string>)
    requires multiset(p) == multiset(q)
    ensures Parsed(p, opts, mode, normalize) == Parsed(q, opts, mode, normalize)
  {
    ProtocolBag(p);
    ProtocolBag(q);
    assert multiset(Protocol(p)) == multiset(Protocol(q));
    OrderBlind(p, q, opts, mode, normalize);
  }

  lemma NotRepeated(pairs: Pairs, n: string)
    requires !Repeats(pairs) && IsResponseParam(n)
    ensures Named(pairs, n) == OptionSeq(Value(pairs, n))
  {
    assert |Named(pairs, n)| <= 1;
  }

  /** The shape rules: one of code and error, nothing empty, every value within its limits. */
  predicate FieldsOk(f: Fields) {
    && (f.code.Some? <==> f.error.None?) && Usable(f.code) && Usable(f.state) && Usable(f.iss)
    && (f.error.Some? ==> f.error.value != "" && CheckErrorCode(f.error.value))
  }

  lemma ValidateExactly(f: Fields, mode: ResponseMode, normalize: string -> Option<string>)
    ensures Validate(f, mode, normalize).Ok? <==> FieldsOk(f)
    ensures Validate(f, mode, normalize).Err? ==> Validate(f, mode, normalize).error == BadRequest
    ensures FieldsOk(f) ==>
              Validate(f, mode, normalize).value ==
              AuthorizationResponse(
                f.code, f.state, f.error,
                if f.description.Some? then Some(Capped(f.description.value, DESCRIPTION_MAX)) else None,
                if f.uri.Some? then SafeErrorUri(f.uri.value, normalize) else None,
                f.iss, None, mode)
  {
  }

  lemma ValidatedOutcome(f: Fields, mode: ResponseMode, normalize: string -> Option<string>)
    requires Validate(f, mode, normalize).Ok?
    ensures var r := Validate(f, mode, normalize).value;
            && (r.code.Some? <==> r.error.None?) && Usable(r.code) && Usable(r.state) && Usable(r.iss)
            && (r.error.Some? ==> r.error.value != "" && CheckErrorCode(r.error.value))
            && (r.errorDescriptionSafe.Some? ==>
                  Clean(r.errorDescriptionSafe.value) && |r.errorDescriptionSafe.value| <= DESCRIPTION_MAX + 1)
            && (r.errorUri.Some? ==> f.uri.Some? && CheckValue(f.uri.value) && r.errorUri == normalize(f.uri.value))
  {
    if f.description.Some? {
      CappedTextBounded(f.description.value, DESCRIPTION_MAX, Capped(f.description.value, DESCRIPTION_MAX));
    }
  }

  /** An accepted plain response has exactly one of code and error, each value is the only one given to
      its name, and all are fit to show. */
  lemma AcceptedOutcome(pairs: Pairs, opts: Options, mode: ResponseMode, normalize: string -> Option<string>)
    requires Parsed(pairs, opts, mode, normalize).Ok?
    ensures var r := Parsed(pairs, opts, mode, normalize).value;
            if r.jarmResponse.Some? then
              r.mode == Jwt && r.code.None? && r.error.None? && Named(pairs, "response") == [r.jarmResponse.value]
            else
              && (r.code.Some? <==> r.error.None?) && Usable(r.code) && Usable(r.state) && Usable(r.iss)
              && Named(pairs, "code") == OptionSeq(r.code) && Named(pairs, "error") == OptionSeq(r.error)
              && Named(pairs, "state") == OptionSeq(r.state) && Named(pairs, "iss") == OptionSeq(r.iss)
              && (r.errorDescriptionSafe.Some? ==>
                    Clean(r.errorDescriptionSafe.value) && |r.errorDescriptionSafe.value| <= DESCRIPTION_MAX + 1)
  {
    var f := FieldsOf(pairs);
    NotRepeated(pairs, "response");
    if Value(pairs, "response").None? {
      ValidatedOutcome(f, mode, normalize);
      NotRepeated(pairs, "code");
      NotRepeated(pairs, "error");
      NotRepeated(pairs, "state");
      NotRepeated(pairs, "iss");
    }
  }

  function OptionSeq(v: Option<string>): seq<string> { if v.Some? then [v.value] else [] }

  // ---- Entry points agree -----------------------------------------------------------------

  /** The pairs collected by name, in the order of `names`. */
  function Collected(pairs: Pairs, names: seq<string>): seq<(string, seq<string>)> {
    if names == [] then [] else [(names[0], Named(pairs, names[0]))] + Collected(pairs, names[1..])
  }

  lemma {:induction false} NamedPaired(name: string, values: seq<string>, n: string)
    ensures Named(Paired(name, values), n) == if n == name then values else []
    decreases values
  {
    if values != [] {
      NamedPaired(name, values[1..], n);
    }
  }

  lemma {:induction false} NamedCollected(pairs: Pairs, names: seq<string>, n: string)
    requires forall i, j :: 0 <= i < j < |names| ==> names[i] != names[j]
    ensures Named(Flatten(Collected(pairs, names)), n) == if n in names then Named(pairs, n) else []
    decreases names
  {
    if names != [] {
      var rest := Collected(pairs, names[1..]);
      assert Collected(pairs, names)[1..] == rest;
      NamedCollected(pairs, names[1..], n);
      NamedPaired(names[0], Named(pairs, names[0]), n);
      NamedConcat(Paired(names[0], Named(pairs, names[0])), Flatten(rest), n);
    }
  }

  lemma {:induction false} NamedAbsent(pairs: Pairs, n: string)
    requires forall i :: 0 <= i < |pairs| ==> pairs[i].0 != n
    ensures Named(pairs, n) == []
  {
    if pairs != [] { NamedAbsent(pairs[1..], n); }
  }

  /** The multi-map entry point agrees with the pair one, whatever the order of its keys. */
  lemma MultiAgrees(pairs: Pairs, names: seq<string>, opts: Options, normalize: string -> Option<string>)
    requires forall i, j :: 0 <= i < j < |names| ==> names[i] != names[j]
    requires forall i :: 0 <= i < |pairs| ==> pairs[i].0 in names
    ensures ParseResponse(Flatten(Collected(pairs, names)), opts, normalize) == ParseResponse(pairs, opts, normalize)
  {
    forall n ensures Named(Flatten(Collected(pairs, names)), n) == Named(pairs, n) {
      NamedCollected(pairs, names, n);
      if n !in names { NamedAbsent(pairs, n); }
    }
    ParsedByNames(Flatten(Collected(pairs, names)), pairs, opts, ModeOr(opts, Query), normalize);
  }

  lemma NothingParsed(opts: Options, mode: ResponseMode, normalize: string -> Option<string>)
    ensures Parsed([], opts, mode, normalize) == Err(BadRequest)
  {
  }

  /** What an explicit or missing mode option means for the outcome. */
  lemma ModeOption(pairs: Pairs, opts: Options, mode: ResponseMode, normalize: string -> Option<string>)
    requires ModeFits(opts, mode)
    ensures Parsed(pairs, opts, mode, normalize) == Parsed(pairs, opts, ModeOr(opts, mode), normalize)
    ensures mode != Jwt && opts.mode.None? ==>
              Parsed(pairs, opts, mode, normalize) == Parsed(pairs, opts.(mode := Some(mode)), mode, normalize)
  {
  }

  lemma VerbsDiffer(verb: string)
    requires EqIgnoreCase(verb, "POST")
    ensures !EqIgnoreCase(verb, "GET")
  {
    assert |Lower("POST")| != |Lower("GET")|;
  }

  /** A GET callback is read as its query pairs, provided the body carries no protocol parameter and the
      expected mode fits. */
  lemma GetAgrees(req: HttpRequest, opts: Options, normalize: string -> Option<string>, r: AuthorizationResponse)
    requires EqIgnoreCase(req.verb, "GET")
    ensures ParseRequest(req, opts, normalize) == Ok(r) <==>
            !HasProtocol(req.formPairs) && ModeFits(opts, Query)
            && ParseResponse(req.queryPairs, opts, normalize) == Ok(r)
  {
    if ModeFits(opts, Query) { ModeOption(req.queryPairs, opts, Query, normalize); }
  }

  /** A POST callback is read as its form pairs, on the same terms. */
  lemma PostAgrees(req: HttpRequest, opts: Options, normalize: string -> Option<string>, r: AuthorizationResponse)
    requires EqIgnoreCase(req.verb, "POST")
    ensures ParseRequest(req, opts, normalize) == Ok(r) <==>
            && !HasProtocol(req.queryPairs) && ModeFits(opts, FormPost)
            && ParseResponse(req.formPairs, opts.(mode := Some(ModeOr(opts, FormPost))), normalize) == Ok(r)
  {
    VerbsDiffer(req.verb);
    if ModeFits(opts, FormPost) {
      ModeOption(req.formPairs, opts, FormPost, normalize);
      NothingParsed(opts, FormPost, normalize);
    }
  }

  // ---- Outcomes, by the values given to each name ------------------------------------------

  /** Not empty, at most 2048 characters, none of them control, invisible or a backslash. */
  ghost predicate FitToShow(v: string) {
    1 <= |v| <= 2048 && forall c :: c in v ==> !IsControl(c) && !IsInvisibleFormat(c) && c != '\\'
  }

  /** Not empty, at most 64 printable ASCII characters, none of them a quote or a backslash. */
  ghost predicate ErrorSyntax(v: string) {
    1 <= |v| <= 64 && forall c :: c in v ==> ' ' <= c <= '~' && c != '"' && c != '\\'
  }

  lemma SyntaxExactly(v: string)
    ensures Usable(Some(v)) <==> FitToShow(v)
    ensures v != "" && CheckErrorCode(v) <==> ErrorSyntax(v)
  {
    assert forall i :: 0 <= i < |v| ==> v[i] in v;
  }

  /** An error URI is shown only if clean, without whitespace and a safe URL, and then in its normal form. */
  lemma SafeUriExactly(u: string, normalize: string -> Option<string>)
    ensures SafeErrorUri(u, normalize) ==
            if u != "" && FitToShow(u) && (forall c :: c in u ==> !IsWhitespace(c)) then normalize(u)
            else if u == "" then normalize("")
            else None
  {
    SyntaxExactly(u);
  }

  /** The values a plain response may have. */
  ghost predicate PlainOk(pairs: Pairs) {
    && (forall n :: IsResponseParam(n) ==> |Named(pairs, n)| <= 1)
    && Named(pairs, "response") == [] && |Named(pairs, "code")| + |Named(pairs, "error")| == 1
    && (forall v :: v in Named(pairs, "code") ==> FitToShow(v))
    && (forall v :: v in Named(pairs, "state") ==> FitToShow(v))
    && (forall v :: v in Named(pairs, "iss") ==> FitToShow(v))
    && (forall v :: v in Named(pairs, "error") ==> ErrorSyntax(v))
  }

  /** One signed response alone, of bounded length. */
  ghost predicate JarmOk(pairs: Pairs) {
    && |Named(pairs, "response")| == 1 && 1 <= |Named(pairs, "response")[0]| <= 32768
    && forall n :: IsResponseParam(n) && n != "response" ==> Named(pairs, n) == []
  }

  ghost predicate PlainOutcome(pairs: Pairs, mode: ResponseMode, normalize: string -> Option<string>,
                               r: AuthorizationResponse) {
    && OptionSeq(r.code) == Named(pairs, "code") && OptionSeq(r.state) == Named(pairs, "state")
    && OptionSeq(r.error) == Named(pairs, "error") && OptionSeq(r.iss) == Named(pairs, "iss")
    && r.errorDescriptionSafe ==
       (if Named(pairs, "error_description") == [] then None
        else Some(Capped(Named(pairs, "error_description")[0], 256)))
    && r.errorUri == (if Named(pairs, "error_uri") == [] then None
                      else SafeErrorUri(Named(pairs, "error_uri")[0], normalize))
    && r.jarmResponse.None? && r.mode == mode
  }

  lemma FieldsExactly(f: Fields)
    ensures FieldsOk(f) <==>
            && (f.code.Some? <==> f.error.None?)
            && (f.code.Some? ==> FitToShow(f.code.value)) && (f.state.Some? ==> FitToShow(f.state.value))
            && (f.iss.Some? ==> FitToShow(f.iss.value)) && (f.error.Some? ==> ErrorSyntax(f.error.value))
  {
    if f.code.Some? { SyntaxExactly(f.code.value); }
    if f.state.Some? { SyntaxExactly(f.state.value); }
    if f.iss.Some? { SyntaxExactly(f.iss.value); }
    if f.error.Some? { SyntaxExactly(f.error.value); }
  }

  lemma PlainExactly(pairs: Pairs)
    requires !Repeats(pairs)
    ensures PlainOk(pairs) <==> Value(pairs, "response").None? && FieldsOk(FieldsOf(pairs))
  {
    var f, response := FieldsOf(pairs), Value(pairs, "response");
    assert forall n :: IsResponseParam(n) ==> |Named(pairs, n)| <= 1;
    assert Named(pairs, "code") == OptionSeq(f.code) && Named(pairs, "state") == OptionSeq(f.state)
           && Named(pairs, "error") == OptionSeq(f.error) && Named(pairs, "iss") == OptionSeq(f.iss)
           && Named(pairs, "response") == OptionSeq(response) by {
      NotRepeated(pairs, "code");
      NotRepeated(pairs, "state");
      NotRepeated(pairs, "error");
      NotRepeated(pairs, "iss");
      NotRepeated(pairs, "response");
    }
    FieldsExactly(f);
  }

  lemma JarmExactly(pairs: Pairs)
    requires !Repeats(pairs) && Value(pairs, "response").Some?
    ensures JarmOk(pairs) <==>
            && FieldsOf(pairs) == Fields(None, None, None, None, None, None)
            && Value(pairs, "response").value != "" && |Value(pairs, "response").value| <= JARM_MAX
  {
    NotRepeated(pairs, "response");
    if FieldsOf(pairs) == Fields(None, None, None, None, None, None) {
      forall n | IsResponseParam(n) && n != "response" ensures Named(pairs, n) == [] {
        var k :| 0 <= k < 7 && RESPONSE_PARAMS[k] == n;
        assert Value(pairs, RESPONSE_PARAMS[k]).None?;
      }
    }
    if JarmOk(pairs) {
      OthersSilent(pairs);
    }
  }

  lemma OthersSilent(pairs: Pairs)
    requires forall n :: IsResponseParam(n) && n != "response" ==> Named(pairs, n) == []
    ensures FieldsOf(pairs) == Fields(None, None, None, None, None, None)
  {
    ParamsDistinct();
    assert forall k :: 0 <= k < 7 ==> IsResponseParam(RESPONSE_PARAMS[k]);
    assert forall k :: 0 <= k < 6 ==> Named(pairs, RESPONSE_PARAMS[k]) == [];
    assert Named(pairs, RESPONSE_PARAMS[0]) == [] && Named(pairs, RESPONSE_PARAMS[1]) == [];
    assert Named(pairs, RESPONSE_PARAMS[2]) == [] && Named(pairs, RESPONSE_PARAMS[3]) == [];
    assert Named(pairs, RESPONSE_PARAMS[4]) == [] && Named(pairs, RESPONSE_PARAMS[5]) == [];
  }

  lemma PlainParsed(pairs: Pairs, opts: Options, mode: ResponseMode, normalize: string -> Option<string>)
    requires !Repeats(pairs) && Value(pairs, "response").None? && opts.mode != Some(Jwt)
    ensures var r := Parsed(pairs, opts, mode, normalize);
            if PlainOk(pairs) then r.Ok? && PlainOutcome(pairs, mode, normalize, r.value) else r == Err(BadRequest)
  {
    PlainExactly(pairs);
    ValidateExactly(FieldsOf(pairs), mode, normalize);
    NotRepeated(pairs, "code");
    NotRepeated(pairs, "state");
    NotRepeated(pairs, "error");
    NotRepeated(pairs, "iss");
  }

  lemma JarmParsed(pairs: Pairs, opts: Options, mode: ResponseMode, normalize: string -> Option<string>)
    requires !Repeats(pairs) && Value(pairs, "response").Some?
    ensures Parsed(pairs, opts, mode, normalize) ==
            if JarmOk(pairs) && (opts.mode == Some(Jwt) || opts.acceptUnverifiedJarm) then
              Ok(AuthorizationResponse(None, None, None, None, None, None, Some(Named(pairs, "response")[0]), Jwt))
            else Err(BadRequest)
  {
    JarmExactly(pairs);
  }

  /** Every outcome, by the values given to each name: a plain response where none is expected to be signed, a
      signed one where it is expected or at least permitted, and an error otherwise. */
  lemma ParsedExactly(pairs: Pairs, opts: Options, mode: ResponseMode, normalize: string -> Option<string>)
    ensures var r := Parsed(pairs, opts, mode, normalize);
            if PlainOk(pairs) && opts.mode != Some(Jwt) then r.Ok? && PlainOutcome(pairs, mode, normalize, r.value)
            else if JarmOk(pairs) && (opts.mode == Some(Jwt) || opts.acceptUnverifiedJarm) then
              r == Ok(AuthorizationResponse(None, None, None, None, None, None, Some(Named(pairs, "response")[0]), Jwt))
            else r == Err(BadRequest)
  {
    if Repeats(pairs) {
      var n :| IsResponseParam(n) && |Named(pairs, n)| > 1;
      assert !PlainOk(pairs) && !JarmOk(pairs);
    } else if Value(pairs, "response").Some? {
      assert !PlainOk(pairs);
      JarmParsed(pairs, opts, mode, normalize);
    } else {
      assert !JarmOk(pairs);
      if opts.mode != Some(Jwt) { PlainParsed(pairs, opts, mode, normalize); }
    }
  }

  /** One leading question mark or hash is dropped, and tells the default mode; nothing else is. */
  lemma LeadingMark(encoded: Bytes, opts: Options, normalize: string -> Option<string>)
    ensures ParseText([QUESTION] + encoded, opts, normalize) ==
            Parsed(Parse(encoded), opts, ModeOr(opts, Query), normalize)
    ensures ParseText([HASH] + encoded, opts, normalize) ==
            Parsed(Parse(encoded), opts, ModeOr(opts, Fragment), normalize)
    ensures encoded == [] || (encoded[0] != QUESTION && encoded[0] != HASH) ==>
              ParseText(encoded, opts, normalize) == Parsed(Parse(encoded), opts, ModeOr(opts, Query), normalize)
  {
    assert ([QUESTION] + encoded)[1..] == encoded && ([HASH] + encoded)[1..] == encoded;
  }

  /** A list has a protocol parameter when it gives a value to one of their names. */
  lemma {:induction false} HasProtocolExactly(pairs: Pairs)
    ensures HasProtocol(pairs) <==> exists n :: n in RESPONSE_PARAMS && Named(pairs, n) != []
  {
    if pairs != [] {
      var rest := pairs[1..];
      HasProtocolExactly(rest);
      assert forall i :: 0 <= i < |rest| ==> rest[i] == pairs[i + 1];
      if i :| 0 <= i < |pairs| && IsResponseParam(pairs[i].0) {
        if i > 0 {
          assert IsResponseParam(rest[i - 1].0);
          var n :| n in RESPONSE_PARAMS && Named(rest, n) != [];
          assert Named(pairs, n) != [];
        } else {
          assert Named(pairs, pairs[0].0) != [];
        }
      }
      if n :| n in RESPONSE_PARAMS && Named(pairs, n) != [] {
        if pairs[0].0 != n {
          assert Named(rest, n) != [];
          var i :| 0 <= i < |rest| && IsResponseParam(rest[i].0);
          assert IsResponseParam(pairs[i + 1].0);
        } else {
          assert IsResponseParam(pairs[0].0);
        }
      }
    }
  }

  /** A response arrives by GET or POST. */
  lemma OtherVerbsRefused(req: HttpRequest, opts: Options, normalize: string -> Option<string>)
    requires !SameButCase(req.verb, "GET") && !SameButCase(req.verb, "POST")
    ensures ParseRequest(req, opts, normalize) == Err(BadRequest)
  {
    EqIgnoreCaseExactly(req.verb, "GET");
    EqIgnoreCaseExactly(req.verb, "POST");
  }
}
