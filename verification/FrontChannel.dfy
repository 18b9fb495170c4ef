/** From the provider's redirect to the relying party's callback: what the one prints, the other reads. */
module FrontChannel {
  import opened Text
  import opened Utf8
  import opened Escaping
  import opened FormEncoding
  import opened Redirect
  import opened Callback

  /** The protocol parameters of a list: at most one value each, given by place in the list of names. */
  ghost predicate Carries(pairs: Pairs, values: seq<Option<string>>)
    requires |values| == 7
  {
    forall k :: 0 <= k < 7 ==> Named(pairs, RESPONSE_PARAMS[k]) == OptionSeq(values[k])
  }

  lemma CarriesFields(pairs: Pairs, values: seq<Option<string>>)
    requires |values| == 7 && Carries(pairs, values)
    ensures !Repeats(pairs) && Value(pairs, "response") == values[6]
    ensures FieldsOf(pairs) == Fields(values[0], values[1], values[2], values[3], values[4], values[5])
  {
    forall n | IsResponseParam(n) ensures |Named(pairs, n)| <= 1 {
      var k :| 0 <= k < 7 && RESPONSE_PARAMS[k] == n;
    }
    assert forall k :: 0 <= k < 7 ==> Value(pairs, RESPONSE_PARAMS[k]) == values[k];
    assert Value(pairs, RESPONSE_PARAMS[0]) == values[0] && Value(pairs, RESPONSE_PARAMS[1]) == values[1];
    assert Value(pairs, RESPONSE_PARAMS[2]) == values[2] && Value(pairs, RESPONSE_PARAMS[3]) == values[3];
    assert Value(pairs, RESPONSE_PARAMS[4]) == values[4] && Value(pairs, RESPONSE_PARAMS[5]) == values[5];
    assert Value(pairs, RESPONSE_PARAMS[6]) == values[6];
  }

  // ---- The registered URI's own pairs ------------------------------------------------

  /** Pairs that leave a response as it is: no value for a protocol parameter, save at most one `error_uri`
      that is dropped as unsafe. */
  ghost predicate Harmless(own: Pairs, normalize: string -> Option<string>) {
    && (forall k :: 0 <= k < 7 && k != 4 ==> Named(own, RESPONSE_PARAMS[k]) == [])
    && |Named(own, RESPONSE_PARAMS[4])| <= 1
    && (forall u :: u in Named(own, RESPONSE_PARAMS[4]) ==> SafeErrorUri(u, normalize).None?)
  }

  function FieldsFrom(values: seq<Option<string>>): Fields
    requires |values| == 7
  {
    Fields(values[0], values[1], values[2], values[3], values[4], values[5])
  }

  /** The response that says exactly `values`, without an `error_uri`. */
  ghost function Reading(values: seq<Option<string>>, mode: ResponseMode): AuthorizationResponse
    requires |values| == 7
  {
    AuthorizationResponse(values[0], values[1], values[2],
                          if values[3].Some? then Some(Capped(values[3].value, DESCRIPTION_MAX)) else None,
                          None, values[5], None, mode)
  }

  /** Values printed by the provider: it writes neither `error_uri` nor `response`. */
  ghost predicate Prints(pairs: Pairs, values: seq<Option<string>>) {
    |values| == 7 && values[4].None? && values[6].None? && Carries(pairs, values)
  }

  lemma NamedAfter(own: Pairs, pairs: Pairs, values: seq<Option<string>>, k: nat)
    requires Prints(pairs, values) && k < 7
    ensures Named(own + pairs, RESPONSE_PARAMS[k]) == Named(own, RESPONSE_PARAMS[k]) + OptionSeq(values[k])
  {
    NamedConcat(own, pairs, RESPONSE_PARAMS[k]);
  }

  /** Harmless pairs in front do not change what is read. */
  lemma HarmlessRead(own: Pairs, pairs: Pairs, values: seq<Option<string>>, opts: Options, mode: ResponseMode,
                     normalize: string -> Option<string>)
    requires Prints(pairs, values) && Harmless(own, normalize) && opts.mode != Some(Jwt)
    ensures Parsed(own + pairs, opts, mode, normalize) ==
            if FieldsOk(FieldsFrom(values)) then Ok(Reading(values, mode)) else Err(BadRequest)
  {
    var uris := Named(own, RESPONSE_PARAMS[4]);
    var all := values[4 := if uris == [] then None else Some(uris[0])];
    forall k | 0 <= k < 7 ensures Named(own + pairs, RESPONSE_PARAMS[k]) == OptionSeq(all[k]) {
      NamedAfter(own, pairs, values, k);
    }
    CarriesFields(own + pairs, all);
    ValidateExactly(FieldsFrom(all), mode, normalize);
    assert FieldsFrom(all) == FieldsFrom(values).(uri := all[4]);
  }

  /** A name that is present exactly when the provider printed it was not in the URI. */
  lemma OwnSilent(own: Pairs, pairs: Pairs, values: seq<Option<string>>, k: nat)
    requires Prints(pairs, values) && k < 7 && |Named(own + pairs, RESPONSE_PARAMS[k])| <= 1
    requires Value(own + pairs, RESPONSE_PARAMS[k]).Some? <==> values[k].Some?
    ensures Named(own, RESPONSE_PARAMS[k]) == []
  {
    NamedAfter(own, pairs, values, k);
  }

  /** What an accepted parse says of each name. */
  lemma ParsedValues(pairs: Pairs, opts: Options, mode: ResponseMode, normalize: string -> Option<string>,
                     r: AuthorizationResponse)
    requires Parsed(pairs, opts, mode, normalize) == Ok(r) && r.jarmResponse.None?
    ensures forall k :: 0 <= k < 7 ==> |Named(pairs, RESPONSE_PARAMS[k])| <= 1
    ensures Value(pairs, RESPONSE_PARAMS[6]).None? && FieldsOk(FieldsOf(pairs))
    ensures Value(pairs, RESPONSE_PARAMS[0]) == r.code && Value(pairs, RESPONSE_PARAMS[1]) == r.state
    ensures Value(pairs, RESPONSE_PARAMS[2]) == r.error && Value(pairs, RESPONSE_PARAMS[5]) == r.iss
    ensures Value(pairs, RESPONSE_PARAMS[3]).Some? <==> r.errorDescriptionSafe.Some?
    ensures var u := Value(pairs, RESPONSE_PARAMS[4]); u.Some? ==> r.errorUri == SafeErrorUri(u.value, normalize)
  {
    forall k | 0 <= k < 7 ensures |Named(pairs, RESPONSE_PARAMS[k])| <= 1 {
      assert IsResponseParam(RESPONSE_PARAMS[k]);
    }
    ValidateExactly(FieldsOf(pairs), mode, normalize);
  }

  lemma ReadingMeansHarmless(own: Pairs, pairs: Pairs, values: seq<Option<string>>, opts: Options, mode: ResponseMode,
                             normalize: string -> Option<string>)
    requires Prints(pairs, values) && Parsed(own + pairs, opts, mode, normalize) == Ok(Reading(values, mode))
    ensures Harmless(own, normalize)
  {
    ParsedValues(own + pairs, opts, mode, normalize, Reading(values, mode));
    forall k | 0 <= k < 7 && k != 4 ensures Named(own, RESPONSE_PARAMS[k]) == [] {
      OwnSilent(own, pairs, values, k);
    }
    NamedAfter(own, pairs, values, 4);
  }

  /** Exactly harmless pairs leave the reading of a well-shaped response as it is. */
  lemma HarmlessExactly(own: Pairs, pairs: Pairs, values: seq<Option<string>>, opts: Options, mode: ResponseMode,
                        normalize: string -> Option<string>)
    requires Prints(pairs, values) && opts.mode != Some(Jwt)
    ensures Parsed(own + pairs, opts, mode, normalize) == Ok(Reading(values, mode)) <==>
            FieldsOk(FieldsFrom(values)) && Harmless(own, normalize)
  {
    var outcome, reading := Parsed(own + pairs, opts, mode, normalize), Reading(values, mode);
    if outcome == Ok(reading) {
      ReadingMeansHarmless(own, pairs, values, opts, mode, normalize);
    }
    if Harmless(own, normalize) {
      HarmlessRead(own, pairs, values, opts, mode, normalize);
    }
  }

  lemma PlaceOf(k: nat)
    requires k < 7
    ensures var n := RESPONSE_PARAMS[k];
            && (n == "code" <==> k == 0) && (n == "state" <==> k == 1) && (n == "error" <==> k == 2)
            && (n == "error_description" <==> k == 3) && (n == "iss" <==> k == 5)
            && n != "id_token" && n != "access_token" && n != "token_type" && n != "expires_in"
  {
    assert RESPONSE_PARAMS[0] == "code" && RESPONSE_PARAMS[1] == "state" && RESPONSE_PARAMS[2] == "error";
    assert RESPONSE_PARAMS[3] == "error_description" && RESPONSE_PARAMS[5] == "iss";
    ParamsDistinct();
    var lengths := [4, 5, 5, 17, 9, 3, 8];
    assert forall i :: 0 <= i < 7 ==> |RESPONSE_PARAMS[i]| == lengths[i];
    assert |"access_token"| == 12 && |"token_type"| == 10 && |"expires_in"| == 10;
    assert k == 6 ==> RESPONSE_PARAMS[6][0] == 'r';
  }

  // ---- Successful responses -----------------------------------------------------------

  function AnswerValues(m: Answer): seq<Option<string>> { [m.code, m.state, None, None, None, m.iss, None] }

  lemma ResponsePrints(m: Answer)
    ensures Prints(ResponseParams(m), AnswerValues(m))
  {
    var values := AnswerValues(m);
    forall k | 0 <= k < 7 ensures Named(ResponseParams(m), RESPONSE_PARAMS[k]) == OptionSeq(values[k]) {
      PlaceOf(k);
      ResponseParamsNamed(m, RESPONSE_PARAMS[k]);
    }
  }

  function Expected(m: Answer, mode: ResponseMode): AuthorizationResponse {
    AuthorizationResponse(m.code, m.state, None, None, None, m.iss, None, mode)
  }

  predicate Readable(m: Answer) { m.code.Some? && Usable(m.code) && Usable(m.state) && Usable(m.iss) }

  /** A response after any pairs is read as itself exactly when it is readable and the pairs are harmless. */
  lemma ResponseParsed(own: Pairs, m: Answer, opts: Options, mode: ResponseMode, normalize: string -> Option<string>)
    requires opts.mode != Some(Jwt)
    ensures Parsed(own + ResponseParams(m), opts, mode, normalize) == Ok(Expected(m, mode)) <==>
            Readable(m) && Harmless(own, normalize)
    ensures Harmless(own, normalize) && !Readable(m) ==> Parsed(own + ResponseParams(m), opts, mode, normalize).Err?
  {
    ResponsePrints(m);
    HarmlessExactly(own, ResponseParams(m), AnswerValues(m), opts, mode, normalize);
    if Harmless(own, normalize) {
      HarmlessRead(own, ResponseParams(m), AnswerValues(m), opts, mode, normalize);
    }
  }

  lemma NothingIsHarmless(normalize: string -> Option<string>)
    ensures Harmless([], normalize)
  {
  }

  /** The callback returns the very code, state and issuer of a query redirect exactly when there is a code,
      each value is fit to show, and the registered URI's own pairs are harmless. */
  lemma CallbackReadsLocation(uri: Bytes, m: Answer, opts: Options, normalize: string -> Option<string>)
    requires HASH !in uri && opts.mode != Some(Jwt)
    ensures var location := RedirectWith(uri, ResponseParams(m), false);
            ParseText([QUESTION] + QueryOf(location), opts, normalize) == Ok(Expected(m, ModeOr(opts, Query))) <==>
            Readable(m) && Harmless(Parse(QueryOf(uri)), normalize)
  {
    var own := Parse(QueryOf(uri));
    var query := QueryOf(RedirectWith(uri, ResponseParams(m), false));
    assert Parse(query) == own + ResponseParams(m) by { QueryRoundTrip(uri, ResponseParams(m)); }
    assert ([QUESTION] + query)[1..] == query;
    ResponseParsed(own, m, opts, ModeOr(opts, Query), normalize);
  }

  /** The same for a fragment, which the URI's own parameters cannot reach. */
  lemma CallbackReadsFragment(uri: Bytes, m: Answer, opts: Options, normalize: string -> Option<string>)
    requires HASH !in uri && opts.mode != Some(Jwt)
    ensures var location := RedirectWith(uri, ResponseParams(m), true);
            var outcome := ParseText(FragmentSuffix(location), opts, normalize);
            if Readable(m) then outcome == Ok(Expected(m, ModeOr(opts, Fragment))) else outcome.Err?
  {
    var params := ResponseParams(m);
    assert [] + params == params;
    FragmentRoundTrip(uri, params);
    ReadFragment(FragmentSuffix(RedirectWith(uri, params, true)), opts, normalize);
    NothingIsHarmless(normalize);
    ResponseParsed([], m, opts, ModeOr(opts, Fragment), normalize);
  }

  lemma ReadFragment(suffix: Bytes, opts: Options, normalize: string -> Option<string>)
    requires suffix != [] && suffix[0] == HASH
    ensures ParseText(suffix, opts, normalize) == Parsed(Parse(suffix[1..]), opts, ModeOr(opts, Fragment), normalize)
  {
  }

  /** A registered URI whose own query is one `state` pair: a response without a state is read as having that
      one, which the provider never sent, and a response with a state is refused. */
  lemma OwnStateRead(base: Bytes, v: string, m: Answer, opts: Options, normalize: string -> Option<string>)
    requires HASH !in base && QUESTION !in base && Readable(m) && Usable(Some(v))
    requires opts.mode != Some(Jwt)
    ensures var uri := RedirectWith(base, [("state", v)], false);
            var outcome := ParseText([QUESTION] + QueryOf(RedirectWith(uri, ResponseParams(m), false)), opts,
                                     normalize);
            && HASH !in uri && !IssCollides(uri, true, false)
            && (if m.state.None? then outcome == Ok(Expected(m.(state := Some(v)), ModeOr(opts, Query)))
                else outcome.Err?)
  {
    var own := [("state", v)];
    var uri := RedirectWith(base, own, false);
    OwnPairs(base, own);
    NamedOwnState(v);
    var query := QueryOf(RedirectWith(uri, ResponseParams(m), false));
    assert Parse(query) == own + ResponseParams(m) by { QueryRoundTrip(uri, ResponseParams(m)); }
    assert ([QUESTION] + query)[1..] == query;
    OwnStateParsed(v, m, opts, normalize);
  }

  lemma OwnPairs(base: Bytes, own: Pairs)
    requires HASH !in base && QUESTION !in base
    ensures var uri := RedirectWith(base, own, false); HASH !in uri && Parse(QueryOf(uri)) == own
  {
    QueryRoundTrip(base, own);
    FindIsMember(base, HASH);
    FirstQuery(BeforeFragment(base), []);
    assert QueryOf(base) == QueryIn(BeforeFragment(base));
  }

  lemma NamedOwnState(v: string)
    ensures Named([("state", v)], "iss") == []
    ensures forall k :: 0 <= k < 7 ==> Named([("state", v)], RESPONSE_PARAMS[k]) == if k == 1 then [v] else []
  {
    forall k | 0 <= k < 7
      ensures Named([("state", v)], RESPONSE_PARAMS[k]) == if k == 1 then [v] else []
    {
      PlaceOf(k);
    }
  }

  lemma OwnStateNamed(v: string, m: Answer, k: nat)
    requires k < 7
    ensures Named([("state", v)] + ResponseParams(m), RESPONSE_PARAMS[k]) ==
            (if k == 1 then [v] else []) + OptionSeq(AnswerValues(m)[k])
  {
    ResponsePrints(m);
    NamedOwnState(v);
    NamedAfter([("state", v)], ResponseParams(m), AnswerValues(m), k);
  }

  lemma OwnStateAlone(v: string, m: Answer)
    requires m.state.None?
    ensures Carries([("state", v)] + ResponseParams(m), AnswerValues(m.(state := Some(v))))
  {
    var all := AnswerValues(m.(state := Some(v)));
    forall k | 0 <= k < 7
      ensures Named([("state", v)] + ResponseParams(m), RESPONSE_PARAMS[k]) == OptionSeq(all[k])
    {
      OwnStateNamed(v, m, k);
    }
  }

  lemma OwnStateParsed(v: string, m: Answer, opts: Options, normalize: string -> Option<string>)
    requires Readable(m) && Usable(Some(v)) && opts.mode != Some(Jwt)
    ensures var outcome := Parsed([("state", v)] + ResponseParams(m), opts, ModeOr(opts, Query), normalize);
            if m.state.None? then outcome == Ok(Expected(m.(state := Some(v)), ModeOr(opts, Query))) else outcome.Err?
  {
    var pairs := [("state", v)] + ResponseParams(m);
    if m.state.None? {
      var all := AnswerValues(m.(state := Some(v)));
      OwnStateAlone(v, m);
      CarriesFields(pairs, all);
      ValidateExactly(FieldsFrom(all), ModeOr(opts, Query), normalize);
    } else {
      OwnStateNamed(v, m, 1);
      assert IsResponseParam(RESPONSE_PARAMS[1]) && |Named(pairs, RESPONSE_PARAMS[1])| > 1;
    }
  }

  // ---- Error responses ----------------------------------------------------------------

  function ErrorValues(e: OAuthError, iss: Option<string>): seq<Option<string>> {
    [None, WireState(e), Some(e.code), WireText(e), None, iss, None]
  }

  lemma ErrorPrints(e: OAuthError, iss: Option<string>)
    ensures Prints(ErrorParams(e, Optional("iss", iss)), ErrorValues(e, iss))
  {
    var values := ErrorValues(e, iss);
    forall k | 0 <= k < 7
      ensures Named(ErrorParams(e, Optional("iss", iss)), RESPONSE_PARAMS[k]) == OptionSeq(values[k])
    {
      PlaceOf(k);
      ErrorParamsNamed(e, iss, RESPONSE_PARAMS[k]);
    }
  }

  /** A description on the wire needs no escaping and no cut. */
  lemma WireTextKept(d: string)
    ensures Capped(WireDescription(d), DESCRIPTION_MAX) == WireDescription(d)
  {
    var w := WireDescription(d);
    assert Clean(w) by {
      forall i | 0 <= i < |w| ensures !IsUnsafe(w[i]) { assert IsDescriptionChar(w[i]); }
    }
    CleanTextKept(w);
    WholeTextWhenItFits(w, DESCRIPTION_MAX, Capped(w, DESCRIPTION_MAX));
  }

  function ExpectedError(e: OAuthError, iss: Option<string>, mode: ResponseMode): AuthorizationResponse {
    AuthorizationResponse(None, WireState(e), Some(e.code), WireText(e), None, iss, None, mode)
  }

  predicate ReadableError(e: OAuthError, iss: Option<string>) {
    e.code != "" && CheckErrorCode(e.code) && Usable(WireState(e)) && Usable(iss)
  }

  lemma ErrorParsed(own: Pairs, e: OAuthError, iss: Option<string>, opts: Options, mode: ResponseMode,
                    normalize: string -> Option<string>)
    requires opts.mode != Some(Jwt)
    ensures Parsed(own + ErrorParams(e, Optional("iss", iss)), opts, mode, normalize) ==
            Ok(ExpectedError(e, iss, mode)) <==>
            ReadableError(e, iss) && Harmless(own, normalize)
  {
    ErrorPrints(e, iss);
    if e.description.Some? { WireTextKept(e.description.value); }
    assert Reading(ErrorValues(e, iss), mode) == ExpectedError(e, iss, mode);
    HarmlessExactly(own, ErrorParams(e, Optional("iss", iss)), ErrorValues(e, iss), opts, mode, normalize);
  }

  /** An error redirect is read back as the same error code, description on the wire, state and issuer exactly
      when these are fit to show and the registered URI's own pairs are harmless. */
  lemma CallbackReadsError(uri: Bytes, e: OAuthError, iss: Option<string>, opts: Options,
                           normalize: string -> Option<string>)
    requires opts.mode != Some(Jwt)
    ensures var location := InsertParams(uri, ErrorParams(e, Optional("iss", iss)), false);
            ParseText([QUESTION] + QueryOf(location), opts, normalize) ==
            Ok(ExpectedError(e, iss, ModeOr(opts, Query))) <==>
            ReadableError(e, iss) && Harmless(Parse(QueryOf(uri)), normalize)
  {
    var own, params := Parse(QueryOf(uri)), ErrorParams(e, Optional("iss", iss));
    var query := QueryOf(InsertParams(uri, params, false));
    assert Parse(query) == own + params by { InsertedQueryRoundTrip(uri, params); }
    assert ([QUESTION] + query)[1..] == query;
    ErrorParsed(own, e, iss, opts, ModeOr(opts, Query), normalize);
  }

  /** In fragment mode the pairs that matter are those of the URI's own fragment, if it has one. */
  lemma CallbackReadsErrorFragment(uri: Bytes, e: OAuthError, iss: Option<string>, opts: Options,
                                   normalize: string -> Option<string>)
    requires opts.mode != Some(Jwt)
    ensures var location := InsertParams(uri, ErrorParams(e, Optional("iss", iss)), true);
            ParseText(FragmentSuffix(location), opts, normalize) ==
            Ok(ExpectedError(e, iss, ModeOr(opts, Fragment))) <==>
            ReadableError(e, iss) && Harmless(Parse(FragmentOf(uri)), normalize)
  {
    var own, params := Parse(FragmentOf(uri)), ErrorParams(e, Optional("iss", iss));
    InsertedFragmentRoundTrip(uri, params);
    ReadFragment(FragmentSuffix(InsertParams(uri, params, true)), opts, normalize);
    ErrorParsed(own, e, iss, opts, ModeOr(opts, Fragment), normalize);
  }
}
