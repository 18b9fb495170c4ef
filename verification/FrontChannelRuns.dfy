/** The front channel over whole runs of the provider. */
module FrontChannelRuns {
  import opened Text
  import opened Utf8
  import opened FormEncoding
  import opened Requests
  import opened Redirect
  import opened Callback
  import opened FrontChannel
  import Provider
  import Tokens
  import ProviderInvariant

  lemma UriHasNoHash(cfg: Provider.Config, uri: string)
    requires Provider.UriAcceptable(cfg, uri)
    ensures HASH !in Encode(uri)
  {
    AsciiInBytes(uri, '#');
  }

  /** A state the provider accepts reaches the relying party unless it is empty or has a backslash. */
  lemma EchoedState(state: string)
    requires IsValidState(state)
    ensures Usable(Some(state)) <==> state != "" && '\\' !in state
  {
    if state != "" && '\\' !in state {
      assert forall i :: 0 <= i < |state| ==> ' ' <= state[i] <= '~' && state[i] in state;
    }
  }

  /** The redirect of a logged authorization response; `idToken` is the signed token, if any. */
  function LocationOf(cfg: Provider.Config, req: AuthorizationRequest, e: Provider.Event,
                      idToken: Option<string>): Bytes
    requires e.FrontChannel?
  {
    RedirectWith(Encode(req.redirectUri), ResponseParams(AnswerOf(cfg, req, e, idToken)), UseFragment(req))
  }

  function AnswerOf(cfg: Provider.Config, req: AuthorizationRequest, e: Provider.Event, idToken: Option<string>): Answer
    requires e.FrontChannel?
  {
    Answer(idToken, e.frontCode, e.frontAccess, cfg.accessTtl, req.state, cfg.emittedIss)
  }

  /** The request behind a logged response. */
  ghost predicate Answers(s: Provider.State, i: nat, req: AuthorizationRequest) {
    && i < |s.log| && s.log[i].FrontChannel? && s.log[i].grant < |s.grants|
    && s.grants[s.log[i].grant].UserGrant? && s.grants[s.log[i].grant].req == req
  }

  lemma AcceptedRequest(cfg: Provider.Config, actions: seq<Provider.Action>, i: nat, req: AuthorizationRequest)
    requires Tokens.Valid(cfg.codec) && Answers(Provider.Run(cfg, actions), i, req)
    ensures HASH !in Encode(req.redirectUri) && Provider.IssFits(cfg, req)
            && (req.state.Some? ==> IsValidState(req.state.value))
    ensures ValidateResponseType(req).Ok? && ValidateResponseMode(req).Ok?
    ensures var s := Provider.Run(cfg, actions); ProviderInvariant.EventElem(cfg, s, s.log[i])
  {
    ProviderInvariant.RunKeeps(cfg, actions);
    var s := Provider.Run(cfg, actions);
    assert ProviderInvariant.EventElem(cfg, s, s.log[i]);
    assert ProviderInvariant.GrantOk(cfg, s.grants[s.log[i].grant]);
    UriHasNoHash(cfg, req.redirectUri);
  }

  /** With emission on, every response of every run carries exactly one `iss`, the issuer. */
  lemma RunExactlyOneIss(cfg: Provider.Config, actions: seq<Provider.Action>, i: nat, req: AuthorizationRequest,
                         idToken: Option<string>)
    requires Tokens.Valid(cfg.codec) && Answers(Provider.Run(cfg, actions), i, req) && cfg.emittedIss.Some?
    ensures var location := LocationOf(cfg, req, Provider.Run(cfg, actions).log[i], idToken);
            Named(Parse(if UseFragment(req) then FragmentOf(location) else QueryOf(location)), "iss") ==
            [cfg.emittedIss.value]
  {
    AcceptedRequest(cfg, actions, i, req);
    ExactlyOneIss(Encode(req.redirectUri), AnswerOf(cfg, req, Provider.Run(cfg, actions).log[i], idToken),
                  cfg.emittedIss.value);
  }

  /** A response outside the fragment carries a code of its own grant and nothing else of value. */
  lemma QueryResponseIsCode(cfg: Provider.Config, actions: seq<Provider.Action>, i: nat, req: AuthorizationRequest)
    requires Tokens.Valid(cfg.codec) && Answers(Provider.Run(cfg, actions), i, req) && !UseFragment(req)
    ensures var s := Provider.Run(cfg, actions);
            var e := s.log[i];
            && e.idToken.None? && e.frontAccess.None? && e.frontCode.Some?
            && e.frontCode.value in s.minted && s.minted[e.frontCode.value].grant == e.grant
  {
    AcceptedRequest(cfg, actions, i, req);
    QueryCarriesOnlyCode(req);
  }

  /** Every query-mode response of every run is read back as the code minted in it, the state of its request
      and the issuer, exactly when the three are fit to show and the registered URI's own pairs are
      harmless. */
  lemma RunCallbacks(cfg: Provider.Config, actions: seq<Provider.Action>, i: nat, req: AuthorizationRequest,
                     opts: Options,
                     normalize: string -> Option<string>)
    requires Tokens.Valid(cfg.codec) && Answers(Provider.Run(cfg, actions), i, req) && !UseFragment(req)
    requires opts.mode != Some(Jwt)
    ensures var e := Provider.Run(cfg, actions).log[i];
            var outcome := ParseText([QUESTION] + QueryOf(LocationOf(cfg, req, e, None)), opts, normalize);
            outcome == Ok(Expected(AnswerOf(cfg, req, e, None), ModeOr(opts, Query))) <==>
            && Usable(e.frontCode) && EchoesState(req) && Usable(cfg.emittedIss)
            && Harmless(Parse(QueryOf(Encode(req.redirectUri))), normalize)
  {
    AcceptedRequest(cfg, actions, i, req);
    QueryResponseIsCode(cfg, actions, i, req);
    if req.state.Some? { EchoedState(req.state.value); }
    var m := AnswerOf(cfg, req, Provider.Run(cfg, actions).log[i], None);
    CallbackReadsLocation(Encode(req.redirectUri), m, opts, normalize);
  }

  predicate EchoesState(req: AuthorizationRequest) {
    req.state.Some? ==> req.state.value != "" && '\\' !in req.state.value
  }

  /** Every fragment response of every run with a code is read back the same way, whatever the URI's own
      query; one without a code is refused. */
  lemma RunFragmentCallbacks(cfg: Provider.Config, actions: seq<Provider.Action>, i: nat, req: AuthorizationRequest,
                             idToken: Option<string>, opts: Options, normalize: string -> Option<string>)
    requires Tokens.Valid(cfg.codec) && Answers(Provider.Run(cfg, actions), i, req) && UseFragment(req)
    requires opts.mode != Some(Jwt)
    ensures var e := Provider.Run(cfg, actions).log[i];
            var outcome := ParseText(FragmentSuffix(LocationOf(cfg, req, e, idToken)), opts, normalize);
            if WantsCode(req) && Usable(e.frontCode) && EchoesState(req) && Usable(cfg.emittedIss)
            then outcome == Ok(Expected(AnswerOf(cfg, req, e, idToken), ModeOr(opts, Fragment))) else outcome.Err?
  {
    AcceptedRequest(cfg, actions, i, req);
    if req.state.Some? { EchoedState(req.state.value); }
    var m := AnswerOf(cfg, req, Provider.Run(cfg, actions).log[i], idToken);
    CallbackReadsFragment(Encode(req.redirectUri), m, opts, normalize);
  }
}
