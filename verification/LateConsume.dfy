/** Why single use is stated before expiry: a request that opens a code in time but reaches the store at or
    after the code's expiry finds the first reservation already run out, and is answered too, so one
    code has two refresh tokens descending from it. */
module LateConsume {
  import opened Text
  import opened Requests
  import opened Clients
  import opened Tokens
  import opened Claims
  import opened Provider
  import opened ProviderInvariant
  import opened SingleUse
  import opened RefreshFamily
  import opened UseKeys
  import TokenUse

  const GRANTS := ["authorization_code", "refresh_token"]
  const CLIENT := Client("c", ["u"], [CODE], GRANTS, "client_secret_basic", None, "public")
  const REQUEST := AuthorizationRequest("c", "u", CODE, "", None, None, None, None, None, None)

  ghost function WitnessConfig(): Config {
    Config(TokenCodec(["k"]), 10, 10, 10, (s: string) => s, (s: string) => true, false, true, None)
  }

  lemma CodeTypeFacts()
    ensures ResponseTypeEq(CODE, CODE) && Supported(CODE) && Words(CODE) == [CODE]
  {
    SplitOne(CODE);
    assert SplitOn(CODE, ' ') == [CODE];
    assert ResponseTypeEq(CODE, SupportedType(0));
    SplittersAgree(REQUEST);
  }

  lemma WitnessWants()
    ensures WantsCode(REQUEST) && !WantsIdToken(REQUEST) && !WantsAccessToken(REQUEST)
  {
    CodeTypeFacts();
    assert |CODE| == 4 && |ID_TOKEN| == 8 && |TOKEN| == 5;
  }

  lemma WitnessAccepted()
    ensures RequestAccepted(WitnessConfig(), CLIENT, REQUEST) && IssFits(WitnessConfig(), REQUEST)
  {
    CodeTypeFacts();
    WitnessWants();
    assert ResponseTypeEq(CLIENT.responseTypes[0], REQUEST.responseType);
  }

  /** Taking a list of steps from a state. */
  ghost function Steps(cfg: Config, s: State, actions: seq<Action>): State
    requires Valid(cfg.codec)
    decreases actions
  {
    if actions == [] then s else Steps(cfg, Step(cfg, s, actions[0]), actions[1..])
  }

  lemma {:induction false} Extend(cfg: Config, actions: seq<Action>, more: seq<Action>)
    requires Valid(cfg.codec)
    ensures Run(cfg, actions + more) == Steps(cfg, Run(cfg, actions), more)
    decreases more
  {
    if more == [] {
      assert actions + more == actions;
    } else {
      var next := actions + [more[0]];
      assert next[..|next| - 1] == actions && next + more[1..] == actions + more;
      Extend(cfg, next, more[1..]);
    }
  }

  lemma {:induction false} StepsConcat(cfg: Config, s: State, a: seq<Action>, b: seq<Action>)
    requires Valid(cfg.codec)
    ensures Steps(cfg, s, a + b) == Steps(cfg, Steps(cfg, s, a), b)
    decreases a
  {
    if a == [] {
      assert a + b == b;
    } else {
      assert (a + b)[1..] == a[1..] + b;
      StepsConcat(cfg, Step(cfg, s, a[0]), a[1..], b);
    }
  }

  /** Some list of steps leads from `s` to `t`. */
  ghost predicate Leads(cfg: Config, s: State, t: State)
    requires Valid(cfg.codec)
  {
    exists actions :: Steps(cfg, s, actions) == t
  }

  lemma LeadsOn(cfg: Config, s: State, t: State, u: State)
    requires Valid(cfg.codec) && Leads(cfg, s, t) && Leads(cfg, t, u)
    ensures Leads(cfg, s, u)
  {
    var a :| Steps(cfg, s, a) == t;
    var b :| Steps(cfg, t, b) == u;
    StepsConcat(cfg, s, a, b);
    assert Steps(cfg, s, a + b) == u;
  }

  lemma LeadsOne(cfg: Config, s: State, a: Action)
    requires Valid(cfg.codec)
    ensures Leads(cfg, s, Step(cfg, s, a))
  {
    var t := Step(cfg, s, a);
    assert [a][1..] == [];
    assert Steps(cfg, s, [a]) == Steps(cfg, t, []) == t;
  }

  lemma LeadsTwo(cfg: Config, s: State, a: Action, b: Action)
    requires Valid(cfg.codec)
    ensures Leads(cfg, s, Step(cfg, Step(cfg, s, a), b))
  {
    LeadsOne(cfg, s, a);
    LeadsOne(cfg, Step(cfg, s, a), b);
    LeadsOn(cfg, s, Step(cfg, s, a), Step(cfg, Step(cfg, s, a), b));
  }

  /** A code waiting, unconsumed, with its authorization on file. */
  ghost predicate CodeReady(s: State, x: string, code: AuthCode) {
    && x in s.minted && s.minted[x].envelope == Envelope("k", Code(code))
    && code.clientId == "c" && code.redirectUri == "u" && code.challenge.None? && s.now < code.exp
  }

  function Begun(x: string, code: AuthCode, stage: Stage): Pending {
    Pending(CLIENT, x, CodeExchange(code, None, Some("u")), None, stage)
  }

  /** A code at the head of its family. */
  ghost predicate IsRoot(s: State, x: string) {
    x in s.minted && PayloadOf(s, x).Code? && s.minted[x].family == Some(x)
  }

  ghost predicate IsChild(s: State, t: string, x: string) {
    t in s.minted && PayloadOf(s, t).Refresh? && s.minted[t].parent == Some(x) && s.minted[t].family == Some(x)
  }

  /** Two requests on one code, each at its own stage. */
  ghost predicate Both(s: State, x: string, code: AuthCode, first: Stage, second: Stage) {
    && s.pending == map[1 := Begun(x, code, first), 2 := Begun(x, code, second)]
    && s.minted.Keys == {x} && IsRoot(s, x)
  }

  /** Two requests may both pass every check on the same code. */
  lemma BothBegin(s: State, x: string, code: AuthCode) returns (t: State)
    requires CodeReady(s, x, code) && s.pending == map[] && s.minted.Keys == {x} && IsRoot(s, x)
    ensures Leads(WitnessConfig(), s, t) && Both(t, x, code, Checked, Checked) && t == s.(pending := t.pending)
  {
    var a1, a2 := BeginCode(1, CLIENT, x, Some("u"), None, None), BeginCode(2, CLIENT, x, Some("u"), None, None);
    t := BeginCodeStep(WitnessConfig(), BeginCodeStep(WitnessConfig(), s, a1), a2);
    LeadsTwo(WitnessConfig(), s, a1, a2);
    assert CLIENT.authMethod != AUTH_NONE by { assert |CLIENT.authMethod| == 19 && |AUTH_NONE| == 4; }
  }

  lemma BothClocked(s: State, x: string, code: AuthCode) returns (t: State)
    requires Both(s, x, code, Checked, Checked)
    ensures Leads(WitnessConfig(), s, t) && Both(t, x, code, Clocked(s.now), Clocked(s.now))
            && t == s.(pending := t.pending)
  {
    t := ReadClockStep(ReadClockStep(s, 1), 2);
    LeadsTwo(WitnessConfig(), s, ReadClock(1), ReadClock(2));
  }

  lemma BothTimed(s: State, x: string, code: AuthCode) returns (t: State)
    requires Both(s, x, code, Clocked(s.now), Clocked(s.now)) && code.exp == s.now + 10
    ensures Leads(WitnessConfig(), s, t) && Both(t, x, code, Timed(s.now, 10), Timed(s.now, 10))
            && t == s.(pending := t.pending)
  {
    t := ComputeTtlStep(ComputeTtlStep(s, 1), 2);
    LeadsTwo(WitnessConfig(), s, ComputeTtl(1), ComputeTtl(2));
  }

  lemma ConsumesFirst(s: State, x: string, code: AuthCode) returns (t: State)
    requires code.exp == s.now + 10 && s.store == TokenUse.EMPTY
    requires Both(s, x, code, Entered(s.now, 10, s.now), Timed(s.now, 10))
    ensures Leads(WitnessConfig(), s, t) && Both(t, x, code, Used(s.now), Timed(s.now, 10)) && t.now == s.now
    ensures t.store.entries == map[UseKey(KIND_CODE, x) := code.exp]
    ensures t.log == s.log + [Use(x, code.exp, s.now, code.exp, true)]
  {
    t := ConsumeStep(WitnessConfig(), s, 1);
    LeadsOne(WitnessConfig(), s, Consume(1));
  }

  /** The first consume wins and reserves the code until its expiry. */
  lemma FirstWins(s: State, x: string, code: AuthCode) returns (t: State)
    requires code.exp == s.now + 10 && s.store == TokenUse.EMPTY && Both(s, x, code, Timed(s.now, 10), Timed(s.now, 10))
    ensures Leads(WitnessConfig(), s, t) && Both(t, x, code, Used(s.now), Timed(s.now, 10)) && t.now == s.now
    ensures t.store.entries == map[UseKey(KIND_CODE, x) := code.exp]
    ensures t.log == s.log + [Use(x, code.exp, s.now, code.exp, true)]
  {
    var cfg, m := WitnessConfig(), EnterStoreStep(s, 1);
    assert Leads(cfg, s, m) by { LeadsOne(cfg, s, EnterStore(1)); }
    assert Both(m, x, code, Entered(s.now, 10, s.now), Timed(s.now, 10)) && m == s.(pending := m.pending);
    t := ConsumesFirst(m, x, code);
    LeadsOn(cfg, s, m, t);
  }

  /** At the very second the code expires the next one wins as well. */
  lemma SecondWins(s: State, x: string, code: AuthCode, r: nat) returns (t: State)
    requires code.exp == s.now && Both(s, x, code, Used(r), Timed(r, 10))
    requires s.store.entries == map[UseKey(KIND_CODE, x) := code.exp]
    ensures Leads(WitnessConfig(), s, t) && Both(t, x, code, Used(r), Used(r))
    ensures t.log == s.log + [Use(x, code.exp, s.now, s.now + 10, true)]
  {
    t := ConsumeStep(WitnessConfig(), EnterStoreStep(s, 2), 2);
    LeadsTwo(WitnessConfig(), s, EnterStore(2), Consume(2));
  }

  lemma OneAnswers(s: State, x: string, id: nat, access: string, refresh: string) returns (t: State)
    requires id in s.pending && s.pending[id].stage.Used? && s.pending[id].token == x && IsRoot(s, x)
    requires s.pending[id].client == CLIENT
    requires access !in s.minted && refresh !in s.minted && access != refresh
    ensures Leads(WitnessConfig(), s, t) && |t.log| == |s.log| + 1 && s.log <= t.log && IsAnswer(t.log[|s.log|], x)
    ensures t.pending == s.pending - {id} && t.minted.Keys <= s.minted.Keys + {access, refresh}
    ensures IsChild(t, refresh, x) && forall k :: k in s.minted ==> k in t.minted && t.minted[k] == s.minted[k]
  {
    t := FinishStep(WitnessConfig(), s, Finish(id, access, refresh));
    LeadsOne(WitnessConfig(), s, Finish(id, access, refresh));
  }

  /** Both requests go on to answer. */
  lemma BothAnswer(s: State, x: string, code: AuthCode, r: nat, names: seq<string>) returns (t: State)
    requires Both(s, x, code, Used(r), Used(r)) && |names| == 4 && x !in names
    requires forall i, j :: 0 <= i < j < 4 ==> names[i] != names[j]
    ensures Leads(WitnessConfig(), s, t) && |t.log| == |s.log| + 2 && s.log <= t.log
    ensures IsAnswer(t.log[|s.log|], x) && IsAnswer(t.log[|s.log| + 1], x)
    ensures IsRoot(t, x) && IsChild(t, names[1], x) && IsChild(t, names[3], x)
  {
    var m := OneAnswers(s, x, 1, names[0], names[1]);
    t := OneAnswers(m, x, 2, names[2], names[3]);
    LeadsOn(WitnessConfig(), s, m, t);
  }

  /** Ten seconds pass between the two consume steps, and then both are answered. */
  lemma LateAnswers(s: State, x: string, code: AuthCode, names: seq<string>) returns (t: State)
    requires code.exp == s.now + 10 && s.store == TokenUse.EMPTY && Both(s, x, code, Timed(s.now, 10), Timed(s.now, 10))
    requires |names| == 4 && x !in names && forall i, j :: 0 <= i < j < 4 ==> names[i] != names[j]
    ensures Leads(WitnessConfig(), s, t)
    ensures var n := |s.log|;
            && |t.log| == n + 4 && IsWin(t.log[n], x) && IsWin(t.log[n + 1], x) && t.log[n + 1].at == t.log[n + 1].exp
            && IsAnswer(t.log[n + 2], x) && IsAnswer(t.log[n + 3], x)
    ensures IsRoot(t, x) && IsChild(t, names[1], x) && IsChild(t, names[3], x)
  {
    var cfg := WitnessConfig();
    var s1 := FirstWins(s, x, code);
    var s2 := s1.(now := s1.now + 10);
    assert Leads(cfg, s1, s2) by { LeadsOne(cfg, s1, Tick(10)); }
    var s3 := SecondWins(s2, x, code, s.now);
    t := BothAnswer(s3, x, code, s.now, names);
    LeadsOn(cfg, s, s1, s2);
    LeadsOn(cfg, s, s2, s3);
    LeadsOn(cfg, s, s3, t);
  }

  function GrantFor(a: Action, now: nat): Grant
    requires a.Authorize?
  {
    UserGrant(a.client, a.req, a.sub, MintedClaims(a.req.scope, a.released, a.extra), a.acr,
              if a.authTime.Some? then a.authTime.value else now)
  }

  /** An accepted request for a code alone mints just that code. */
  lemma CodeOnly(cfg: Config, s: State, a: Action) returns (t: State)
    requires Valid(cfg.codec) && a.Authorize? && RequestAccepted(cfg, a.client, a.req) && IssFits(cfg, a.req)
             && a.sub != ""
    requires a.code !in s.minted && a.access !in s.minted && a.code != a.access
    requires WantsCode(a.req) && !WantsIdToken(a.req) && !WantsAccessToken(a.req)
    ensures Leads(cfg, s, t) && t.minted.Keys == s.minted.Keys + {a.code} && IsRoot(t, a.code)
    ensures t.minted[a.code].envelope == Seal(cfg.codec, Code(CodeFor(GrantFor(a, s.now), s.now + cfg.codeTtl)))
    ensures t.pending == s.pending && t.store == s.store && t.now == s.now && |t.log| == |s.log| + 1
  {
    t := AuthorizeStep(cfg, s, a);
    LeadsOne(cfg, s, a);
  }

  lemma AfterAuthorize() returns (t: State, code: AuthCode)
    ensures Leads(WitnessConfig(), INITIAL, t)
    ensures CodeReady(t, "x", code) && t.pending == map[] && t.minted.Keys == {"x"} && IsRoot(t, "x")
    ensures t.store == TokenUse.EMPTY && |t.log| == 1 && t.now == 0 && code.exp == 10
  {
    var cfg := WitnessConfig();
    var a := Authorize(REQUEST, CLIENT, "a", map[], map[], None, None, "x", "y");
    WitnessAccepted();
    WitnessWants();
    assert a.code[0] != a.access[0];
    t := CodeOnly(cfg, INITIAL, a);
    code := CodeFor(GrantFor(a, 0), 10);
  }

  /** Both requests have their TTL. */
  lemma AfterTtl() returns (t: State, code: AuthCode)
    ensures Leads(WitnessConfig(), INITIAL, t) && Both(t, "x", code, Timed(0, 10), Timed(0, 10))
    ensures t.store == TokenUse.EMPTY && |t.log| == 1 && t.now == 0 && code.exp == 10
  {
    var s0, c := AfterAuthorize();
    code := c;
    var s1 := BothBegin(s0, "x", code);
    var s2 := BothClocked(s1, "x", code);
    t := BothTimed(s2, "x", code);
    LeadsOn(WitnessConfig(), INITIAL, s0, s1);
    LeadsOn(WitnessConfig(), INITIAL, s1, s2);
    LeadsOn(WitnessConfig(), INITIAL, s2, t);
  }

  lemma ChildPath(s: State, t: string, x: string)
    requires IsRoot(s, x) && IsChild(s, t, x)
    ensures PathTo(s, [x, t], t)
  {
  }

  const NAMES: seq<string> := ["p", "q", "r", "t"]

  lemma NamesDiffer()
    ensures "x" !in NAMES && forall i, j :: 0 <= i < j < 4 ==> NAMES[i] != NAMES[j]
  {
    assert forall i :: 0 <= i < 4 ==> NAMES[i][0] == ['p', 'q', 'r', 't'][i];
  }

  /** A run of one authorization and two interleaved token requests in which one code is consumed twice,
      the second time in the very second it expires, and answered twice: its family is no chain. */
  lemma OneCodeAnsweredTwice() returns (actions: seq<Action>)
    ensures ValidConfig(WitnessConfig())
    ensures var log := Run(WitnessConfig(), actions).log;
            && |log| == 5 && IsWin(log[1], "x") && IsWin(log[2], "x") && log[2].at == log[2].exp
            && IsAnswer(log[3], "x") && IsAnswer(log[4], "x")
    ensures var s := Run(WitnessConfig(), actions);
            PathTo(s, ["x", "q"], "q") && PathTo(s, ["x", "t"], "t") && !(["x", "q"] <= ["x", "t"])
  {
    var s, code := AfterTtl();
    NamesDiffer();
    var t := LateAnswers(s, "x", code, NAMES);
    LeadsOn(WitnessConfig(), INITIAL, s, t);
    actions :| Steps(WitnessConfig(), INITIAL, actions) == t;
    assert Run(WitnessConfig(), actions) == t by {
      Extend(WitnessConfig(), [], actions);
      assert [] + actions == actions;
    }
    assert "q" == NAMES[1] && "t" == NAMES[3];
    ChildPath(t, "q", "x");
    ChildPath(t, "t", "x");
  }
}
