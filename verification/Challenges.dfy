/** `WWW-Authenticate` challenges: the parser that looks for an OAuth error in them, and a printer it undoes. */
module Challenges {
  import opened Text
  import opened HeaderLists

  datatype Challenge = Challenge(scheme: string, params: seq<(string, string)>, malformed: bool)

  /** Index of the first `=` or ASCII whitespace, or the length. */
  function NameEnd(s: string): (n: nat)
    ensures n <= |s|
    ensures forall i :: 0 <= i < n ==> s[i] != '=' && !IsAsciiWhitespace(s[i])
    ensures n < |s| ==> s[n] == '=' || IsAsciiWhitespace(s[n])
  {
    if s == [] || s[0] == '=' || IsAsciiWhitespace(s[0]) then 0 else 1 + NameEnd(s[1..])
  }

  /** Reads a quoted string after its opening quote: its value and what follows the closing quote. */
  function Unquote(s: string): Option<(string, string)> {
    if s == [] then None
    else if s[0] == '"' then Some(("", s[1..]))
    else if s[0] == '\\' then
      if |s| == 1 then None
      else match Unquote(s[2..]) case None => None case Some(r) => Some(([s[1]] + r.0, r.1))
    else match Unquote(s[1..]) case None => None case Some(r) => Some(([s[0]] + r.0, r.1))
  }

  ghost predicate UnquoteProgress(quoted: string, val: string, i: nat)
    requires i <= |quoted|
  {
    Unquote(quoted) ==
    match Unquote(quoted[i..])
    case None => None
    case Some(r) => Some((val + r.0, r.1))
  }

  lemma UnquoteStep(quoted: string, val: string, i: nat)
    requires i < |quoted| && UnquoteProgress(quoted, val, i)
    ensures quoted[i] != '"' && quoted[i] != '\\' ==> UnquoteProgress(quoted, val + [quoted[i]], i + 1)
    ensures quoted[i] == '\\' && i + 1 < |quoted| ==> UnquoteProgress(quoted, val + [quoted[i + 1]], i + 2)
    ensures quoted[i] == '\\' && i + 1 == |quoted| ==> Unquote(quoted) == None
    ensures quoted[i] == '"' ==> Unquote(quoted) == Some((val, quoted[i + 1..]))
  {
    var rest := quoted[i..];
    assert rest[1..] == quoted[i + 1..];
    if quoted[i] == '"' {
      assert val + "" == val;
    } else if quoted[i] == '\\' {
      if i + 1 < |quoted| {
        assert rest[2..] == quoted[i + 2..] && rest[1] == quoted[i + 1];
        Regroup(val, quoted[i + 1], Unquote(quoted[i + 2..]));
      }
    } else {
      Regroup(val, quoted[i], Unquote(quoted[i + 1..]));
    }
  }

  lemma Regroup(val: string, c: char, r: Option<(string, string)>)
    ensures r.Some? ==> val + ([c] + r.value.0) == val + [c] + r.value.0
  {
  }

  /** The character loop over a quoted string. */
  method ReadQuoted(quoted: string) returns (r: Option<(string, string)>)
    ensures r == Unquote(quoted)
  {
    var val, i := "", 0;
    assert quoted[0..] == quoted;
    assert Unquote(quoted).Some? ==> "" + Unquote(quoted).value.0 == Unquote(quoted).value.0;
    while i < |quoted|
      invariant i <= |quoted| && UnquoteProgress(quoted, val, i)
    {
      UnquoteStep(quoted, val, i);
      var c := quoted[i];
      if c == '\\' {
        if i + 1 == |quoted| {
          return None;
        }
        val, i := val + [quoted[i + 1]], i + 2;
      } else if c == '"' {
        return Some((val, quoted[i + 1..]));
      } else {
        val, i := val + [c], i + 1;
      }
    }
    assert quoted[|quoted|..] == "";
    return None;
  }

  function AsciiWord(s: string): string {
    if s == [] || IsAsciiWhitespace(s[0]) then "" else [s[0]] + AsciiWord(s[1..])
  }

  /** The value of an auth-param, after its `=`. */
  function ParamValue(rest: string): Option<string> {
    if rest != [] && rest[0] == '"' then
      match Unquote(rest[1..])
      case None => None
      case Some(r) => if Trim(r.1) == "" then Some(r.0) else None
    else if AsciiWord(rest) == "" then None
    else Some(AsciiWord(rest))
  }

  /** One `name=value`; None when malformed. */
  function ParseAuthParam(text: string): Option<(string, string)> {
    var item := Trim(text);
    var n := NameEnd(item);
    var rest := TrimStart(item[n..]);
    if n == 0 || rest == [] || rest[0] != '=' then None
    else
      match ParamValue(TrimStart(rest[1..]))
      case None => None
      case Some(v) => Some((item[..n], v))
  }

  /** Adds a parameter, or its malformation, to a challenge. */
  function AddParam(c: Challenge, text: string): Challenge {
    match ParseAuthParam(text)
    case Some(p) => c.(params := c.params + [p])
    case None => c.(malformed := true)
  }

  /** What one list element does to the challenges read so far. */
  function ReadItem(challenges: seq<Challenge>, text: string): seq<Challenge> {
    var item := Trim(text);
    if item == "" then challenges
    else
      var n := NameEnd(item);
      var after := TrimStart(item[n..]);
      if after != [] && after[0] == '=' then
        if challenges == [] then challenges
        else
          var last := |challenges| - 1;
          challenges[last := AddParam(challenges[last], item)]
      else
        var c := Challenge(item[..n], [], false);
        challenges + [if '=' in after then AddParam(c, after) else c]
  }

  function ReadItems(challenges: seq<Challenge>, items: seq<string>): seq<Challenge>
    decreases items
  {
    if items == [] then challenges else ReadItems(ReadItem(challenges, items[0]), items[1..])
  }

  function FindParam(params: seq<(string, string)>, key: string): Option<string> {
    if params == [] then None
    else if EqIgnoreCase(params[0].0, key) then Some(params[0].1)
    else FindParam(params[1..], key)
  }

  predicate IsOAuthScheme(c: Challenge) { EqIgnoreCase(c.scheme, "bearer") || EqIgnoreCase(c.scheme, "dpop") }

  /** The `error` and `error_description` of one challenge. */
  function ErrorOf(c: Challenge): (Option<string>, Option<string>) {
    (FindParam(c.params, "error"), FindParam(c.params, "error_description"))
  }

  predicate CarriesError(c: Challenge) {
    !c.malformed && IsOAuthScheme(c) && (ErrorOf(c).0.Some? || ErrorOf(c).1.Some?)
  }

  predicate IsFirstError(challenges: seq<Challenge>, i: nat)
    requires i < |challenges|
  {
    CarriesError(challenges[i]) && forall j :: 0 <= j < i ==> !CarriesError(challenges[j])
  }

  /** The error of the first OAuth challenge that has one. */
  function FirstError(challenges: seq<Challenge>): (r: Option<(Option<string>, Option<string>)>)
    ensures r.Some? <==> exists i :: 0 <= i < |challenges| && CarriesError(challenges[i])
    ensures r.Some? ==>
              exists i :: 0 <= i < |challenges| && IsFirstError(challenges, i) && r.value == ErrorOf(challenges[i])
  {
    if challenges == [] then None
    else if CarriesError(challenges[0]) then Some(ErrorOf(challenges[0]))
    else
      var r := FirstError(challenges[1..]);
      assert forall i :: 0 <= i < |challenges[1..]| ==> challenges[1..][i] == challenges[i + 1];
      assert forall i :: 0 <= i < |challenges[1..]| && IsFirstError(challenges[1..], i) ==>
                           IsFirstError(challenges, i + 1);
      r
  }

  function ParseHeader(value: string): Option<(Option<string>, Option<string>)> {
    FirstError(ReadItems([], Split(Plain, value)))
  }

  method ReadAuthParam(text: string) returns (r: Option<(string, string)>)
    ensures r == ParseAuthParam(text)
  {
    var item := Trim(text);
    var n := NameEnd(item);
    var rest := TrimStart(item[n..]);
    if n == 0 || rest == [] || rest[0] != '=' {
      return None;
    }
    rest := TrimStart(rest[1..]);
    if rest != [] && rest[0] == '"' {
      var quoted := ReadQuoted(rest[1..]);
      if quoted.None? || Trim(quoted.value.1) != "" {
        return None;
      }
      return Some((item[..n], quoted.value.0));
    }
    var token := AsciiWord(rest);
    if token == "" {
      return None;
    }
    return Some((item[..n], token));
  }

  method PushParam(c: Challenge, text: string) returns (r: Challenge)
    ensures r == AddParam(c, text)
  {
    var param := ReadAuthParam(text);
    if param.Some? {
      return c.(params := c.params + [param.value]);
    }
    return c.(malformed := true);
  }

  /** One list element: a further parameter of the current challenge, or a new challenge. */
  method ReadElement(challenges: seq<Challenge>, text: string) returns (r: seq<Challenge>)
    ensures r == ReadItem(challenges, text)
  {
    var item := Trim(text);
    if item == "" {
      return challenges;
    }
    var n := NameEnd(item);
    var after := TrimStart(item[n..]);
    if after != [] && after[0] == '=' {
      if challenges == [] {
        return challenges;
      }
      var last := |challenges| - 1;
      var current := PushParam(challenges[last], item);
      return challenges[last := current];
    }
    var c := Challenge(item[..n], [], false);
    if '=' in after {
      c := PushParam(c, after);
    }
    return challenges + [c];
  }

  method ParseWwwAuthenticateBearer(value: string) returns (r: Option<(Option<string>, Option<string>)>)
    ensures r == ParseHeader(value)
  {
    var items := SplitUnquotedCommas(value);
    var challenges: seq<Challenge> := [];
    for k := 0 to |items|
      invariant ReadItems([], items) == ReadItems(challenges, items[k..])
    {
      assert items[k..][1..] == items[k + 1..];
      challenges := ReadElement(challenges, items[k]);
    }
    for k := 0 to |challenges|
      invariant FirstError(challenges) == FirstError(challenges[k..])
    {
      assert challenges[k..][1..] == challenges[k + 1..];
      var c := challenges[k];
      if c.malformed || !IsOAuthScheme(c) {
        continue;
      }
      var error, description := FindParam(c.params, "error"), FindParam(c.params, "error_description");
      if error.Some? || description.Some? {
        return Some((error, description));
      }
    }
    return None;
  }

  // ---- Printing -------------------------------------------------------------

  function PrintParam(p: (string, string)): string { p.0 + "=" + Quote(p.1) }

  function PrintParams(params: seq<(string, string)>): seq<string> {
    if params == [] then [] else [PrintParam(params[0])] + PrintParams(params[1..])
  }

  /** The list elements of one challenge. */
  function Items(c: Challenge): seq<string> {
    if c.params == [] then [c.scheme]
    else [c.scheme + " " + PrintParam(c.params[0])] + PrintParams(c.params[1..])
  }

  function AllItems(cs: seq<Challenge>): seq<string> {
    if cs == [] then [] else Items(cs[0]) + AllItems(cs[1..])
  }

  function Print(cs: seq<Challenge>): string { Join(AllItems(cs), ", ") }

  /** Scheme and names are tokens; values are any text at all. */
  ghost predicate Printable(c: Challenge) {
    && !c.malformed && IsToken(c.scheme)
    && forall i :: 0 <= i < |c.params| ==> IsToken(c.params[i].0)
  }

  lemma {:induction false} UnquoteQuoted(v: string)
    ensures Unquote(Escape(v) + "\"") == Some((v, ""))
  {
    var s := Escape(v) + "\"";
    if v == [] {
      assert s == "\"" && s[1..] == "";
    } else {
      UnquoteQuoted(v[1..]);
      var tail := Escape(v[1..]) + "\"";
      assert v == [v[0]] + v[1..];
      if v[0] == '"' || v[0] == '\\' {
        assert s == ['\\', v[0]] + tail;
        assert s[2..] == tail;
      } else {
        assert s == [v[0]] + tail;
        assert s[1..] == tail;
      }
    }
  }

  lemma NameEndOfToken(name: string, rest: string)
    requires IsToken(name) && (rest == [] || rest[0] == '=' || IsAsciiWhitespace(rest[0]))
    ensures NameEnd(name + rest) == |name|
  {
    var s := name + rest;
    assert forall i :: 0 <= i < |name| ==> s[i] == name[i] && IsTokenChar(name[i]);
    assert rest != [] ==> s[|name|] == rest[0];
  }

  lemma ParamIsSolid(p: (string, string))
    requires IsToken(p.0)
    ensures Solid(PrintParam(p))
  {
    var item := PrintParam(p);
    QuoteIsElement(p.1);
    BareIsElement(p.0 + "=");
    ElementConcat(p.0 + "=", Quote(p.1));
    assert item == (p.0 + "=") + Quote(p.1);
    assert item[|item| - 1] == '"' && item[0] == p.0[0];
  }

  /** The shape of a parameter: a name, an equals sign and a closed quoted string. */
  lemma ParamShape(item: string, n: nat, q: string, v: string)
    requires Trim(item) == item && 0 < n < |item| && NameEnd(item) == n
    requires item[n] == '=' && item[n + 1..] == q
    requires q != [] && q[0] == '"' && Unquote(q[1..]) == Some((v, ""))
    ensures ParseAuthParam(item) == Some((item[..n], v))
  {
    var rest := item[n..];
    assert rest[0] == '=' && rest[1..] == q;
    assert TrimStart(rest) == rest && TrimStart(q) == q;
    assert Trim("") == "";
  }

  lemma ParamNameEnd(p: (string, string))
    requires IsToken(p.0)
    ensures NameEnd(PrintParam(p)) == |p.0| && PrintParam(p)[|p.0|] == '='
    ensures PrintParam(p)[..|p.0|] == p.0 && PrintParam(p)[|p.0| + 1..] == Quote(p.1)
  {
    var rest := "=" + Quote(p.1);
    assert PrintParam(p) == p.0 + rest;
    NameEndOfToken(p.0, rest);
    assert (p.0 + rest)[|p.0|] == rest[0];
    assert (p.0 + rest)[|p.0| + 1..] == rest[1..] == Quote(p.1);
  }

  /** Parsing undoes printing a parameter, whatever its value. */
  lemma ParamRoundTrip(p: (string, string))
    requires IsToken(p.0)
    ensures ParseAuthParam(PrintParam(p)) == Some(p)
  {
    ParamIsSolid(p);
    TrimIdentity(PrintParam(p));
    ParamNameEnd(p);
    UnquoteQuoted(p.1);
    assert Quote(p.1)[1..] == Escape(p.1) + "\"";
    ParamShape(PrintParam(p), |p.0|, Quote(p.1), p.1);
  }

  lemma {:induction false} AsciiWordOfToken(v: string)
    requires forall i :: 0 <= i < |v| ==> IsTokenChar(v[i])
    ensures AsciiWord(v) == v
  {
    if v != [] {
      AsciiWordOfToken(v[1..]);
      assert v == [v[0]] + v[1..];
    }
  }

  /** A bare token value is read as it stands. */
  lemma TokenParamReads(name: string, v: string)
    requires IsToken(name) && IsToken(v)
    ensures ParseAuthParam(name + "=" + v) == Some((name, v))
  {
    var rest := "=" + v;
    var item := name + "=" + v;
    assert item == name + rest;
    assert Trim(item) == item by {
      assert IsTokenChar(name[0]) && IsTokenChar(v[|v| - 1]);
      assert item[0] == name[0] && item[|item| - 1] == v[|v| - 1];
      TrimIdentity(item);
    }
    assert NameEnd(item) == |name| by { NameEndOfToken(name, rest); }
    assert item[|name|..] == rest && item[..|name|] == name && rest[1..] == v;
    assert IsTokenChar(v[0]) && AsciiWord(v) == v by { AsciiWordOfToken(v); }
    TokenShape(item, |name|, rest, v);
  }

  /** The shape of a bare parameter: a name, an equals sign and a token. */
  lemma TokenShape(item: string, n: nat, rest: string, v: string)
    requires Trim(item) == item && 0 < n < |item| && NameEnd(item) == n && item[n..] == rest
    requires rest != [] && rest[0] == '=' && rest[1..] == v
    requires v != [] && !IsWhitespace(v[0]) && v[0] != '"' && AsciiWord(v) == v
    ensures ParseAuthParam(item) == Some((item[..n], v))
  {
    assert TrimStart(rest) == rest && TrimStart(v) == v;
  }

  // ---- Values that are not as printed ------------------------------------------------------

  lemma {:induction false} UnquoteFollowed(v: string, junk: string)
    ensures Unquote(Escape(v) + "\"" + junk) == Some((v, junk))
  {
    var s := Escape(v) + "\"" + junk;
    if v == "" {
      assert s[0] == '"' && s[1..] == junk;
    } else {
      UnquoteFollowed(v[1..], junk);
      var rest := Escape(v[1..]) + "\"" + junk;
      assert v == [v[0]] + v[1..];
      if v[0] == '"' || v[0] == '\\' {
        assert s[0] == '\\' && s[1] == v[0] && s[2..] == rest;
      } else {
        assert s[0] == v[0] && s[1..] == rest;
      }
    }
  }

  /** Only whitespace may follow a quoted value. */
  lemma QuotedValueExactly(v: string, junk: string)
    ensures ParamValue(Quote(v) + junk) == if Trim(junk) == "" then Some(v) else None
  {
    var rest := Quote(v) + junk;
    UnquoteFollowed(v, junk);
    assert rest[0] == '"' && rest[1..] == Escape(v) + "\"" + junk;
  }

  lemma {:induction false} AsciiWordStops(v: string, rest: string)
    requires (forall i :: 0 <= i < |v| ==> !IsAsciiWhitespace(v[i])) && (rest == "" || IsAsciiWhitespace(rest[0]))
    ensures AsciiWord(v + rest) == v
    decreases v
  {
    if v == "" {
      assert v + rest == rest;
    } else {
      assert (v + rest)[1..] == v[1..] + rest && v == [v[0]] + v[1..];
      AsciiWordStops(v[1..], rest);
    }
  }

  /** A bare value runs to the first whitespace, and must not be empty. */
  lemma BareValueExactly(v: string, rest: string)
    requires (forall i :: 0 <= i < |v| ==> !IsAsciiWhitespace(v[i])) && (rest == "" || IsAsciiWhitespace(rest[0]))
    requires v != "" ==> v[0] != '"'
    ensures ParamValue(v + rest) == if v == "" then None else Some(v)
  {
    AsciiWordStops(v, rest);
    if v == "" {
      assert v + rest == rest;
    } else {
      assert (v + rest)[0] == v[0];
    }
  }

  /** A parameter needs a name and an equals sign after it. */
  lemma ParamNeedsEquals(text: string)
    ensures '=' !in text ==> ParseAuthParam(text) == None
    ensures Trim(text) == "" ==> ParseAuthParam(text) == None
    ensures Trim(text) != "" && Trim(text)[0] == '=' ==> ParseAuthParam(text) == None
  {
    var item := Trim(text);
    TrimKeeps(text, '=');
    TrimStartKeeps(item[NameEnd(item)..], '=');
  }

  lemma {:induction false} TrimStartKeeps(s: string, c: char)
    ensures c in TrimStart(s) ==> c in s
  {
    if s != [] && IsWhitespace(s[0]) {
      TrimStartKeeps(s[1..], c);
      assert s == [s[0]] + s[1..];
    }
  }

  lemma {:induction false} TrimEndKeeps(s: string, c: char)
    ensures c in TrimEnd(s) ==> c in s
  {
    if s != [] && IsWhitespace(s[|s| - 1]) {
      TrimEndKeeps(s[..|s| - 1], c);
      assert s == s[..|s| - 1] + [s[|s| - 1]];
    }
  }

  lemma TrimKeeps(s: string, c: char)
    ensures c in Trim(s) ==> c in s
  {
    TrimStartKeeps(s, c);
    TrimEndKeeps(TrimStart(s), c);
  }

  lemma ReadSpaced(challenges: seq<Challenge>, item: string)
    requires Solid(item)
    ensures ReadItem(challenges, " " + item) == ReadItem(challenges, item)
  {
    TrimIdentity(item);
  }

  lemma ReadParamShape(challenges: seq<Challenge>, item: string, n: nat)
    requires challenges != [] && item != [] && Trim(item) == item && NameEnd(item) == n < |item| && item[n] == '='
    ensures ReadItem(challenges, item) == challenges[|challenges| - 1 := AddParam(challenges[|challenges| - 1], item)]
  {
    assert TrimStart(item[n..]) == item[n..];
  }

  /** A printed parameter is added to the current challenge. */
  lemma ReadParam(before: seq<Challenge>, c: Challenge, p: (string, string))
    requires IsToken(p.0)
    ensures ReadItem(before + [c], PrintParam(p)) == before + [c.(params := c.params + [p])]
  {
    var item, all := PrintParam(p), before + [c];
    assert item != [] && Trim(item) == item by {
      ParamIsSolid(p);
      TrimIdentity(item);
    }
    assert NameEnd(item) == |p.0| < |item| && item[|p.0|] == '=' by { ParamNameEnd(p); }
    assert AddParam(c, item) == c.(params := c.params + [p]) by { ParamRoundTrip(p); }
    ReadParamShape(all, item, |p.0|);
  }

  lemma HeadIsSolid(c: Challenge)
    requires Printable(c)
    ensures Solid(Items(c)[0])
  {
    BareIsElement(c.scheme);
    if c.params != [] {
      var p := c.params[0];
      ParamIsSolid(p);
      BareIsElement(c.scheme + " ");
      ElementConcat(c.scheme + " ", PrintParam(p));
      var item := c.scheme + " " + PrintParam(p);
      assert item == (c.scheme + " ") + PrintParam(p);
      assert item[0] == c.scheme[0] && item[|item| - 1] == PrintParam(p)[|PrintParam(p)| - 1];
    }
  }

  lemma HeadShape(before: seq<Challenge>, scheme: string, text: string, p: (string, string))
    requires IsToken(scheme) && text != [] && !IsWhitespace(text[0]) && text[0] != '=' && '=' in text
    requires ParseAuthParam(text) == Some(p)
    requires Trim(scheme + " " + text) == scheme + " " + text
    ensures ReadItem(before, scheme + " " + text) == before + [Challenge(scheme, [p], false)]
  {
    var item := scheme + " " + text;
    NameEndOfToken(scheme, " " + text);
    assert item == scheme + (" " + text);
    assert item[|scheme|..] == " " + text && item[..|scheme|] == scheme;
    assert (" " + text)[1..] == text;
    assert TrimStart(" " + text) == text;
    assert [] + [p] == [p];
  }

  /** A challenge with a parameter that cannot be read is marked, and tells nothing. */
  lemma MalformedSkipped(before: seq<Challenge>, scheme: string, text: string)
    requires IsToken(scheme) && text != [] && !IsWhitespace(text[0]) && text[0] != '=' && '=' in text
    requires ParseAuthParam(text) == None && Trim(scheme + " " + text) == scheme + " " + text
    ensures ReadItem(before, scheme + " " + text) == before + [Challenge(scheme, [], true)]
    ensures FirstError([Challenge(scheme, [], true)]) == None
  {
    var item := scheme + " " + text;
    NameEndOfToken(scheme, " " + text);
    assert item == scheme + (" " + text);
    assert item[|scheme|..] == " " + text && item[..|scheme|] == scheme;
    assert (" " + text)[1..] == text;
    assert TrimStart(" " + text) == text;
  }

  /** A further parameter that cannot be read marks the challenge it belongs to. */
  lemma MalformedParam(before: seq<Challenge>, c: Challenge, item: string, n: nat)
    requires item != [] && Trim(item) == item && NameEnd(item) == n < |item| && item[n] == '='
             && ParseAuthParam(item) == None
    ensures ReadItem(before + [c], item) == before + [c.(malformed := true)]
  {
    ReadParamShape(before + [c], item, n);
  }

  lemma BareHead(before: seq<Challenge>, scheme: string)
    requires IsToken(scheme) && Trim(scheme) == scheme
    ensures ReadItem(before, scheme) == before + [Challenge(scheme, [], false)]
  {
    NameEndOfToken(scheme, "");
    assert scheme + "" == scheme && scheme[|scheme|..] == "" && scheme[..|scheme|] == scheme;
  }

  /** The first element of a printed challenge starts it. */
  lemma ReadHead(before: seq<Challenge>, c: Challenge)
    requires Printable(c)
    ensures ReadItem(before, Items(c)[0]) == before + [c.(params := if c.params == [] then [] else [c.params[0]])]
  {
    HeadIsSolid(c);
    TrimIdentity(Items(c)[0]);
    if c.params == [] {
      BareHead(before, c.scheme);
    } else {
      var p := c.params[0];
      ParamIsSolid(p);
      ParamNameEnd(p);
      ParamRoundTrip(p);
      assert PrintParam(p)[0] == p.0[0] && PrintParam(p)[|p.0|] == '=';
      HeadShape(before, c.scheme, PrintParam(p), p);
    }
  }

  lemma ReadCons(challenges: seq<Challenge>, item: string, more: seq<string>)
    ensures ReadItems(challenges, [item] + more) == ReadItems(ReadItem(challenges, item), more)
  {
    assert ([item] + more)[1..] == more;
  }

  lemma ReadOne(challenges: seq<Challenge>, item: string)
    ensures ReadItems(challenges, [item]) == ReadItem(challenges, item)
  {
    ReadCons(challenges, item, []);
    assert [item] + [] == [item];
  }

  lemma {:induction false} ReadConcat(challenges: seq<Challenge>, a: seq<string>, b: seq<string>)
    ensures ReadItems(challenges, a + b) == ReadItems(ReadItems(challenges, a), b)
    decreases a
  {
    if a == [] {
      assert a + b == b;
    } else {
      assert (a + b)[1..] == a[1..] + b;
      ReadConcat(ReadItem(challenges, a[0]), a[1..], b);
    }
  }

  /** Reading `a` adds `x`, reading `b` after that adds `y`: together they add both. */
  lemma ReadTwice(before: seq<Challenge>, a: seq<string>, x: seq<Challenge>, b: seq<string>, y: seq<Challenge>)
    requires ReadItems(before, a) == x && ReadItems(x, b) == y
    ensures ReadItems(before, a + b) == y
  {
    ReadConcat(before, a, b);
  }

  lemma {:induction false} ReadParams(before: seq<Challenge>, c: Challenge, params: seq<(string, string)>)
    requires forall i :: 0 <= i < |params| ==> IsToken(params[i].0)
    ensures ReadItems(before + [c], PrintParams(params)) == before + [c.(params := c.params + params)]
    decreases params
  {
    if params == [] {
      assert c.params + params == c.params;
    } else {
      var d := c.(params := c.params + [params[0]]);
      var mid, end := before + [d], before + [c.(params := c.params + params)];
      assert d.params + params[1..] == c.params + params;
      assert ReadItems(before + [c], [PrintParam(params[0])]) == mid by {
        ReadParam(before, c, params[0]);
        ReadOne(before + [c], PrintParam(params[0]));
      }
      assert ReadItems(mid, PrintParams(params[1..])) == end by { ReadParams(before, d, params[1..]); }
      ReadTwice(before + [c], [PrintParam(params[0])], mid, PrintParams(params[1..]), end);
    }
  }

  /** The elements of one printed challenge are read back as that challenge. */
  lemma ReadChallenge(before: seq<Challenge>, c: Challenge)
    requires Printable(c)
    ensures ReadItems(before, Items(c)) == before + [c]
  {
    ReadHead(before, c);
    if c.params == [] {
      ReadCons(before, Items(c)[0], []);
      assert Items(c) == [Items(c)[0]] + [];
    } else {
      var head := c.(params := [c.params[0]]);
      ReadCons(before, Items(c)[0], PrintParams(c.params[1..]));
      ReadParams(before, head, c.params[1..]);
      assert [c.params[0]] + c.params[1..] == c.params;
    }
  }

  lemma {:induction false} ReadChallenges(before: seq<Challenge>, cs: seq<Challenge>)
    requires forall i :: 0 <= i < |cs| ==> Printable(cs[i])
    ensures ReadItems(before, AllItems(cs)) == before + cs
    decreases cs
  {
    if cs == [] {
      assert before + cs == before;
    } else {
      var a, b := Items(cs[0]), AllItems(cs[1..]);
      var mid, end := before + [cs[0]], before + cs;
      assert mid + cs[1..] == end;
      assert ReadItems(before, a) == mid by { ReadChallenge(before, cs[0]); }
      assert ReadItems(mid, b) == end by { ReadChallenges(mid, cs[1..]); }
      ReadTwice(before, a, mid, b, end);
    }
  }

  /** The spaces between printed elements do not matter. */
  lemma {:induction false} ReadIndented(challenges: seq<Challenge>, items: seq<string>)
    requires forall i :: 0 <= i < |items| ==> Solid(items[i])
    ensures ReadItems(challenges, Indented(items)) == ReadItems(challenges, items)
    decreases items
  {
    if items != [] {
      ReadSpaced(challenges, items[0]);
      ReadCons(challenges, " " + items[0], Indented(items[1..]));
      ReadIndented(ReadItem(challenges, items[0]), items[1..]);
    }
  }

  // ---- Round trip -------------------------------------------------------------

  lemma {:induction false} ParamsSolid(params: seq<(string, string)>)
    requires forall i :: 0 <= i < |params| ==> IsToken(params[i].0)
    ensures forall i :: 0 <= i < |PrintParams(params)| ==> Solid(PrintParams(params)[i])
  {
    if params != [] {
      ParamIsSolid(params[0]);
      ParamsSolid(params[1..]);
    }
  }

  lemma {:induction false} AllSolid(cs: seq<Challenge>)
    requires forall i :: 0 <= i < |cs| ==> Printable(cs[i])
    ensures forall i :: 0 <= i < |AllItems(cs)| ==> Solid(AllItems(cs)[i])
  {
    if cs != [] {
      var c := cs[0];
      HeadIsSolid(c);
      if c.params != [] { ParamsSolid(c.params[1..]); }
      assert forall i :: 0 <= i < |Items(c)| ==> Solid(Items(c)[i]);
      AllSolid(cs[1..]);
    }
  }

  lemma ReadNothing()
    ensures ReadItems([], Split(Plain, Print([]))) == []
  {
    assert ReadItem([], "") == [];
    ReadCons([], "", []);
    assert [""] + [] == [""];
  }

  lemma ReadSpacedItems(items: seq<string>)
    requires items != [] && forall i :: 0 <= i < |items| ==> Solid(items[i])
    ensures ReadItems([], Spaced(items)) == ReadItems([], items)
  {
    ReadCons([], items[0], Indented(items[1..]));
    ReadIndented(ReadItem([], items[0]), items[1..]);
  }

  /** The parser undoes the printer: for every list of challenges with any parameter values, the header
      is read back as exactly those challenges. */
  lemma ChallengesRoundTrip(cs: seq<Challenge>)
    requires forall i :: 0 <= i < |cs| ==> Printable(cs[i])
    ensures ReadItems([], Split(Plain, Print(cs))) == cs
    ensures ParseHeader(Print(cs)) == FirstError(cs)
  {
    if cs == [] {
      ReadNothing();
    } else {
      var items := AllItems(cs);
      AllSolid(cs);
      assert Split(Plain, Print(cs)) == Spaced(items) by { SplitSpaced(items); }
      assert ReadItems([], Spaced(items)) == ReadItems([], items) by { ReadSpacedItems(items); }
      assert ReadItems([], items) == cs by {
        ReadChallenges([], cs);
        assert [] + cs == cs;
      }
    }
  }

  // ---- What is found, by index and literal name -------------------------------------------

  /** The value of the first parameter with this name in any case, if there is one. */
  ghost predicate FirstNamed(params: seq<(string, string)>, name: string, v: Option<string>) {
    match v
    case None => forall j :: 0 <= j < |params| ==> !SameButCase(params[j].0, name)
    case Some(text) =>
      exists j :: 0 <= j < |params| && SameButCase(params[j].0, name) && params[j].1 == text
                  && forall k :: 0 <= k < j ==> !SameButCase(params[k].0, name)
  }

  lemma {:induction false} FindParamExactly(params: seq<(string, string)>, key: string)
    ensures FirstNamed(params, key, FindParam(params, key))
  {
    if params != [] {
      EqIgnoreCaseExactly(params[0].0, key);
      if !EqIgnoreCase(params[0].0, key) {
        var rest := params[1..];
        FindParamExactly(rest, key);
        assert forall j :: 0 <= j < |rest| ==> rest[j] == params[j + 1];
        if FindParam(rest, key).Some? {
          var j :| 0 <= j < |rest| && SameButCase(rest[j].0, key) && rest[j].1 == FindParam(rest, key).value
                   && forall k :: 0 <= k < j ==> !SameButCase(rest[k].0, key);
          forall k | 0 <= k < j + 1 ensures !SameButCase(params[k].0, key) {
            if k > 0 { assert rest[k - 1] == params[k]; }
          }
          assert SameButCase(params[j + 1].0, key) && params[j + 1].1 == FindParam(rest, key).value;
        } else {
          forall j | 0 <= j < |params| ensures !SameButCase(params[j].0, key) {
            if j > 0 { assert rest[j - 1] == params[j]; }
          }
        }
      }
    }
  }

  ghost predicate HasParam(c: Challenge, name: string) {
    exists j :: 0 <= j < |c.params| && SameButCase(c.params[j].0, name)
  }

  /** A well-formed Bearer or DPoP challenge with an error or an error description. */
  ghost predicate TellsError(c: Challenge) {
    && !c.malformed && (SameButCase(c.scheme, "bearer") || SameButCase(c.scheme, "dpop"))
    && (HasParam(c, "error") || HasParam(c, "error_description"))
  }

  lemma TellsErrorExactly(c: Challenge)
    ensures CarriesError(c) <==> TellsError(c)
    ensures FirstNamed(c.params, "error", ErrorOf(c).0) && FirstNamed(c.params, "error_description", ErrorOf(c).1)
  {
    EqIgnoreCaseExactly(c.scheme, "bearer");
    EqIgnoreCaseExactly(c.scheme, "dpop");
    FindParamExactly(c.params, "error");
    FindParamExactly(c.params, "error_description");
  }

  /** For every printed list: nothing is returned iff no challenge tells an error, and otherwise the first
      `error` and the first `error_description` of the first challenge that does. */
  lemma PrintedErrors(cs: seq<Challenge>)
    requires forall i :: 0 <= i < |cs| ==> Printable(cs[i])
    ensures var r := ParseHeader(Print(cs));
            && (r.None? <==> forall i :: 0 <= i < |cs| ==> !TellsError(cs[i]))
            && (r.Some? ==>
                  exists i :: 0 <= i < |cs| && TellsError(cs[i]) && (forall j :: 0 <= j < i ==> !TellsError(cs[j]))
                              && FirstNamed(cs[i].params, "error", r.value.0)
                              && FirstNamed(cs[i].params, "error_description", r.value.1))
  {
    ChallengesRoundTrip(cs);
    forall i | 0 <= i < |cs|
      ensures CarriesError(cs[i]) <==> TellsError(cs[i])
      ensures FirstNamed(cs[i].params, "error", ErrorOf(cs[i]).0)
      ensures FirstNamed(cs[i].params, "error_description", ErrorOf(cs[i]).1)
    {
      TellsErrorExactly(cs[i]);
    }
  }
}
