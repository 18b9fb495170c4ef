/** Freshness lifetimes from `Cache-Control`, reduced by `Age` and capped. */
module CacheControl {
  import opened Numerals
  import opened U64
  import opened Text
  import opened HeaderLists

  /** A run of digits as an unsigned 64-bit integer, saturating; None for anything else. */
  ghost function ParseDigits(s: string): Option<nat> {
    if s == [] || !AllDigits(s) then None
    else Some(if DecimalValue(s) > U64_MAX then U64_MAX else DecimalValue(s))
  }

  method DigitsToU64(s: string) returns (r: Option<nat>)
    ensures r == ParseDigits(s)
  {
    if s == [] {
      return None;
    }
    var n := 0;
    for i := 0 to |s|
      invariant AllDigits(s[..i])
      invariant n == DecimalValue(s[..i])
    {
      if !IsDigit(s[i]) {
        return None;
      }
      assert s[..i + 1][..i] == s[..i];
      n := n * 10 + DigitValue(s[i]);
    }
    assert s[..|s|] == s;
    return Some(if n > U64_MAX then U64_MAX else n);
  }

  function TrimQuotesStart(s: string): string {
    if s != [] && s[0] == '"' then TrimQuotesStart(s[1..]) else s
  }

  function TrimQuotesEnd(s: string): string {
    if s != [] && s[|s| - 1] == '"' then TrimQuotesEnd(s[..|s| - 1]) else s
  }

  /** `trim_matches('"')`. */
  function TrimQuotes(s: string): string { TrimQuotesEnd(TrimQuotesStart(s)) }

  function FirstEquals(s: string): (n: nat)
    ensures n <= |s|
    ensures forall i :: 0 <= i < n ==> s[i] != '='
    ensures n < |s| ==> s[n] == '='
  {
    if s == [] || s[0] == '=' then 0 else 1 + FirstEquals(s[1..])
  }

  /** Name and value of one list element. */
  function NameAndValue(text: string): (string, Option<string>) {
    var t := Trim(text);
    var n := FirstEquals(t);
    if n == |t| then (t, None) else (Trim(t[..n]), Some(Trim(t[n + 1..])))
  }

  predicate ForbidsStoring(name: string) { EqIgnoreCase(name, "no-store") || EqIgnoreCase(name, "no-cache") }

  ghost function Lifetime(value: Option<string>): Option<nat> {
    if value.None? then None else ParseDigits(TrimQuotes(value.value))
  }

  ghost function ScanElements(items: seq<string>, maxAge: Option<nat>): Option<nat>
    decreases items
  {
    if items == [] then maxAge
    else
      var (name, value) := NameAndValue(items[0]);
      if ForbidsStoring(name) then Some(0)
      else ScanElements(items[1..], if maxAge.None? && EqIgnoreCase(name, "max-age") then Lifetime(value) else maxAge)
  }

  ghost function AdvertisedTtl(header: Option<string>): Option<nat> {
    if header.None? then None
    else if !Balanced(header.value) then Some(0)
    else ScanElements(Split(Plain, header.value), None)
  }

  method ReadAdvertisedTtl(header: Option<string>) returns (r: Option<nat>)
    ensures r == AdvertisedTtl(header)
  {
    if header.None? {
      return None;
    }
    var balanced := QuotesBalanced(header.value);
    if !balanced {
      return Some(0);
    }
    var items := SplitUnquotedCommas(header.value);
    var maxAge: Option<nat> := None;
    for k := 0 to |items|
      invariant ScanElements(items, None) == ScanElements(items[k..], maxAge)
    {
      assert items[k..][1..] == items[k + 1..];
      var (name, value) := NameAndValue(items[k]);
      if EqIgnoreCase(name, "no-store") || EqIgnoreCase(name, "no-cache") {
        return Some(0);
      }
      if maxAge.None? && EqIgnoreCase(name, "max-age") {
        if value.Some? {
          maxAge := DigitsToU64(TrimQuotes(value.value));
        }
      }
    }
    return maxAge;
  }

  // ---- Directive lists ---------------------------------------------------------

  datatype Value = NoValue | Token(text: string) | QuotedText(text: string)

  datatype Directive = Directive(name: string, value: Value)

  /** Names and bare values are tokens; quoted values are any text at all. */
  predicate WellFormed(d: Directive) {
    IsToken(d.name) && (d.value.Token? ==> IsToken(d.value.text))
  }

  function Print(d: Directive): string {
    match d.value
    case NoValue => d.name
    case Token(text) => d.name + "=" + text
    case QuotedText(text) => d.name + "=" + Quote(text)
  }

  function PrintAll(ds: seq<Directive>): seq<string> {
    if ds == [] then [] else [Print(ds[0])] + PrintAll(ds[1..])
  }

  /** The lifetime a directive states: a `max-age` whose value, bare or quoted, is all digits. */
  ghost function StatedLifetime(d: Directive): Option<nat> {
    if EqIgnoreCase(d.name, "max-age") && !d.value.NoValue? then ParseDigits(d.value.text) else None
  }

  ghost function FirstLifetime(ds: seq<Directive>): Option<nat> {
    if ds == [] then None
    else if StatedLifetime(ds[0]).Some? then StatedLifetime(ds[0])
    else FirstLifetime(ds[1..])
  }

  /** What a list of directives means: no lifetime at all if storing is forbidden anywhere, else the
      first stated one. */
  ghost function ListTtl(ds: seq<Directive>): Option<nat> {
    if exists i :: 0 <= i < |ds| && ForbidsStoring(ds[i].name) then Some(0) else FirstLifetime(ds)
  }

  // ---- The parser meets the list specification ------------------------------------

  lemma {:induction false} EscapeSnoc(u: string, c: char)
    ensures Escape(u + [c]) == Escape(u) + (if c == '"' || c == '\\' then ['\\', c] else [c])
  {
    if u == [] {
      assert u + [c] == [c] && [c][1..] == [];
    } else {
      assert (u + [c])[1..] == u[1..] + [c];
      EscapeSnoc(u[1..], c);
    }
  }

  lemma {:induction false} EscapeDigits(v: string)
    ensures AllDigits(v) ==> Escape(v) == v
    ensures AllDigits(Escape(v)) ==> AllDigits(v)
  {
    if v != [] {
      EscapeDigits(v[1..]);
      assert v == [v[0]] + v[1..];
      var e := Escape(v);
      if AllDigits(e) {
        assert IsDigit(e[0]);
        assert e[1..] == Escape(v[1..]);
        assert AllDigits(e[1..]);
      }
    }
  }

  lemma TrimStartOfQuote(e: string)
    requires e != [] && e[0] != '"'
    ensures TrimQuotesStart("\"" + e) == e
  {
    assert ("\"" + e)[1..] == e;
  }

  lemma TrimEndOfQuote(e: string)
    ensures TrimQuotesEnd(e + "\"") == TrimQuotesEnd(e)
  {
    var body := e + "\"";
    assert body[..|body| - 1] == e;
  }

  lemma EscapeHead(v: string)
    requires v != ""
    ensures Escape(v) != "" && Escape(v)[0] != '"'
  {
  }

  lemma TrimQuotedBody(v: string)
    requires v != ""
    ensures TrimQuotes(Quote(v)) == TrimQuotesEnd(Escape(v))
  {
    EscapeHead(v);
    var e := Escape(v);
    assert Quote(v) == "\"" + (e + "\"");
    TrimStartOfQuote(e + "\"");
    TrimEndOfQuote(e);
  }

  lemma TrimEndStops(e: string)
    requires e != [] && e[|e| - 1] != '"'
    ensures TrimQuotesEnd(e) == e
  {
  }

  lemma TrimEmptyQuote()
    ensures TrimQuotes(Quote("")) == ""
  {
    assert Quote("") == "\"\"" && "\"\""[1..] == "\"" && "\""[1..] == "";
  }

  /** Text that does not end in a quote: trimming leaves it escaped. */
  lemma TrimQuoted(u: string, c: char)
    requires c != '"'
    ensures TrimQuotes(Quote(u + [c])) == Escape(u + [c])
  {
    EscapeSnoc(u, c);
    TrimEndStops(Escape(u + [c]));
    TrimQuotedBody(u + [c]);
  }

  /** Text that ends in a quote: trimming leaves a backslash at the end. */
  lemma TrimQuotedQuote(u: string)
    ensures TrimQuotes(Quote(u + ['"'])) == Escape(u) + ['\\']
  {
    var e := Escape(u) + ['\\'];
    EscapeSnoc(u, '"');
    assert Escape(u + ['"']) == e + "\"";
    TrimQuotedBody(u + ['"']);
    TrimEndOfQuote(e);
    TrimEndStops(e);
  }

  lemma NotDigits(s: string, i: nat)
    requires i < |s| && !IsDigit(s[i])
    ensures ParseDigits(s) == None
  {
  }

  /** A quoted value counts exactly when its text is all digits. */
  lemma QuotedLifetime(v: string)
    ensures ParseDigits(TrimQuotes(Quote(v))) == ParseDigits(v)
  {
    if v == "" {
      TrimEmptyQuote();
    } else {
      var u, c := v[..|v| - 1], v[|v| - 1];
      assert v == u + [c];
      if c == '"' {
        TrimQuotedQuote(u);
        NotDigits(v, |u|);
        NotDigits(Escape(u) + ['\\'], |Escape(u)|);
      } else {
        TrimQuoted(u, c);
        EscapeDigits(v);
        EscapeHead(v);
      }
    }
  }

  lemma TokenLifetime(v: string)
    requires IsToken(v)
    ensures ParseDigits(TrimQuotes(v)) == ParseDigits(v)
  {
    assert IsTokenChar(v[0]) && IsTokenChar(v[|v| - 1]);
  }

  lemma PrintSolid(d: Directive)
    requires WellFormed(d)
    ensures Solid(Print(d))
  {
    BareIsElement(d.name);
    BareIsElement(d.name + "=");
    match d.value
    case NoValue =>
    case Token(text) =>
      BareIsElement(text);
      ElementConcat(d.name + "=", text);
    case QuotedText(text) =>
      QuoteIsElement(text);
      ElementConcat(d.name + "=", Quote(text));
  }

  lemma ValueSplit(name: string, text: string)
    requires IsToken(name) && text != [] && !IsWhitespace(text[0]) && !IsWhitespace(text[|text| - 1])
    ensures NameAndValue(name + "=" + text) == (name, Some(text))
  {
    var t := name + "=" + text;
    assert IsTokenChar(name[0]) && IsTokenChar(name[|name| - 1]);
    assert t[0] == name[0] && t[|t| - 1] == text[|text| - 1];
    TrimIdentity(t);
    TrimIdentity(name);
    TrimIdentity(text);
    assert forall i :: 0 <= i < |name| ==> t[i] == name[i] && IsTokenChar(name[i]);
    assert t[|name|] == '=';
    assert FirstEquals(t) == |name|;
    assert t[..|name|] == name && t[|name| + 1..] == text;
  }

  lemma NameOnly(name: string)
    requires IsToken(name)
    ensures NameAndValue(name) == (name, None)
  {
    assert IsTokenChar(name[0]) && IsTokenChar(name[|name| - 1]);
    TrimIdentity(name);
    assert forall i :: 0 <= i < |name| ==> IsTokenChar(name[i]);
  }

  /** Reading a printed directive gives its name and, for `max-age`, the lifetime it states. */
  lemma ReadDirective(d: Directive)
    requires WellFormed(d)
    ensures NameAndValue(Print(d)).0 == d.name
    ensures Lifetime(NameAndValue(Print(d)).1) == if d.value.NoValue? then None else ParseDigits(d.value.text)
  {
    match d.value
    case NoValue => NameOnly(d.name);
    case Token(text) =>
      assert IsTokenChar(text[0]) && IsTokenChar(text[|text| - 1]);
      ValueSplit(d.name, text);
      TokenLifetime(text);
    case QuotedText(text) =>
      ValueSplit(d.name, Quote(text));
      QuotedLifetime(text);
  }

  /** The meaning of the rest of a list once some lifetime may have been found. */
  ghost function RestTtl(ds: seq<Directive>, found: Option<nat>): Option<nat> {
    if exists i :: 0 <= i < |ds| && ForbidsStoring(ds[i].name) then Some(0)
    else if found.Some? then found
    else FirstLifetime(ds)
  }

  lemma RestStep(ds: seq<Directive>, found: Option<nat>)
    requires ds != []
    ensures RestTtl(ds, found) ==
            if ForbidsStoring(ds[0].name) then Some(0)
            else RestTtl(ds[1..], if found.None? then StatedLifetime(ds[0]) else found)
  {
    assert forall i :: 0 <= i < |ds[1..]| ==> ds[1..][i] == ds[i + 1];
    if i :| 0 < i < |ds| && ForbidsStoring(ds[i].name) {
      assert ForbidsStoring(ds[1..][i - 1].name);
    }
  }

  // ---- Elements that stand for directives -----------------------------------------

  predicate IsBlank(item: string) { Trim(item) == "" }

  predicate StandsFor(item: string, d: Directive) { WellFormed(d) && NameAndValue(item) == NameAndValue(Print(d)) }

  /** Blank elements aside, each element stands for the next directive. */
  predicate Lists(blank: string -> bool, stands: (string, Directive) -> bool, items: seq<string>, ds: seq<Directive>)
    decreases items
  {
    if items == [] then ds == []
    else if blank(items[0]) then Lists(blank, stands, items[1..], ds)
    else ds != [] && stands(items[0], ds[0]) && Lists(blank, stands, items[1..], ds[1..])
  }

  predicate ReadsAs(items: seq<string>, ds: seq<Directive>) { Lists(IsBlank, StandsFor, items, ds) }

  /** The text is balanced and splits into elements that stand for the directives. */
  ghost predicate Reads(text: string, ds: seq<Directive>) { Balanced(text) && ReadsAs(Split(Plain, text), ds) }

  lemma BlankIgnored(item: string)
    requires Trim(item) == ""
    ensures !ForbidsStoring(NameAndValue(item).0) && !EqIgnoreCase(NameAndValue(item).0, "max-age")
  {
    assert |Lower("")| == 0 && |Lower("max-age")| == 7 && |Lower("no-store")| == 8 && |Lower("no-cache")| == 8;
  }

  /** The scanner's result on the rest is what the remaining directives mean. */
  lemma {:induction false} ScanMeetsList(items: seq<string>, ds: seq<Directive>, found: Option<nat>)
    requires ReadsAs(items, ds)
    ensures ScanElements(items, found) == RestTtl(ds, found)
    decreases items
  {
    if items == [] {
    } else if Trim(items[0]) == "" {
      BlankIgnored(items[0]);
      ScanMeetsList(items[1..], ds, found);
    } else {
      ReadDirective(ds[0]);
      RestStep(ds, found);
      var next := if found.None? then StatedLifetime(ds[0]) else found;
      ScanMeetsList(items[1..], ds[1..], next);
    }
  }

  lemma ReadsTtl(text: string, ds: seq<Directive>)
    requires Reads(text, ds)
    ensures AdvertisedTtl(Some(text)) == ListTtl(ds)
  {
    ScanMeetsList(Split(Plain, text), ds, None);
  }

  lemma {:induction false} ListsConcat(blank: string -> bool, stands: (string, Directive) -> bool,
                                       a: seq<string>, x: seq<Directive>, b: seq<string>, y: seq<Directive>)
    requires Lists(blank, stands, a, x) && Lists(blank, stands, b, y)
    ensures Lists(blank, stands, a + b, x + y)
    decreases a
  {
    if a == [] {
      assert a + b == b && x + y == y;
    } else {
      assert (a + b)[1..] == a[1..] + b;
      if blank(a[0]) {
        ListsConcat(blank, stands, a[1..], x, b, y);
      } else {
        assert (x + y)[1..] == x[1..] + y;
        ListsConcat(blank, stands, a[1..], x[1..], b, y);
      }
    }
  }

  lemma LeadingSpace(item: string)
    ensures Trim(" " + item) == Trim(item) && NameAndValue(" " + item) == NameAndValue(item)
  {
    assert (" " + item)[1..] == item;
  }

  lemma ReadsAfterSpace(items: seq<string>, ds: seq<Directive>)
    requires items != [] && ReadsAs(items, ds)
    ensures ReadsAs(Prepend(" ", items), ds)
  {
    LeadingSpace(items[0]);
    assert Prepend(" ", items)[1..] == items[1..];
  }

  lemma SpaceFirst(b: string)
    ensures Split(Plain, " " + b) == Prepend(" ", Split(Plain, b)) && (Balanced(b) ==> Balanced(" " + b))
  {
    assert (" " + b)[1..] == b && [' '] == " ";
  }

  lemma CommaBetween(a: string, c: string)
    requires Balanced(a) && Balanced(c)
    ensures Balanced(a + "," + c) && Split(Plain, a + "," + c) == Split(Plain, a) + Split(Plain, c)
  {
    SplitAtComma(Plain, a, c);
    ScanConcat(Plain, a + ",", c);
    ScanConcat(Plain, a, ",");
  }

  lemma ReadsSpace(b: string, y: seq<Directive>)
    requires Reads(b, y)
    ensures Reads(" " + b, y)
  {
    SpaceFirst(b);
    ReadsAfterSpace(Split(Plain, b), y);
  }

  lemma ReadsParts(text: string, p: seq<string>, x: seq<Directive>, q: seq<string>, y: seq<Directive>)
    requires Balanced(text) && Split(Plain, text) == p + q && ReadsAs(p, x) && ReadsAs(q, y)
    ensures Reads(text, x + y)
  {
    ListsConcat(IsBlank, StandsFor, p, x, q, y);
  }

  lemma ReadsComma(a: string, x: seq<Directive>, c: string, y: seq<Directive>)
    requires Reads(a, x) && Reads(c, y)
    ensures Reads(a + "," + c, x + y)
  {
    CommaBetween(a, c);
    ReadsParts(a + "," + c, Split(Plain, a), x, Split(Plain, c), y);
  }

  /** Two texts joined read as the directives of both. */
  lemma ReadsJoined(a: string, x: seq<Directive>, b: string, y: seq<Directive>)
    requires Reads(a, x) && Reads(b, y)
    ensures Reads(a + ", " + b, x + y)
  {
    ReadsSpace(b, y);
    ReadsComma(a, x, " " + b, y);
    assert a + ", " + b == a + "," + (" " + b);
  }

  function Flatten(lines: seq<seq<Directive>>): seq<Directive> {
    if lines == [] then [] else lines[0] + Flatten(lines[1..])
  }

  lemma NothingReads()
    ensures Reads("", [])
  {
    assert Split(Plain, "") == [""] && [""][1..] == [];
  }

  /** Any texts joined with commas read as all their directives together. */
  lemma {:induction false} JoinReads(texts: seq<string>, lines: seq<seq<Directive>>)
    requires |texts| == |lines| && forall i :: 0 <= i < |texts| ==> Reads(texts[i], lines[i])
    ensures Reads(Join(texts, ", "), Flatten(lines))
    decreases texts
  {
    if texts == [] {
      NothingReads();
    } else if |texts| == 1 {
      assert Flatten(lines) == lines[0] + [] == lines[0];
    } else {
      JoinReads(texts[1..], lines[1..]);
      ReadsJoined(texts[0], lines[0], Join(texts[1..], ", "), Flatten(lines[1..]));
    }
  }

  /** A printed directive is one element that stands for it. */
  lemma DirectiveReads(d: Directive)
    requires WellFormed(d)
    ensures Reads(Print(d), [d])
  {
    var text := Print(d);
    PrintSolid(d);
    TrimIdentity(text);
    assert Split(Plain, text) == [text] by {
      SplitElement(Plain, text, "");
      assert text + "" == text;
    }
    assert [text][1..] == [] && [d][1..] == [];
  }

  function Singles(ds: seq<Directive>): (r: seq<seq<Directive>>)
    ensures |r| == |ds| && forall i :: 0 <= i < |ds| ==> r[i] == [ds[i]]
  {
    seq(|ds|, i requires 0 <= i < |ds| => [ds[i]])
  }

  lemma {:induction false} FlattenSingles(ds: seq<Directive>)
    ensures Flatten(Singles(ds)) == ds
  {
    if ds != [] {
      assert Singles(ds)[1..] == Singles(ds[1..]);
      FlattenSingles(ds[1..]);
    }
  }

  lemma {:induction false} PrintAllAt(ds: seq<Directive>)
    ensures |PrintAll(ds)| == |ds| && forall i :: 0 <= i < |ds| ==> PrintAll(ds)[i] == Print(ds[i])
  {
    if ds != [] { PrintAllAt(ds[1..]); }
  }

  lemma ListReads(ds: seq<Directive>)
    requires forall i :: 0 <= i < |ds| ==> WellFormed(ds[i])
    ensures Reads(Join(PrintAll(ds), ", "), ds)
  {
    PrintAllAt(ds);
    forall i | 0 <= i < |ds| ensures Reads(PrintAll(ds)[i], Singles(ds)[i]) { DirectiveReads(ds[i]); }
    JoinReads(PrintAll(ds), Singles(ds));
    FlattenSingles(ds);
  }

  /** For every printed list of directives, the parser returns what the list means. */
  lemma PrintedListTtl(ds: seq<Directive>)
    requires forall i :: 0 <= i < |ds| ==> WellFormed(ds[i])
    ensures AdvertisedTtl(Some(Join(PrintAll(ds), ", "))) == ListTtl(ds)
  {
    ListReads(ds);
    ReadsTtl(Join(PrintAll(ds), ", "), ds);
  }

  /** With names spelled out: no lifetime at all if some directive is `no-store` or `no-cache` in any case, and
      otherwise that of the first `max-age` whose value is all digits. */
  lemma PrintedListExactly(ds: seq<Directive>)
    requires forall i :: 0 <= i < |ds| ==> WellFormed(ds[i])
    ensures var r := AdvertisedTtl(Some(Join(PrintAll(ds), ", ")));
            if exists i :: 0 <= i < |ds| && (SameButCase(ds[i].name, "no-store") || SameButCase(ds[i].name, "no-cache"))
            then r == Some(0)
            else if r.None? then forall i :: 0 <= i < |ds| ==> !StatesAge(ds[i])
            else
              exists i :: 0 <= i < |ds| && StatesAge(ds[i]) && (forall j :: 0 <= j < i ==> !StatesAge(ds[j]))
                          && r.value == (if DecimalValue(ds[i].value.text) > U64_MAX then U64_MAX
                                         else DecimalValue(ds[i].value.text))
  {
    PrintedListTtl(ds);
    forall i | 0 <= i < |ds|
      ensures ForbidsStoring(ds[i].name) <==>
              SameButCase(ds[i].name, "no-store") || SameButCase(ds[i].name, "no-cache")
    {
      EqIgnoreCaseExactly(ds[i].name, "no-store");
      EqIgnoreCaseExactly(ds[i].name, "no-cache");
    }
    FirstLifetimeExactly(ds);
  }

  /** A `max-age` with digits. */
  ghost predicate StatesAge(d: Directive) {
    SameButCase(d.name, "max-age") && !d.value.NoValue? && d.value.text != "" && AllDigits(d.value.text)
  }

  lemma {:induction false} FirstLifetimeExactly(ds: seq<Directive>)
    ensures var r := FirstLifetime(ds);
            if r.None? then forall i :: 0 <= i < |ds| ==> !StatesAge(ds[i])
            else
              exists i :: 0 <= i < |ds| && StatesAge(ds[i]) && (forall j :: 0 <= j < i ==> !StatesAge(ds[j]))
                          && r.value == (if DecimalValue(ds[i].value.text) > U64_MAX then U64_MAX
                                         else DecimalValue(ds[i].value.text))
  {
    if ds != [] {
      EqIgnoreCaseExactly(ds[0].name, "max-age");
      var rest := ds[1..];
      FirstLifetimeExactly(rest);
      assert forall i :: 0 <= i < |rest| ==> rest[i] == ds[i + 1];
      if StatedLifetime(ds[0]).None? {
        if FirstLifetime(rest).None? {
          forall i | 0 <= i < |ds| ensures !StatesAge(ds[i]) {
            if i > 0 { assert !StatesAge(rest[i - 1]); }
          }
        } else {
          var i :| 0 <= i < |rest| && StatesAge(rest[i]) && (forall j :: 0 <= j < i ==> !StatesAge(rest[j]))
                   && FirstLifetime(rest).value ==
                      (if DecimalValue(rest[i].value.text) > U64_MAX then U64_MAX
                       else DecimalValue(rest[i].value.text));
          forall j | 0 <= j < i + 1 ensures !StatesAge(ds[j]) {
            if j > 0 { assert !StatesAge(rest[j - 1]); }
          }
          assert StatesAge(ds[i + 1]) && ds[i + 1] == rest[i];
        }
      } else {
        assert StatesAge(ds[0]);
      }
    }
  }

  /** A quote left open hides whatever follows it, escaped quotes included, so the header counts as no
      lifetime at all. */
  lemma UnterminatedQuote(prefix: string, hidden: string)
    requires Balanced(prefix)
    ensures ScanFrom(Quoted, hidden) != Plain <==> !Balanced(prefix + "\"" + hidden)
    ensures ScanFrom(Quoted, hidden) != Plain ==> AdvertisedTtl(Some(prefix + "\"" + hidden)) == Some(0)
  {
    ScanConcat(Plain, prefix + "\"", hidden);
    ScanConcat(Plain, prefix, "\"");
  }

  /** In particular any text written with its quotes and backslashes escaped. */
  lemma EscapedTextStaysOpen(prefix: string, text: string)
    requires Balanced(prefix)
    ensures AdvertisedTtl(Some(prefix + "\"" + Escape(text))) == Some(0)
  {
    EscapeStaysQuoted(text);
    UnterminatedQuote(prefix, Escape(text));
  }

  // ---- Responses ---------------------------------------------------------------

  datatype HttpResponse = HttpResponse(headers: seq<(string, string)>)

  datatype JwksResponse = JwksResponse(cacheControl: Option<string>, age: Option<nat>)

  function HeaderValues(headers: seq<(string, string)>, name: string): seq<string> {
    if headers == [] then []
    else if EqIgnoreCase(headers[0].0, name) then [headers[0].1] + HeaderValues(headers[1..], name)
    else HeaderValues(headers[1..], name)
  }

  /** Field lines are joined with a comma and a space. */
  function CacheControlOf(r: HttpResponse): Option<string> {
    var values := HeaderValues(r.headers, "cache-control");
    if values == [] then None else Some(Join(values, ", "))
  }

  ghost function AgeOf(r: HttpResponse): Option<nat> {
    var values := HeaderValues(r.headers, "age");
    if values == [] then None else ParseDigits(Trim(values[0]))
  }

  /** Never above the ceiling, never fresh past the lifetime, and below both only when aged out. */
  ghost function Remaining(ttl: Option<nat>, age: Option<nat>, ceiling: nat): (r: Option<nat>)
    ensures r.Some? <==> ttl.Some?
    ensures r.Some? ==>
              var spent := if age.Some? then age.value else 0;
              && r.value <= ceiling && (r.value > 0 ==> spent + r.value <= ttl.value)
              && (r.value < ceiling && spent <= ttl.value ==> spent + r.value == ttl.value)
  {
    if ttl.None? then None
    else
      var a := if age.Some? then age.value else 0;
      var left := SatSub(ttl.value, a);
      Some(if left < ceiling then left else ceiling)
  }

  ghost function FetchedTtl(r: HttpResponse, ceiling: nat): Option<nat> {
    Remaining(AdvertisedTtl(CacheControlOf(r)), AgeOf(r), ceiling)
  }

  ghost function JwksTtl(j: JwksResponse, ceiling: nat): Option<nat> {
    Remaining(AdvertisedTtl(j.cacheControl), j.age, ceiling)
  }

  /** The key-set response keeps the joined header and the age of the fetched one. */
  ghost function ToJwks(r: HttpResponse): JwksResponse { JwksResponse(CacheControlOf(r), AgeOf(r)) }

  function PrintLines(lines: seq<seq<Directive>>): (r: seq<string>)
    ensures |r| == |lines| && forall i :: 0 <= i < |lines| ==> r[i] == Join(PrintAll(lines[i]), ", ")
  {
    seq(|lines|, i requires 0 <= i < |lines| => Join(PrintAll(lines[i]), ", "))
  }

  /** Several field lines, empty ones included, read as one list. */
  lemma LinesRead(lines: seq<seq<Directive>>)
    requires forall i, j :: 0 <= i < |lines| && 0 <= j < |lines[i]| ==> WellFormed(lines[i][j])
    ensures Reads(Join(PrintLines(lines), ", "), Flatten(lines))
  {
    forall i | 0 <= i < |lines| ensures Reads(PrintLines(lines)[i], lines[i]) { ListReads(lines[i]); }
    JoinReads(PrintLines(lines), lines);
  }

  /** Both response types give the same remaining lifetime: what the directives of all field lines together
      mean, less the age, at most the ceiling; none without a field line. A `no-store` on any line wins. */
  lemma ResponsesAgree(r: HttpResponse, lines: seq<seq<Directive>>, ceiling: nat)
    requires forall i, j :: 0 <= i < |lines| && 0 <= j < |lines[i]| ==> WellFormed(lines[i][j])
    requires HeaderValues(r.headers, "cache-control") == PrintLines(lines)
    ensures FetchedTtl(r, ceiling) == JwksTtl(ToJwks(r), ceiling) ==
            Remaining(ListTtl(Flatten(lines)), AgeOf(r), ceiling)
  {
    if lines != [] {
      LinesRead(lines);
      ReadsTtl(Join(PrintLines(lines), ", "), Flatten(lines));
    }
  }

  // ---- Headers by name -------------------------------------------------------------------

  /** Values are collected in order from exactly the headers with that name in any case. */
  lemma {:induction false} HeaderValuesConcat(a: seq<(string, string)>, b: seq<(string, string)>, name: string)
    ensures HeaderValues(a + b, name) == HeaderValues(a, name) + HeaderValues(b, name)
  {
    if a == [] {
      assert a + b == b;
    } else {
      assert (a + b)[1..] == a[1..] + b;
      HeaderValuesConcat(a[1..], b, name);
    }
  }

  lemma OneHeaderValue(h: (string, string), name: string)
    ensures HeaderValues([h], name) == if SameButCase(h.0, name) then [h.1] else []
  {
    EqIgnoreCaseExactly(h.0, name);
  }

  ghost predicate HasHeader(r: HttpResponse, name: string) {
    exists i :: 0 <= i < |r.headers| && SameButCase(r.headers[i].0, name)
  }

  lemma {:induction false} NoValuesExactly(headers: seq<(string, string)>, name: string)
    ensures HeaderValues(headers, name) == [] <==> forall i :: 0 <= i < |headers| ==> !SameButCase(headers[i].0, name)
  {
    if headers != [] {
      var h, rest := headers[0], headers[1..];
      NoValuesExactly(rest, name);
      OneHeaderValue(h, name);
      assert headers == [h] + rest;
      HeaderValuesConcat([h], rest, name);
      assert forall i :: 0 <= i < |rest| ==> rest[i] == headers[i + 1];
    }
  }

  /** There is a lifetime to read exactly when there is a `Cache-Control` line. */
  lemma CacheControlExactly(r: HttpResponse)
    ensures CacheControlOf(r).Some? <==> HasHeader(r, "cache-control")
  {
    NoValuesExactly(r.headers, "cache-control");
  }

  /** The first `Age` line counts, and only if it is all digits once trimmed; too large a number saturates. */
  lemma AgeExactly(r: HttpResponse, before: seq<(string, string)>, h: (string, string), after: seq<(string, string)>)
    requires r.headers == before + [h] + after && SameButCase(h.0, "age")
    requires forall i :: 0 <= i < |before| ==> !SameButCase(before[i].0, "age")
    ensures var text := Trim(h.1);
            AgeOf(r) ==
            if text == "" || exists i :: 0 <= i < |text| && !('0' <= text[i] <= '9') then None
            else if DecimalValue(text) <= U64_MAX then Some(DecimalValue(text))
            else Some(U64_MAX)
  {
    NoValuesExactly(before, "age");
    OneHeaderValue(h, "age");
    HeaderValuesConcat(before, [h], "age");
    HeaderValuesConcat(before + [h], after, "age");
    assert [] + [h.1] == [h.1];
  }

  lemma NoAge(r: HttpResponse)
    requires !HasHeader(r, "age")
    ensures AgeOf(r) == None
  {
    NoValuesExactly(r.headers, "age");
  }
}
