/** Comma-separated header lists with quoted strings: splitting at commas outside quotes, and
    the quoting that protects any text from being split. */
module HeaderLists {
  import opened Text

  /** Scanner state: outside quotes, inside quotes, just after a backslash inside quotes. */
  datatype Scan = Plain | Quoted | Escaped

  function Next(st: Scan, c: char): Scan {
    match st
    case Escaped => Quoted
    case Quoted => if c == '\\' then Escaped else if c == '"' then Plain else Quoted
    case Plain => if c == '"' then Quoted else Plain
  }

  function ScanFrom(st: Scan, s: string): Scan
    decreases s
  {
    if s == [] then st else ScanFrom(Next(st, s[0]), s[1..])
  }

  /** The list elements of `s`, read from state `st`. */
  function Split(st: Scan, s: string): (parts: seq<string>)
    ensures |parts| >= 1
    decreases s
  {
    if s == [] then [""]
    else if st == Plain && s[0] == ',' then [""] + Split(Plain, s[1..])
    else
      var rest := Split(Next(st, s[0]), s[1..]);
      Prepend([s[0]], rest)
  }

  function Prepend(p: string, parts: seq<string>): seq<string>
    requires parts != []
  {
    [p + parts[0]] + parts[1..]
  }

  lemma PrependFacts(p: string, c: char, parts: seq<string>)
    requires parts != []
    ensures Prepend("", parts) == parts
    ensures Prepend(p, Prepend([c], parts)) == Prepend(p + [c], parts)
    ensures Prepend(p, [""] + parts) == [p] + parts
  {
    assert "" + parts[0] == parts[0] && parts == [parts[0]] + parts[1..];
    assert Prepend([c], parts)[1..] == parts[1..];
    assert p + ([c] + parts[0]) == p + [c] + parts[0];
    assert p + "" == p && ([""] + parts)[1..] == parts;
  }

  /** The elements cut so far, the open one and what is left make up the whole split. */
  ghost predicate Progress(value: string, parts: seq<string>, start: nat, i: nat, st: Scan)
    requires start <= i <= |value|
  {
    Split(Plain, value) == parts + Prepend(value[start..i], Split(st, value[i..]))
  }

  lemma ProgressStep(value: string, parts: seq<string>, start: nat, i: nat, st: Scan)
    requires start <= i < |value| && Progress(value, parts, start, i, st)
    ensures if st == Plain && value[i] == ',' then Progress(value, parts + [value[start..i]], i + 1, i + 1, Plain)
            else Progress(value, parts, start, i + 1, Next(st, value[i]))
  {
    var c, p := value[i], value[start..i];
    var next := Split(Next(st, c), value[i + 1..]);
    PrependFacts(p, c, next);
    assert value[i..][1..] == value[i + 1..];
    assert value[start..i + 1] == p + [c];
    if st == Plain && c == ',' {
      assert Split(st, value[i..]) == [""] + next;
      assert value[i + 1..i + 1] == "";
      assert parts + ([p] + next) == parts + [p] + next;
    } else {
      assert Split(st, value[i..]) == Prepend([c], next);
    }
  }

  /** The scanner: one pass over the characters, cutting at each unquoted comma. */
  method SplitUnquotedCommas(value: string) returns (parts: seq<string>)
    ensures parts == Split(Plain, value)
  {
    parts := [];
    var start, inQuotes, escaped := 0, false, false;
    assert value[0..] == value && value[0..0] == "";
    PrependFacts("", ' ', Split(Plain, value));
    for i := 0 to |value|
      invariant 0 <= start <= i
      invariant escaped ==> inQuotes
      invariant Progress(value, parts, start, i, if escaped then Escaped else if inQuotes then Quoted else Plain)
    {
      var c := value[i];
      ProgressStep(value, parts, start, i, if escaped then Escaped else if inQuotes then Quoted else Plain);
      if escaped {
        escaped := false;
      } else if inQuotes && c == '\\' {
        escaped := true;
      } else if c == '"' {
        inQuotes := !inQuotes;
      } else if c == ',' && !inQuotes {
        parts := parts + [value[start..i]];
        start := i + 1;
      }
    }
    assert value[|value|..] == "" && value[start..|value|] == value[start..];
    assert value[start..] + "" == value[start..];
    parts := parts + [value[start..]];
  }

  predicate Balanced(s: string) { ScanFrom(Plain, s) == Plain }

  method QuotesBalanced(value: string) returns (ok: bool)
    ensures ok <==> Balanced(value)
  {
    var inQuotes, escaped := false, false;
    for i := 0 to |value|
      invariant escaped ==> inQuotes
      invariant ScanFrom(Plain, value) ==
                ScanFrom(if escaped then Escaped else if inQuotes then Quoted else Plain, value[i..])
    {
      var c := value[i];
      assert value[i..][1..] == value[i + 1..];
      if escaped {
        escaped := false;
      } else if inQuotes && c == '\\' {
        escaped := true;
      } else if c == '"' {
        inQuotes := !inQuotes;
      }
    }
    return !inQuotes;
  }

  /** No comma of `s`, read from state `st`, is outside quotes. */
  predicate NoBareComma(st: Scan, s: string)
    decreases s
  {
    s == [] || (!(st == Plain && s[0] == ',') && NoBareComma(Next(st, s[0]), s[1..]))
  }

  lemma {:induction false} ScanConcat(st: Scan, a: string, b: string)
    ensures ScanFrom(st, a + b) == ScanFrom(ScanFrom(st, a), b)
    ensures NoBareComma(st, a + b) <==> NoBareComma(st, a) && NoBareComma(ScanFrom(st, a), b)
    decreases a
  {
    if a == [] {
      assert a + b == b;
    } else {
      assert (a + b)[1..] == a[1..] + b;
      ScanConcat(Next(st, a[0]), a[1..], b);
    }
  }

  /** Joining the elements with commas restores the text, whatever it is. */
  lemma {:induction false} JoinSplit(st: Scan, s: string)
    ensures Join(Split(st, s), ",") == s
    decreases s
  {
    if s != [] {
      if st == Plain && s[0] == ',' {
        var rest := Split(Plain, s[1..]);
        JoinSplit(Plain, s[1..]);
        assert ([""] + rest)[1..] == rest;
        assert Join([""] + rest, ",") == "" + "," + Join(rest, ",");
      } else {
        var rest := Split(Next(st, s[0]), s[1..]);
        JoinSplit(Next(st, s[0]), s[1..]);
        var parts := [[s[0]] + rest[0]] + rest[1..];
        assert parts[1..] == rest[1..];
        if |rest| > 1 {
          assert Join(parts, ",") == [s[0]] + rest[0] + "," + Join(rest[1..], ",");
          assert Join(rest, ",") == rest[0] + "," + Join(rest[1..], ",");
        }
      }
      assert s == [s[0]] + s[1..];
    }
  }

  /** An element that is balanced and has no bare comma stays whole. */
  lemma {:induction false} SplitElement(st: Scan, a: string, rest: string)
    requires NoBareComma(st, a)
    ensures var parts := Split(ScanFrom(st, a), rest);
            Split(st, a + rest) == [a + parts[0]] + parts[1..]
    decreases a
  {
    if a == [] {
      assert a + rest == rest;
      var parts := Split(st, rest);
      assert "" + parts[0] == parts[0];
    } else {
      assert (a + rest)[1..] == a[1..] + rest;
      SplitElement(Next(st, a[0]), a[1..], rest);
      var parts := Split(ScanFrom(st, a), rest);
      assert a == [a[0]] + a[1..];
      assert [a[0]] + (a[1..] + parts[0]) == a + parts[0];
    }
  }

  ghost predicate IsElement(a: string) { NoBareComma(Plain, a) && Balanced(a) }

  /** Splitting undoes joining balanced elements. */
  lemma {:induction false} SplitJoin(parts: seq<string>)
    requires parts != [] && forall i :: 0 <= i < |parts| ==> IsElement(parts[i])
    ensures Split(Plain, Join(parts, ",")) == parts
  {
    var a := parts[0];
    if |parts| == 1 {
      SplitElement(Plain, a, "");
      assert a + "" == a;
    } else {
      var tail := Join(parts[1..], ",");
      SplitJoin(parts[1..]);
      SplitElement(Plain, a, "," + tail);
      assert a + "," + tail == a + ("," + tail);
      assert ("," + tail)[1..] == tail;
      assert Split(Plain, "," + tail) == [""] + Split(Plain, tail);
      assert a + "" == a;
    }
  }

  /** A comma outside quotes separates what comes before from what comes after. */
  lemma {:induction false} SplitAtComma(st: Scan, a: string, c: string)
    requires ScanFrom(st, a) == Plain
    ensures Split(st, a + "," + c) == Split(st, a) + Split(Plain, c)
    decreases a
  {
    var s := a + "," + c;
    if a == [] {
      assert s[1..] == c && s[0] == ',';
    } else {
      assert s[0] == a[0] && s[1..] == a[1..] + "," + c;
      if st == Plain && a[0] == ',' {
        SplitAtComma(Plain, a[1..], c);
        assert [""] + (Split(Plain, a[1..]) + Split(Plain, c)) == [""] + Split(Plain, a[1..]) + Split(Plain, c);
      } else {
        SplitAtComma(Next(st, a[0]), a[1..], c);
        PrependConcat([a[0]], Split(Next(st, a[0]), a[1..]), Split(Plain, c));
      }
    }
  }

  lemma PrependConcat(p: string, a: seq<string>, b: seq<string>)
    requires a != []
    ensures Prepend(p, a + b) == Prepend(p, a) + b
  {
  }

  // ---- Quoting -------------------------------------------------------------

  /** Backslash-escapes quotes and backslashes. */
  function Escape(v: string): string {
    if v == [] then ""
    else if v[0] == '"' || v[0] == '\\' then ['\\', v[0]] + Escape(v[1..])
    else [v[0]] + Escape(v[1..])
  }

  function Quote(v: string): string { "\"" + Escape(v) + "\"" }

  lemma {:induction false} EscapeStaysQuoted(v: string)
    ensures ScanFrom(Quoted, Escape(v)) == Quoted && NoBareComma(Quoted, Escape(v))
  {
    if v != [] {
      EscapeStaysQuoted(v[1..]);
      var e := Escape(v);
      if v[0] == '"' || v[0] == '\\' {
        assert e[1..] == [v[0]] + Escape(v[1..]);
        assert e[1..][1..] == Escape(v[1..]);
      } else {
        assert e[1..] == Escape(v[1..]);
      }
    }
  }

  /** Quoted text of any content is one balanced element. */
  lemma QuoteIsElement(v: string)
    ensures IsElement(Quote(v))
  {
    EscapeStaysQuoted(v);
    var q := Quote(v);
    assert q[1..] == Escape(v) + "\"";
    ScanConcat(Quoted, Escape(v), "\"");
  }

  /** Characters of a token: they never change the scanner's state. */
  predicate IsTokenChar(c: char) {
    !IsWhitespace(c) && c != '"' && c != ',' && c != '=' && c != '\\' && ' ' <= c
  }

  predicate IsToken(s: string) { s != [] && forall i :: 0 <= i < |s| ==> IsTokenChar(s[i]) }

  /** Text without quotes, backslashes or commas is one balanced element. */
  lemma {:induction false} BareIsElement(s: string)
    requires forall i :: 0 <= i < |s| ==> s[i] != '"' && s[i] != ','
    ensures IsElement(s)
  {
    if s != [] {
      BareIsElement(s[1..]);
    }
  }

  lemma ElementConcat(a: string, b: string)
    requires IsElement(a) && IsElement(b)
    ensures IsElement(a + b)
  {
    ScanConcat(Plain, a, b);
  }

  // ---- Lists printed with a comma and a space ---------------------------------

  function Indented(items: seq<string>): seq<string> {
    if items == [] then [] else [" " + items[0]] + Indented(items[1..])
  }

  /** Elements after the first are preceded by a space. */
  function Spaced(items: seq<string>): seq<string> {
    if items == [] then [] else [items[0]] + Indented(items[1..])
  }

  /** An element with no whitespace at its ends. */
  ghost predicate Solid(item: string) {
    item != [] && !IsWhitespace(item[0]) && !IsWhitespace(item[|item| - 1]) && IsElement(item)
  }

  lemma {:induction false} IndentedElements(items: seq<string>)
    requires forall i :: 0 <= i < |items| ==> Solid(items[i])
    ensures |Indented(items)| == |items| && forall i :: 0 <= i < |items| ==> IsElement(Indented(items)[i])
  {
    if items != [] {
      BareIsElement(" ");
      ElementConcat(" ", items[0]);
      IndentedElements(items[1..]);
    }
  }

  lemma {:induction false} JoinSpaced(first: string, items: seq<string>)
    ensures Join([first] + Indented(items), ",") == Join([first] + items, ", ")
    decreases items
  {
    if items != [] {
      var more := Indented(items);
      assert ([first] + more)[1..] == more && ([first] + items)[1..] == items;
      assert items == [items[0]] + items[1..];
      JoinSpaced(items[0], items[1..]);
      JoinHead(" ", items[0], Indented(items[1..]));
      assert more == [" " + items[0]] + Indented(items[1..]);
      assert first + "," + (" " + Join(items, ", ")) == first + ", " + Join(items, ", ");
    }
  }

  lemma JoinHead(p: string, head: string, rest: seq<string>)
    ensures Join([p + head] + rest, ",") == p + Join([head] + rest, ",")
  {
    assert ([p + head] + rest)[1..] == rest && ([head] + rest)[1..] == rest;
    if rest != [] {
      assert p + head + "," + Join(rest, ",") == p + (head + "," + Join(rest, ","));
    }
  }

  /** A printed list splits into its elements, each after the first with its leading space. */
  lemma SplitSpaced(items: seq<string>)
    requires items != [] && forall i :: 0 <= i < |items| ==> Solid(items[i])
    ensures Split(Plain, Join(items, ", ")) == Spaced(items)
    ensures Balanced(Join(items, ", "))
  {
    SpacedElements(items);
    assert Join(items, ", ") == Join(Spaced(items), ",") by {
      assert items == [items[0]] + items[1..];
      JoinSpaced(items[0], items[1..]);
    }
    JoinOfElements(Spaced(items), Join(items, ", "));
  }

  lemma JoinOfElements(parts: seq<string>, text: string)
    requires parts != [] && text == Join(parts, ",") && forall i :: 0 <= i < |parts| ==> IsElement(parts[i])
    ensures Split(Plain, text) == parts && Balanced(text)
  {
    SplitJoin(parts);
    JoinBalanced(parts);
  }

  lemma SpacedElements(items: seq<string>)
    requires items != [] && forall i :: 0 <= i < |items| ==> Solid(items[i])
    ensures |Spaced(items)| == |items| && forall i :: 0 <= i < |items| ==> IsElement(Spaced(items)[i])
  {
    var rest := items[1..];
    IndentedElements(rest);
    forall i | 0 <= i < |items| ensures IsElement(Spaced(items)[i]) {
      if i > 0 { assert Spaced(items)[i] == Indented(rest)[i - 1]; }
    }
  }

  lemma {:induction false} JoinBalanced(parts: seq<string>)
    requires forall i :: 0 <= i < |parts| ==> IsElement(parts[i])
    ensures Balanced(Join(parts, ","))
  {
    if |parts| > 1 {
      JoinBalanced(parts[1..]);
      ScanConcat(Plain, parts[0] + ",", Join(parts[1..], ","));
      ScanConcat(Plain, parts[0], ",");
    }
  }
}
