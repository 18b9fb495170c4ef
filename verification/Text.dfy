/** Strings as the provider and the relying party read them: whitespace, trimming,
    word splitting, joining and ASCII case folding. */
module Text {
  datatype Option<+T> = None | Some(value: T)

  datatype Result<+T, +E> = Ok(value: T) | Err(error: E)

  /** Unicode White_Space, the set used by `trim` and `split_whitespace`. */
  predicate IsWhitespace(c: char) {
    || '\U{9}' <= c <= '\U{d}'
    || c == ' ' || c == '\U{85}' || c == '\U{a0}' || c == '\U{1680}'
    || '\U{2000}' <= c <= '\U{200a}'
    || c == '\U{2028}' || c == '\U{2029}' || c == '\U{202f}' || c == '\U{205f}' || c == '\U{3000}'
  }

  /** The narrower ASCII set of `is_ascii_whitespace` (no vertical tab). */
  predicate IsAsciiWhitespace(c: char) {
    c == ' ' || c == '\t' || c == '\n' || c == '\U{c}' || c == '\r'
  }

  /** Unicode category Cc. */
  predicate IsControl(c: char) { c < ' ' || '\U{7f}' <= c <= '\U{9f}' }

  predicate IsDigit(c: char) { '0' <= c <= '9' }

  function TrimStart(s: string): string {
    if s != [] && IsWhitespace(s[0]) then TrimStart(s[1..]) else s
  }

  function TrimEnd(s: string): string {
    if s != [] && IsWhitespace(s[|s| - 1]) then TrimEnd(s[..|s| - 1]) else s
  }

  function Trim(s: string): string { TrimEnd(TrimStart(s)) }

  lemma TrimIdentity(s: string)
    requires s != [] && !IsWhitespace(s[0]) && !IsWhitespace(s[|s| - 1])
    ensures Trim(s) == s && TrimStart(s) == s && Trim(" " + s) == s
  {
    assert (" " + s)[1..] == s;
    assert TrimStart(" " + s) == TrimStart(s);
  }

  /** Number of leading characters that are not whitespace. */
  function WordLen(s: string): (n: nat)
    ensures n <= |s|
    ensures forall i :: 0 <= i < n ==> !IsWhitespace(s[i])
    ensures n < |s| ==> IsWhitespace(s[n])
  {
    if s == [] || IsWhitespace(s[0]) then 0 else 1 + WordLen(s[1..])
  }

  ghost predicate IsWord(w: string) {
    w != [] && forall i :: 0 <= i < |w| ==> !IsWhitespace(w[i])
  }

  /** `split_whitespace`: the maximal runs of non-whitespace characters. */
  function Words(s: string): (ws: seq<string>)
    ensures forall i :: 0 <= i < |ws| ==> IsWord(ws[i])
    decreases |s|
  {
    if s == [] then []
    else if IsWhitespace(s[0]) then Words(s[1..])
    else
      var n := WordLen(s);
      [s[..n]] + Words(s[n..])
  }

  function WordSet(s: string): set<string> { set w | w in Words(s) }

  function Join(parts: seq<string>, sep: string): string {
    if parts == [] then ""
    else if |parts| == 1 then parts[0]
    else parts[0] + sep + Join(parts[1..], sep)
  }

  lemma WordLenOfWord(w: string, rest: string)
    requires IsWord(w)
    requires rest == [] || IsWhitespace(rest[0])
    ensures WordLen(w + rest) == |w|
  {
    var s := w + rest;
    assert forall i :: 0 <= i < |w| ==> s[i] == w[i];
    assert rest != [] ==> s[|w|] == rest[0];
  }

  /** Splitting undoes joining words with single spaces. */
  lemma {:induction false} WordsJoin(ws: seq<string>)
    requires forall i :: 0 <= i < |ws| ==> IsWord(ws[i])
    ensures Words(Join(ws, " ")) == ws
  {
    if ws == [] {
    } else if |ws| == 1 {
      WordLenOfWord(ws[0], "");
      assert ws[0] + "" == ws[0];
      assert ws[0][|ws[0]|..] == "";
      assert Words(ws[0]) == [ws[0]] + Words("");
    } else {
      var w, tail := ws[0], Join(ws[1..], " ");
      var s := w + " " + tail;
      WordLenOfWord(w, " " + tail);
      assert s == w + (" " + tail);
      assert s[0] == w[0];
      assert s[..|w|] == w && s[|w|..] == " " + tail;
      assert (" " + tail)[1..] == tail;
      assert Words(" " + tail) == Words(tail);
      WordsJoin(ws[1..]);
    }
  }

  /** `split(d)`: always at least one piece; pieces may be empty. */
  function SplitOn(s: string, d: char): (parts: seq<string>)
    ensures |parts| >= 1
    ensures forall i :: 0 <= i < |parts| ==> d !in parts[i]
  {
    if s == [] then [""]
    else
      var rest := SplitOn(s[1..], d);
      if s[0] == d then [""] + rest else [[s[0]] + rest[0]] + rest[1..]
  }

  lemma {:induction false} JoinSplitOn(s: string, d: char)
    ensures Join(SplitOn(s, d), [d]) == s
  {
    if s != [] {
      JoinSplitOn(s[1..], d);
      var rest := SplitOn(s[1..], d);
      if s[0] == d {
        assert ([""] + rest)[1..] == rest;
        assert Join([""] + rest, [d]) == "" + [d] + Join(rest, [d]);
      } else {
        var parts := [[s[0]] + rest[0]] + rest[1..];
        assert parts[1..] == rest[1..];
        if |rest| == 1 {
        } else {
          assert Join(parts, [d]) == [s[0]] + rest[0] + [d] + Join(rest[1..], [d]);
          assert Join(rest, [d]) == rest[0] + [d] + Join(rest[1..], [d]);
        }
      }
      assert s == [s[0]] + s[1..];
    }
  }

  function LowerChar(c: char): char {
    if 'A' <= c <= 'Z' then (c as int + 32) as char else c
  }

  function Lower(s: string): (r: string)
    ensures |r| == |s|
  {
    seq(|s|, i requires 0 <= i < |s| => LowerChar(s[i]))
  }

  predicate EqIgnoreCase(a: string, b: string) { Lower(a) == Lower(b) }

  /** The two spellings of one ASCII letter. */
  predicate OtherCase(upper: char, lower: char) { 'A' <= upper <= 'Z' && lower as int == upper as int + 32 }

  /** Equal but for the case of ASCII letters. */
  ghost predicate SameButCase(a: string, b: string) {
    |a| == |b| && forall i :: 0 <= i < |a| ==> a[i] == b[i] || OtherCase(a[i], b[i]) || OtherCase(b[i], a[i])
  }

  lemma EqIgnoreCaseExactly(a: string, b: string)
    ensures EqIgnoreCase(a, b) <==> SameButCase(a, b)
  {
    if SameButCase(a, b) {
      assert forall i :: 0 <= i < |a| ==> LowerChar(a[i]) == LowerChar(b[i]);
    }
    if EqIgnoreCase(a, b) {
      assert |Lower(a)| == |Lower(b)|;
      forall i | 0 <= i < |a|
        ensures a[i] == b[i] || OtherCase(a[i], b[i]) || OtherCase(b[i], a[i])
      {
        assert Lower(a)[i] == LowerChar(a[i]) && Lower(b)[i] == LowerChar(b[i]);
      }
    }
  }
}
