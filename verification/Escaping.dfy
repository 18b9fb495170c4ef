/** Text from upstream made safe for messages: control and invisible characters are written as
    escapes, and the length is capped without ever cutting an escape in two. */
module Escaping {
  import opened Text
  import opened Numerals

  /** Bidirectional controls, separators and characters that render as nothing. */
  predicate IsInvisibleFormat(c: char) {
    || c == '\U{61c}' || c == '\U{200e}' || c == '\U{200f}' || c == '\U{2028}' || c == '\U{2029}'
    || '\U{202a}' <= c <= '\U{202e}' || '\U{2066}' <= c <= '\U{2069}'
    || c == '\U{ad}' || '\U{600}' <= c <= '\U{605}' || c == '\U{6dd}' || c == '\U{70f}'
    || '\U{890}' <= c <= '\U{891}' || c == '\U{8e2}' || '\U{180b}' <= c <= '\U{180f}'
    || '\U{200b}' <= c <= '\U{200d}' || '\U{2060}' <= c <= '\U{2064}'
    || c == '\U{2065}' || '\U{206a}' <= c <= '\U{206f}' || c == '\U{feff}' || '\U{fff0}' <= c <= '\U{fffb}'
    || c == '\U{110bd}' || c == '\U{110cd}' || '\U{13430}' <= c <= '\U{1343f}'
    || '\U{1bca0}' <= c <= '\U{1bca3}' || '\U{1d173}' <= c <= '\U{1d17a}'
    || c == '\U{34f}' || '\U{115f}' <= c <= '\U{1160}' || '\U{17b4}' <= c <= '\U{17b5}'
    || c == '\U{3164}' || c == '\U{ffa0}' || '\U{fe00}' <= c <= '\U{fe0f}'
    || '\U{e0000}' <= c <= '\U{e0fff}'
  }

  predicate IsUnsafe(c: char) { IsControl(c) || IsInvisibleFormat(c) }

  ghost predicate Clean(s: string) { forall i :: 0 <= i < |s| ==> !IsUnsafe(s[i]) }

  const ELLIPSIS: char := '\U{2026}'

  function Hex(n: nat): (s: string)
    ensures s != [] && Clean(s)
  {
    if n < 16 then [HexDigit(n, false)] else Hex(n / 16) + [HexDigit(n % 16, false)]
  }

  /** How one character is written. */
  function Piece(c: char): (p: string)
    ensures p != []
  {
    if IsUnsafe(c) then "\\u{" + Hex(c as int) + "}" else [c]
  }

  /** The pieces of a text, one after the other. */
  function Concat(piece: char -> string, s: string): string {
    if s == [] then "" else Concat(piece, s[..|s| - 1]) + piece(s[|s| - 1])
  }

  /** The uncapped escaped text. */
  function EscapeAll(s: string): string { Concat(Piece, s) }

  /** `out` holds the whole pieces of the first `k` characters, as many as the cap allows, and an
      ellipsis if that is not all of them. */
  ghost predicate CapsAt(s: string, cap: nat, k: nat, out: string) {
    && k <= |s|
    && |EscapeAll(s[..k])| <= cap
    && (if k == |s| then out == EscapeAll(s[..k])
        else |EscapeAll(s[..k + 1])| > cap && out == EscapeAll(s[..k]) + [ELLIPSIS])
  }

  ghost predicate Caps(s: string, cap: nat, out: string) { exists k: nat :: CapsAt(s, cap, k, out) }

  function CappedFrom(s: string, cap: nat, k: nat): (out: string)
    requires k <= |s| && |EscapeAll(s[..k])| <= cap
    ensures Caps(s, cap, out)
    decreases |s| - k
  {
    if k == |s| then
      var out := EscapeAll(s[..k]);
      assert CapsAt(s, cap, k, out);
      out
    else if |EscapeAll(s[..k + 1])| > cap then
      var out := EscapeAll(s[..k]) + [ELLIPSIS];
      assert CapsAt(s, cap, k, out);
      out
    else CappedFrom(s, cap, k + 1)
  }

  function Capped(s: string, cap: nat): (out: string)
    ensures Caps(s, cap, out)
  {
    CappedFrom(s, cap, 0)
  }

  /** The escaping loop. */
  method EscapeUpstreamText(s: string, cap: nat) returns (out: string)
    ensures out == Capped(s, cap)
  {
    out := "";
    var count := 0;
    for i := 0 to |s|
      invariant out == EscapeAll(s[..i]) && count == |out| <= cap
      invariant CappedFrom(s, cap, i) == Capped(s, cap)
    {
      var piece := Piece(s[i]);
      ConcatStep(Piece, s, i);
      if count + |piece| > cap {
        out := out + [ELLIPSIS];
        return;
      }
      out := out + piece;
      count := count + |piece|;
    }
  }

  lemma PieceClean(c: char)
    ensures Clean(Piece(c))
  {
  }

  lemma {:induction false} EscapeAllClean(s: string)
    ensures Clean(EscapeAll(s))
  {
    if s != [] {
      EscapeAllClean(s[..|s| - 1]);
      PieceClean(s[|s| - 1]);
    }
  }

  lemma ConcatStep(piece: char -> string, s: string, k: nat)
    requires k < |s|
    ensures Concat(piece, s[..k + 1]) == Concat(piece, s[..k]) + piece(s[k])
  {
    assert s[..k + 1][..k] == s[..k];
  }

  lemma {:induction false} ConcatGrows(piece: char -> string, s: string, j: nat, k: nat)
    requires j <= k <= |s|
    ensures |Concat(piece, s[..j])| <= |Concat(piece, s[..k])|
    decreases k
  {
    if j < k {
      ConcatGrows(piece, s, j, k - 1);
      ConcatStep(piece, s, k - 1);
    }
  }

  /** The cap and the text determine the output. */
  lemma CappedTextUnique(s: string, cap: nat, a: string, b: string)
    requires Caps(s, cap, a) && Caps(s, cap, b)
    ensures a == b
  {
    var j: nat :| CapsAt(s, cap, j, a);
    var k: nat :| CapsAt(s, cap, k, b);
    if j < k {
      ConcatGrows(Piece, s, j + 1, k);
    } else if k < j {
      ConcatGrows(Piece, s, k + 1, j);
    }
  }

  lemma EllipsisIsClean(p: string)
    requires Clean(p)
    ensures Clean(p + [ELLIPSIS])
  {
    assert !IsUnsafe(ELLIPSIS);
  }

  /** At most one character over the cap, and nothing unsafe is left. */
  lemma CappedTextBounded(s: string, cap: nat, out: string)
    requires Caps(s, cap, out)
    ensures |out| <= cap + 1 && Clean(out)
  {
    var k: nat :| CapsAt(s, cap, k, out);
    EscapeAllClean(s[..k]);
    EllipsisIsClean(EscapeAll(s[..k]));
  }

  /** The whole escaped text comes out when it fits; otherwise whole pieces of a proper prefix and the ellipsis. */
  lemma WholeTextWhenItFits(s: string, cap: nat, out: string)
    requires Caps(s, cap, out)
    ensures if |EscapeAll(s)| <= cap then out == EscapeAll(s)
            else exists k :: 0 <= k < |s| && out == EscapeAll(s[..k]) + [ELLIPSIS]
  {
    var k: nat :| CapsAt(s, cap, k, out);
    assert s[..|s|] == s;
    if k < |s| {
      ConcatGrows(Piece, s, k + 1, |s|);
    }
  }

  lemma {:induction false} CleanTextKept(s: string)
    requires Clean(s)
    ensures EscapeAll(s) == s
  {
    if s != [] {
      CleanTextKept(s[..|s| - 1]);
      assert s == s[..|s| - 1] + [s[|s| - 1]];
    }
  }

  lemma CleanTextCapsItself(out: string, cap: nat)
    requires Clean(out) && (|out| <= cap || (|out| == cap + 1 && out[cap] == ELLIPSIS))
    ensures Caps(out, cap, out)
  {
    CleanTextKept(out);
    assert out[..|out|] == out;
    if |out| <= cap {
      assert CapsAt(out, cap, |out|, out);
    } else {
      CleanTextKept(out[..cap]);
      assert CapsAt(out, cap, cap, out);
    }
  }

  /** Escaping again with the same cap changes nothing. */
  lemma EscapingIdempotent(s: string, cap: nat)
    ensures Capped(Capped(s, cap), cap) == Capped(s, cap)
  {
    var out := Capped(s, cap);
    CappedTextBounded(s, cap, out);
    CleanTextCapsItself(out, cap);
    CappedTextUnique(out, cap, Capped(out, cap), out);
  }
}
