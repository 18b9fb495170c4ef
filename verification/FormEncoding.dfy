/** application/x-www-form-urlencoded: the serializer that prints parameters and the parser that reads
    them back. */
module FormEncoding {
  import opened Utf8
  import opened Numerals

  const AMP: byte := 38
  const EQUALS: byte := 61
  const PLUS: byte := 43
  const SPACE: byte := 32
  const PERCENT: byte := 37
  const HASH: byte := 35
  const QUESTION: byte := 63

  predicate Unreserved(b: byte) {
    b == 42 || b == 45 || b == 46 || 48 <= b <= 57 || 65 <= b <= 90 || b == 95 || 97 <= b <= 122
  }

  function UpperHex(n: nat): byte
    requires n < 16
  {
    HexDigit(n, true) as int
  }

  function EncodeByte(b: byte): Bytes {
    if Unreserved(b) then [b]
    else if b == SPACE then [PLUS]
    else [PERCENT, UpperHex(b / 16), UpperHex(b % 16)]
  }

  function PercentEncode(s: Bytes): Bytes {
    if s == [] then [] else EncodeByte(s[0]) + PercentEncode(s[1..])
  }

  predicate IsHex(b: byte) { 48 <= b <= 57 || 65 <= b <= 70 || 97 <= b <= 102 }

  function HexValue(b: byte): (n: nat)
    requires IsHex(b)
    ensures n < 16
  {
    if b <= 57 then b - 48 else if b <= 70 then b - 55 else b - 87
  }

  /** A plus is a space; a percent sign not followed by two hexadecimal digits stands for itself. */
  function PercentDecode(s: Bytes): Bytes {
    if s == [] then []
    else if s[0] == PLUS then [SPACE] + PercentDecode(s[1..])
    else if s[0] == PERCENT && |s| >= 3 && IsHex(s[1]) && IsHex(s[2]) then
      [HexValue(s[1]) * 16 + HexValue(s[2])] + PercentDecode(s[3..])
    else [s[0]] + PercentDecode(s[1..])
  }

  function UrlEncode(s: string): Bytes { PercentEncode(Encode(s)) }

  function UrlDecode(b: Bytes): string { DecodeLossy(PercentDecode(b)) }

  /** Index of the first `d`, or the length. */
  function Find(s: Bytes, d: byte): (n: nat)
    ensures n <= |s|
    ensures forall i :: 0 <= i < n ==> s[i] != d
    ensures n < |s| ==> s[n] == d
  {
    if s == [] || s[0] == d then 0 else 1 + Find(s[1..], d)
  }

  function ReadPair(piece: Bytes): (string, string) {
    var n := Find(piece, EQUALS);
    (UrlDecode(piece[..n]), if n == |piece| then "" else UrlDecode(piece[n + 1..]))
  }

  /** The pairs of the non-empty pieces between ampersands. */
  function Parse(s: Bytes): seq<(string, string)>
    decreases |s|
  {
    if s == [] then []
    else
      var n := Find(s, AMP);
      var rest := if n == |s| then [] else Parse(s[n + 1..]);
      if n == 0 then rest else [ReadPair(s[..n])] + rest
  }

  function PrintPair(p: (string, string)): Bytes { UrlEncode(p.0) + [EQUALS] + UrlEncode(p.1) }

  function Serialize(pairs: seq<(string, string)>): Bytes {
    if pairs == [] then []
    else if |pairs| == 1 then PrintPair(pairs[0])
    else PrintPair(pairs[0]) + [AMP] + Serialize(pairs[1..])
  }

  /** All values given to `name`, in order. */
  function Named(pairs: seq<(string, string)>, name: string): seq<string> {
    if pairs == [] then []
    else if pairs[0].0 == name then [pairs[0].1] + Named(pairs[1..], name)
    else Named(pairs[1..], name)
  }

  lemma {:induction false} NamedConcat(a: seq<(string, string)>, b: seq<(string, string)>, name: string)
    ensures Named(a + b, name) == Named(a, name) + Named(b, name)
  {
    if a == [] {
      assert a + b == b;
    } else {
      assert (a + b)[1..] == a[1..] + b;
      NamedConcat(a[1..], b, name);
    }
  }

  // ---- Decoding undoes encoding -----------------------------------------------

  lemma DecodeByteEncoded(b: byte, rest: Bytes)
    ensures PercentDecode(EncodeByte(b) + rest) == [b] + PercentDecode(rest)
  {
    var s := EncodeByte(b) + rest;
    if Unreserved(b) || b == SPACE {
      assert s[1..] == rest;
    } else {
      assert s[3..] == rest;
      assert b / 16 * 16 + b % 16 == b;
      assert HexValue(UpperHex(b / 16)) == b / 16 && HexValue(UpperHex(b % 16)) == b % 16;
    }
  }

  lemma {:induction false} PercentRoundTrip(s: Bytes)
    ensures PercentDecode(PercentEncode(s)) == s
  {
    if s != [] {
      DecodeByteEncoded(s[0], PercentEncode(s[1..]));
      PercentRoundTrip(s[1..]);
    }
  }

  lemma UrlRoundTrip(s: string)
    ensures UrlDecode(UrlEncode(s)) == s
  {
    PercentRoundTrip(Encode(s));
    DecodeEncode(s);
  }

  /** Encoded text holds only unreserved bytes, plus and percent signs. */
  predicate Inert(b: byte) { Unreserved(b) || b == PLUS || b == PERCENT }

  lemma {:induction false} EncodedIsInert(s: Bytes)
    ensures forall b :: b in PercentEncode(s) ==> Inert(b)
  {
    if s != [] {
      assert forall b :: b in EncodeByte(s[0]) ==> Inert(b);
      EncodedIsInert(s[1..]);
    }
  }

  lemma FindAt(a: Bytes, d: byte, rest: Bytes)
    requires d !in a
    ensures Find(a + [d] + rest, d) == |a|
  {
    var s := a + [d] + rest;
    assert s[|a|] == d;
    assert forall i :: 0 <= i < |a| ==> s[i] == a[i];
  }

  lemma UrlEncodedIsInert(s: string)
    ensures AMP !in UrlEncode(s) && EQUALS !in UrlEncode(s) && HASH !in UrlEncode(s)
  {
    EncodedIsInert(Encode(s));
  }

  lemma ReadPrinted(p: (string, string))
    ensures AMP !in PrintPair(p) && HASH !in PrintPair(p) && PrintPair(p) != [] && ReadPair(PrintPair(p)) == p
  {
    var k, v := UrlEncode(p.0), UrlEncode(p.1);
    UrlEncodedIsInert(p.0);
    UrlEncodedIsInert(p.1);
    UrlRoundTrip(p.0);
    UrlRoundTrip(p.1);
    FindAt(k, EQUALS, v);
    assert PrintPair(p)[..|k|] == k && PrintPair(p)[|k| + 1..] == v;
  }

  lemma ParseStep(a: Bytes, rest: Bytes)
    requires AMP !in a
    ensures Parse(a + [AMP] + rest) == Parse(a) + Parse(rest)
  {
    var s := a + [AMP] + rest;
    FindAt(a, AMP, rest);
    assert s[|a| + 1..] == rest && s[..|a|] == a;
    if a != [] {
      assert a[..|a|] == a;
    }
  }

  lemma ParseOneMore(head: Bytes, tail: Bytes, more: Bytes, b: Bytes)
    requires AMP !in head && Parse(more) == Parse(tail) + Parse(b)
    ensures Parse(head + [AMP] + more) == Parse(head + [AMP] + tail) + Parse(b)
  {
    ParseStep(head, tail);
    ParseStep(head, more);
    Regroup(Parse(head), Parse(tail), Parse(b));
  }

  lemma CutAt(a: Bytes, n: nat, b: Bytes)
    requires n < |a| && a[n] == AMP
    ensures a[..n] + [AMP] + a[n + 1..] == a
    ensures a[..n] + [AMP] + (a[n + 1..] + [AMP] + b) == a + [AMP] + b
  {
  }

  /** Pieces on either side of an ampersand are read independently. */
  lemma {:induction false} ParseConcat(a: Bytes, b: Bytes)
    ensures Parse(a + [AMP] + b) == Parse(a) + Parse(b)
    decreases |a|
  {
    var n := Find(a, AMP);
    if n == |a| {
      ParseStep(a, b);
    } else {
      CutAt(a, n, b);
      ParseConcat(a[n + 1..], b);
      ParseOneMore(a[..n], a[n + 1..], a[n + 1..] + [AMP] + b, b);
    }
  }

  lemma Regroup(x: seq<(string, string)>, y: seq<(string, string)>, z: seq<(string, string)>)
    ensures x + (y + z) == (x + y) + z
  {
  }

  lemma ParsePrinted(p: (string, string))
    ensures Parse(PrintPair(p)) == [p]
  {
    ReadPrinted(p);
    var s := PrintPair(p);
    assert s[..|s|] == s;
  }

  /** The parser undoes the serializer, whatever the names and values hold. */
  lemma {:induction false} ParseSerialize(pairs: seq<(string, string)>)
    ensures Parse(Serialize(pairs)) == pairs && HASH !in Serialize(pairs)
  {
    if pairs != [] {
      ParsePrinted(pairs[0]);
      ReadPrinted(pairs[0]);
      if |pairs| > 1 {
        ParseSerialize(pairs[1..]);
        ParseConcat(PrintPair(pairs[0]), Serialize(pairs[1..]));
        assert pairs == [pairs[0]] + pairs[1..];
      }
    }
  }
}
