/** UTF-8: the encoding of strings, and the lossy decoding that replaces each maximal ill-formed
    part by one U+FFFD. */
module Utf8 {
  type byte = x: int | 0 <= x < 256
  type Bytes = seq<byte>

  const REPLACEMENT: char := '\U{fffd}'

  function EncodeChar(c: char): (b: Bytes)
    ensures b != []
    ensures c as int < 0x80 ==> b == [c as int]
    ensures c as int >= 0x80 ==> forall i :: 0 <= i < |b| ==> b[i] >= 0x80
  {
    var n := c as int;
    if n < 0x80 then [n]
    else if n < 0x800 then [0xC0 + n / 64, 0x80 + n % 64]
    else if n < 0x10000 then [0xE0 + n / 4096, 0x80 + n / 64 % 64, 0x80 + n % 64]
    else [0xF0 + n / 262144, 0x80 + n / 4096 % 64, 0x80 + n / 64 % 64, 0x80 + n % 64]
  }

  function Encode(s: string): Bytes {
    if s == [] then [] else EncodeChar(s[0]) + Encode(s[1..])
  }

  predicate Continues(b: Bytes, i: nat) { i < |b| && 0x80 <= b[i] <= 0xBF }

  function Bits(b: byte): int { b as int - 0x80 }

  /** The second byte may not make the sequence overlong, a surrogate or too large. */
  predicate SecondFits(first: byte, second: byte) {
    && 0x80 <= second <= 0xBF
    && (first == 0xE0 ==> second >= 0xA0)
    && (first == 0xED ==> second <= 0x9F)
    && (first == 0xF0 ==> second >= 0x90)
    && (first == 0xF4 ==> second <= 0x8F)
  }

  /** The first character of `b` and how many bytes it takes. */
  function TakeChar(b: Bytes): (r: (char, nat))
    requires b != []
    ensures 1 <= r.1 <= |b|
  {
    var n: int := b[0];
    if n < 0x80 then (n as char, 1)
    else if 0xC2 <= n <= 0xDF then
      if !Continues(b, 1) then (REPLACEMENT, 1)
      else (((n - 0xC0) * 64 + Bits(b[1])) as char, 2)
    else if 0xE0 <= n <= 0xEF then
      if |b| < 2 || !SecondFits(n, b[1]) then (REPLACEMENT, 1)
      else if !Continues(b, 2) then (REPLACEMENT, 2)
      else (((n - 0xE0) * 4096 + Bits(b[1]) * 64 + Bits(b[2])) as char, 3)
    else if 0xF0 <= n <= 0xF4 then
      if |b| < 2 || !SecondFits(n, b[1]) then (REPLACEMENT, 1)
      else if !Continues(b, 2) then (REPLACEMENT, 2)
      else if !Continues(b, 3) then (REPLACEMENT, 3)
      else (((n - 0xF0) * 262144 + Bits(b[1]) * 4096 + Bits(b[2]) * 64 + Bits(b[3])) as char, 4)
    else (REPLACEMENT, 1)
  }

  function DecodeLossy(b: Bytes): string
    decreases |b|
  {
    if b == [] then "" else
      var (c, n) := TakeChar(b);
      [c] + DecodeLossy(b[n..])
  }

  lemma SixBitGroups(n: nat)
    ensures n == n / 4096 * 4096 + n / 64 % 64 * 64 + n % 64
    ensures n / 4096 == n / 262144 * 64 + n / 4096 % 64
  {
    assert n / 4096 == n / 64 / 64 && n / 262144 == n / 4096 / 64;
  }

  lemma TakeTwo(n: nat, b: Bytes)
    requires 0x80 <= n < 0x800 && |b| >= 2 && b[0] == 0xC0 + n / 64 && b[1] == 0x80 + n % 64
    ensures TakeChar(b) == (n as char, 2)
  {
  }

  lemma TakeThree(n: nat, b: Bytes)
    requires (0x800 <= n < 0xD800 || 0xE000 <= n < 0x10000) && |b| >= 3
    requires b[0] == 0xE0 + n / 4096 && b[1] == 0x80 + n / 64 % 64 && b[2] == 0x80 + n % 64
    ensures TakeChar(b) == (n as char, 3)
  {
    SixBitGroups(n);
    assert SecondFits(b[0], b[1]);
  }

  lemma TakeFour(n: nat, b: Bytes)
    requires 0x10000 <= n < 0x110000 && |b| >= 4
    requires b[0] == 0xF0 + n / 262144 && b[1] == 0x80 + n / 4096 % 64 && b[2] == 0x80 + n / 64 % 64
             && b[3] == 0x80 + n % 64
    ensures TakeChar(b) == (n as char, 4)
  {
    SixBitGroups(n);
    assert SecondFits(b[0], b[1]);
  }

  lemma TakeEncoded(c: char, rest: Bytes)
    ensures TakeChar(EncodeChar(c) + rest) == (c, |EncodeChar(c)|)
  {
    var n, e := c as int, EncodeChar(c);
    var b := e + rest;
    assert forall i :: 0 <= i < |e| ==> b[i] == e[i];
    if n < 0x80 {
    } else if n < 0x800 {
      TakeTwo(n, b);
    } else if n < 0x10000 {
      TakeThree(n, b);
    } else {
      TakeFour(n, b);
    }
  }

  /** Decoding undoes encoding. */
  lemma {:induction false} DecodeEncode(s: string)
    ensures DecodeLossy(Encode(s)) == s
  {
    if s != [] {
      var rest := Encode(s[1..]);
      TakeEncoded(s[0], rest);
      assert (EncodeChar(s[0]) + rest)[|EncodeChar(s[0])|..] == rest;
      DecodeEncode(s[1..]);
    }
  }

  /** An ASCII character appears in the bytes exactly when it is in the text. */
  lemma {:induction false} AsciiInBytes(s: string, c: char)
    requires c as int < 0x80
    ensures c as int in Encode(s) <==> c in s
  {
    if s != [] {
      AsciiInBytes(s[1..], c);
      assert s == [s[0]] + s[1..];
    }
  }
}
