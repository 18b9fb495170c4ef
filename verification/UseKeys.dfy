/** Keys of the one-time-use store. A key is the kind of credential, a colon and the digest of
    the credential's text; the text of a client assertion is its length-prefixed client id and jti. */
module UseKeys {
  import opened Text
  import opened Utf8
  import opened Numerals

  const KIND_CODE := "code"
  const KIND_REFRESH := "refresh"
  const KIND_ASSERTION := "assertion"

  function UseKey(kind: string, digest: string): string { kind + ":" + digest }

  /** A colon-free kind can be read back, so keys of different kinds never coincide. */
  lemma {:induction false} UseKeyInjective(k1: string, d1: string, k2: string, d2: string)
    requires ':' !in k1 && ':' !in k2
    requires UseKey(k1, d1) == UseKey(k2, d2)
    ensures k1 == k2 && d1 == d2
  {
    var a, b := UseKey(k1, d1), UseKey(k2, d2);
    assert a[|k1|] == ':' && b[|k2|] == ':';
    assert forall i :: 0 <= i < |k1| ==> a[i] == k1[i] && k1[i] != ':';
    assert forall i :: 0 <= i < |k2| ==> b[i] == k2[i] && k2[i] != ':';
    assert |k1| == |k2|;
    assert k1 == a[..|k1|] == k2;
    assert d1 == a[|k1| + 1..] == d2;
  }

  lemma KindsDiffer()
    ensures ':' !in KIND_CODE && ':' !in KIND_REFRESH && ':' !in KIND_ASSERTION
    ensures KIND_CODE != KIND_REFRESH && KIND_CODE != KIND_ASSERTION && KIND_REFRESH != KIND_ASSERTION
  {
    assert |KIND_CODE| == 4 && |KIND_REFRESH| == 7 && |KIND_ASSERTION| == 9;
  }

  // ---- Length-prefixed assertion text (bytes) ----------------------------

  const COLON: byte := 58

  /** A length in decimal, as bytes. */
  function Decimal(n: nat): seq<byte> { Encode(DecimalText(n)) }

  lemma DecimalInjective(m: nat, n: nat)
    requires Decimal(m) == Decimal(n)
    ensures m == n
  {
    DecodeEncode(DecimalText(m));
    DecodeEncode(DecimalText(n));
    DecimalTextReads(m);
    DecimalTextReads(n);
  }

  lemma DecimalHasNoColon(n: nat)
    ensures COLON !in Decimal(n)
  {
    DecimalTextReads(n);
    AsciiInBytes(DecimalText(n), ':');
    assert !IsDigit(':');
  }

  function AssertionText(clientId: seq<byte>, jti: seq<byte>): seq<byte> {
    Decimal(|clientId|) + [COLON] + clientId + [COLON] + Decimal(|jti|) + [COLON] + jti
  }

  lemma FirstColon(p: seq<byte>, x: seq<byte>, q: seq<byte>, y: seq<byte>)
    requires COLON !in p && COLON !in q
    requires p + [COLON] + x == q + [COLON] + y
    ensures p == q && x == y
  {
    var a, b := p + [COLON] + x, q + [COLON] + y;
    assert a[|p|] == COLON && b[|q|] == COLON;
    assert forall i :: 0 <= i < |p| ==> a[i] == p[i] && p[i] != COLON;
    assert forall i :: 0 <= i < |q| ==> b[i] == q[i] && q[i] != COLON;
    assert |p| == |q|;
    assert p == a[..|p|] == q;
    assert x == a[|p| + 1..] == y;
  }

  /** One length-prefixed part and what follows it. */
  function Part(x: seq<byte>, rest: seq<byte>): seq<byte> { Decimal(|x|) + [COLON] + x + rest }

  lemma PartInjective(x: seq<byte>, r: seq<byte>, y: seq<byte>, t: seq<byte>)
    requires Part(x, r) == Part(y, t)
    ensures x == y && r == t
  {
    assert Part(x, r) == Decimal(|x|) + [COLON] + (x + r);
    assert Part(y, t) == Decimal(|y|) + [COLON] + (y + t);
    DecimalHasNoColon(|x|);
    DecimalHasNoColon(|y|);
    FirstColon(Decimal(|x|), x + r, Decimal(|y|), y + t);
    DecimalInjective(|x|, |y|);
    assert x == (x + r)[..|x|] == y && r == (x + r)[|x|..] == t;
  }

  lemma TextParts(c: seq<byte>, p: seq<byte>, j: seq<byte>, q: seq<byte>)
    ensures p + [COLON] + c + [COLON] + q + [COLON] + j == p + [COLON] + c + ([COLON] + (q + [COLON] + j + []))
  {
  }

  /** The text determines the pair, whatever bytes the two parts hold. */
  lemma AssertionTextInjective(c1: seq<byte>, j1: seq<byte>, c2: seq<byte>, j2: seq<byte>)
    requires AssertionText(c1, j1) == AssertionText(c2, j2)
    ensures c1 == c2 && j1 == j2
  {
    var s1, s2 := [COLON] + Part(j1, []), [COLON] + Part(j2, []);
    TextParts(c1, Decimal(|c1|), j1, Decimal(|j1|));
    TextParts(c2, Decimal(|c2|), j2, Decimal(|j2|));
    PartInjective(c1, s1, c2, s2);
    assert s1[1..] == Part(j1, []) && s2[1..] == Part(j2, []);
    PartInjective(j1, [], j2, []);
  }

  /** Distinct (client, jti) pairs get distinct keys, and no assertion key is a code or refresh key. */
  lemma AssertionKeysDistinct(digest: seq<byte> -> string, c1: seq<byte>, j1: seq<byte>, c2: seq<byte>, j2: seq<byte>,
                              one: string, other: string)
    requires forall s, t :: digest(s) == digest(t) ==> s == t
    ensures UseKey(KIND_ASSERTION, digest(AssertionText(c1, j1))) ==
            UseKey(KIND_ASSERTION, digest(AssertionText(c2, j2)))
            <==> c1 == c2 && j1 == j2
    ensures UseKey(KIND_ASSERTION, one) != UseKey(KIND_CODE, other)
    ensures UseKey(KIND_ASSERTION, one) != UseKey(KIND_REFRESH, other)
    ensures UseKey(KIND_CODE, one) != UseKey(KIND_REFRESH, other)
  {
    KindsDiffer();
    var d1, d2 := digest(AssertionText(c1, j1)), digest(AssertionText(c2, j2));
    if UseKey(KIND_ASSERTION, d1) == UseKey(KIND_ASSERTION, d2) {
      UseKeyInjective(KIND_ASSERTION, d1, KIND_ASSERTION, d2);
      AssertionTextInjective(c1, j1, c2, j2);
    }
    if UseKey(KIND_ASSERTION, one) == UseKey(KIND_CODE, other) {
      UseKeyInjective(KIND_ASSERTION, one, KIND_CODE, other);
    }
    if UseKey(KIND_ASSERTION, one) == UseKey(KIND_REFRESH, other) {
      UseKeyInjective(KIND_ASSERTION, one, KIND_REFRESH, other);
    }
    if UseKey(KIND_CODE, one) == UseKey(KIND_REFRESH, other) {
      UseKeyInjective(KIND_CODE, one, KIND_REFRESH, other);
    }
  }
}
