/** Numbers as text: decimal digits printed and read, hexadecimal digits. */
module Numerals {
  import opened Text

  ghost predicate AllDigits(s: string) { forall i :: 0 <= i < |s| ==> IsDigit(s[i]) }

  function DigitValue(c: char): nat { if IsDigit(c) then c as int - '0' as int else 0 }

  function DecimalValue(s: string): nat {
    if s == [] then 0 else DecimalValue(s[..|s| - 1]) * 10 + DigitValue(s[|s| - 1])
  }

  function DecimalText(n: nat): string {
    if n < 10 then [('0' as int + n) as char] else DecimalText(n / 10) + [('0' as int + n % 10) as char]
  }

  /** The decimal text of a number is all digits and reads as that number. */
  lemma {:induction false} DecimalTextReads(n: nat)
    ensures DecimalText(n) != "" && AllDigits(DecimalText(n)) && DecimalValue(DecimalText(n)) == n
  {
    var s := DecimalText(n);
    if n < 10 {
      assert s[..0] == "";
    } else {
      DecimalTextReads(n / 10);
      assert s[..|s| - 1] == DecimalText(n / 10);
    }
  }

  function HexDigit(n: nat, upper: bool): (c: char)
    requires n < 16
    ensures '0' <= c <= '9' || (if upper then 'A' <= c <= 'F' else 'a' <= c <= 'f')
  {
    if n < 10 then ('0' as int + n) as char
    else ((if upper then 'A' as int else 'a' as int) + n - 10) as char
  }
}
