/** `decimal_to_binary` (`bin(n)[2:]`) and the string-to-integer conversion
    the decompressors apply to the stored fields (`int(s, 2)` and `int(s)`). */
module Binary {
  import opened Common

  predicate IsDigit(c: char, base: nat)
  {
    '0' <= c <= '9' && (c as int) - ('0' as int) < base
  }

  function DigitValue(c: char): (d: nat)
    requires '0' <= c <= '9'
  {
    (c as int) - ('0' as int)
  }

  predicate AllDigits(s: string, base: nat)
  {
    forall k :: 0 <= k < |s| ==> IsDigit(s[k], base)
  }

  /** The number a string of digits denotes, most significant first. */
  function DigitsValue(s: string, base: nat): (v: nat)
    requires AllDigits(s, base)
  {
    if s == [] then 0
    else DigitsValue(s[..|s| - 1], base) * base + DigitValue(s[|s| - 1])
  }

  /** Python's `int(s, base)` on plain digit strings: empty strings and
      strings with a character that is not a digit of the base are rejected
      (a `ValueError` in the source). */
  function ParseInt(s: string, base: nat): (r: Option<nat>)
    requires 2 <= base <= 10
    ensures r.Some? <==> |s| > 0 && AllDigits(s, base)
  {
    if |s| > 0 && AllDigits(s, base) then Some(DigitsValue(s, base)) else None
  }

  /** `decimal_to_binary`: the binary digits of `n` without the `0b` prefix.
      Nonzero values have no leading zero, 0 is `"0"`, and reading the
      digits back in base 2 gives `n`. */
  function DecimalToBinary(n: nat): (s: string)
    ensures |s| >= 1 && AllDigits(s, 2)
    ensures n == 0 <==> s == "0"
    ensures n >= 1 ==> s[0] == '1'
    ensures ParseInt(s, 2) == Some(n)
  {
    if n < 2 then (if n == 0 then "0" else "1")
    else
      var high := DecimalToBinary(n / 2);
      var s := high + (if n % 2 == 0 then "0" else "1");
      assert s[..|s| - 1] == high;
      s
  }

  lemma {:induction false} LeadingOnePositive(s: string)
    requires |s| > 0 && AllDigits(s, 2) && s[0] == '1'
    ensures DigitsValue(s, 2) >= 1
  {
    if |s| > 1 {
      var p := s[..|s| - 1];
      assert p[0] == s[0];
      LeadingOnePositive(p);
    }
  }

  /** The converse round trip: a binary string without a leading zero is
      exactly what `decimal_to_binary` prints for its value. */
  lemma {:induction false} BinaryCanonical(s: string)
    requires |s| > 0 && AllDigits(s, 2)
    requires s[0] == '1' || s == "0"
    ensures DecimalToBinary(DigitsValue(s, 2)) == s
  {
    if |s| > 1 {
      var p := s[..|s| - 1];
      assert p[0] == s[0];
      LeadingOnePositive(p);
      BinaryCanonical(p);
      var v := DigitsValue(s, 2);
      assert v / 2 == DigitsValue(p, 2) && v % 2 == DigitValue(s[|s| - 1]);
      assert s == p + [s[|s| - 1]];
    }
  }
}
