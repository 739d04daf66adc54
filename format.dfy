/** Decimal rendering of patch numbers, as Python's `"{:02d}".format(n)` does it. */
module Format {

  function DigitChar(d: nat): (ch: char)
    requires d < 10
    ensures '0' <= ch <= '9'
    ensures ch as int - '0' as int == d
  {
    ('0' as int + d) as char
  }

  predicate IsDigits(s: string) {
    forall k :: 0 <= k < |s| ==> '0' <= s[k] <= '9'
  }

  /** The shortest decimal form of `n` (Python's `str(n)`). */
  function Decimal(n: nat): (s: string)
    ensures 1 <= |s|
    ensures IsDigits(s)
    ensures |s| > 1 ==> s[0] != '0'
  {
    if n < 10 then [DigitChar(n)] else Decimal(n / 10) + [DigitChar(n % 10)]
  }

  /** The value of a string of decimal digits (leading zeros allowed). */
  function Parse(s: string): (n: nat)
    requires IsDigits(s)
  {
    if s == [] then 0 else 10 * Parse(s[..|s| - 1]) + (s[|s| - 1] as int - '0' as int)
  }

  /** Reading back the decimal form of `n` gives `n`. */
  lemma {:induction false} ParseDecimal(n: nat)
    ensures Parse(Decimal(n)) == n
  {
    if n >= 10 {
      var s := Decimal(n);
      assert s[..|s| - 1] == Decimal(n / 10);
      ParseDecimal(n / 10);
    }
  }

  /** Leading zeros do not change the value read. */
  lemma {:induction false} ParseLeadingZeros(z: nat, s: string)
    requires IsDigits(s)
    ensures IsDigits(Zeros(z) + s) && Parse(Zeros(z) + s) == Parse(s)
  {
    if s == [] {
      assert Zeros(z) + s == Zeros(z);
      ZerosParse(z);
    } else {
      var t := Zeros(z) + s;
      assert t[..|t| - 1] == Zeros(z) + s[..|s| - 1];
      ParseLeadingZeros(z, s[..|s| - 1]);
    }
  }

  function Zeros(z: nat): (s: string)
    ensures |s| == z && IsDigits(s)
    ensures forall k :: 0 <= k < z ==> s[k] == '0'
  {
    if z == 0 then [] else Zeros(z - 1) + ['0']
  }

  lemma {:induction false} ZerosParse(z: nat)
    ensures Parse(Zeros(z)) == 0
  {
    if z > 0 {
      assert Zeros(z)[..z - 1] == Zeros(z - 1);
      ZerosParse(z - 1);
    }
  }

  /** `"{:0<width>d}".format(n)` for a non-negative `n`: the decimal form, zero-padded on the left to `width`. */
  function ZeroPadded(n: nat, width: nat): (s: string)
    ensures IsDigits(s)
    ensures |s| == if |Decimal(n)| < width then width else |Decimal(n)|
    ensures Parse(s) == n
  {
    var digits := Decimal(n);
    ParseDecimal(n);
    ParseLeadingZeros(if |digits| < width then width - |digits| else 0, digits);
    Zeros(if |digits| < width then width - |digits| else 0) + digits
  }

  /** Different numbers never render to the same zero-padded text. */
  lemma ZeroPaddedInjective(a: nat, b: nat, width: nat)
    requires ZeroPadded(a, width) == ZeroPadded(b, width)
    ensures a == b
  {
  }

  /** `"{:02d}".format(1) == "01"` and `"{:02d}".format(12) == "12"`. */
  lemma ZeroPaddedExamples()
    ensures ZeroPadded(1, 2) == "01"
    ensures ZeroPadded(12, 2) == "12"
    ensures ZeroPadded(100, 2) == "100"
  {
  }
}
