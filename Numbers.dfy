/**
 * Decimal numbers as the catalogue code reads and writes them: `float()` on
 * the digit part of a size (restricted to unsigned whole numbers) and
 * `str()` on an entry count.
 */
module Numbers {
  import opened Wrappers
  import opened Strings

  predicate IsDigit(c: char) {
    '0' <= c <= '9'
  }

  predicate AllDigits(s: string) {
    forall i :: 0 <= i < |s| ==> IsDigit(s[i])
  }

  /** The value of a string of decimal digits, most significant first. */
  function DigitsValue(s: string): nat
    requires AllDigits(s)
  {
    if |s| == 0 then 0 else DigitsValue(s[..|s| - 1]) * 10 + (s[|s| - 1] as int - '0' as int)
  }

  /**
   * `float(s)` for the inputs this model admits: optional whitespace on
   * both sides of a non-empty run of decimal digits.
   */
  function ParseDecimal(s: string): (r: Option<nat>)
    ensures r.Some? ==> |s| > 0
  {
    var t := Strip(s);
    if |t| > 0 && AllDigits(t) then
      Some(DigitsValue(t))
    else
      None
  }

  /** Whatever is accepted is made only of digits and whitespace. */
  lemma ParseDecimalChars(s: string)
    requires ParseDecimal(s).Some?
    ensures forall i :: 0 <= i < |s| ==> IsDigit(s[i]) || IsSpace(s[i])
  {
    var t := Strip(s);
    var a := LeadingSpaces(s);
    StripShape(s);
    forall i | 0 <= i < |s| ensures IsDigit(s[i]) || IsSpace(s[i]) {
      if a <= i < a + |t| {
        assert s[i] == t[i - a];
      }
    }
  }

  /**
   * A run of digits with whitespace on either side is read as the run's
   * value, however much whitespace there is.
   */
  lemma ParseDecimalPadded(a: string, d: string, b: string)
    requires forall i :: 0 <= i < |a| ==> IsSpace(a[i])
    requires forall i :: 0 <= i < |b| ==> IsSpace(b[i])
    requires |d| > 0 && AllDigits(d)
    ensures ParseDecimal(a + d + b) == Some(DigitsValue(d))
  {
    var s := a + d + b;
    LeadingSpacesPrefix(a, d + b);
    assert s == a + (d + b) && s[|a|..] == d + b;
    TrailingSpacesSuffix(d, b);
    assert (d + b)[..|d|] == d;
  }

  /**
   * Conversely, whatever is read is one unbroken run of digits with only
   * whitespace before and after it, and the value read is the run's.
   */
  lemma ParseDecimalShape(s: string)
    requires ParseDecimal(s).Some?
    ensures var a, n := LeadingSpaces(s), |Strip(s)|;
      0 < n && a + n <= |s| && AllDigits(s[a..a + n])
      && ParseDecimal(s) == Some(DigitsValue(s[a..a + n]))
      && (forall i :: 0 <= i < a ==> IsSpace(s[i]))
      && (forall i :: a + n <= i < |s| ==> IsSpace(s[i]))
  {
    StripShape(s);
  }

  /** Whitespace inside the digits is not ignored: "1 2" cannot be read. */
  lemma ParseDecimalBrokenRun()
    ensures ParseDecimal("1 2") == None
  {
    assert LeadingSpaces("1 2") == 0;
    assert TrailingSpaces("1 2") == 0;
    assert !IsDigit("1 2"[1]);
  }

  function DigitChar(d: nat): (c: char)
    requires d < 10
    ensures IsDigit(c) && c as int - '0' as int == d
  {
    ('0' as int + d) as char
  }

  /** `str(n)` for a non-negative integer: its decimal digits, never empty. */
  function NatToString(n: nat): (r: string)
    ensures |r| > 0 && AllDigits(r)
  {
    if n < 10 then [DigitChar(n)] else NatToString(n / 10) + [DigitChar(n % 10)]
  }

  /** Reading back the digits `str` writes gives the number. */
  lemma {:induction false} NatToStringValue(n: nat)
    ensures DigitsValue(NatToString(n)) == n
  {
    var r := NatToString(n);
    if n < 10 {
      assert r[..0] == [];
    } else {
      NatToStringValue(n / 10);
      assert r[..|r| - 1] == NatToString(n / 10);
    }
  }

  /** A plain run of digits is read as its value. */
  lemma ParseDigits(d: string)
    requires |d| > 0 && AllDigits(d)
    ensures ParseDecimal(d) == Some(DigitsValue(d))
  {
    StripUnpadded(d);
  }

  /** `float(str(n)) == n`: the decimal writer and reader are inverse. */
  lemma NatToStringRoundTrip(n: nat)
    ensures ParseDecimal(NatToString(n)) == Some(n)
  {
    ParseDigits(NatToString(n));
    NatToStringValue(n);
  }

  /** `str` is injective: two counts print the same only when they are equal. */
  lemma NatToStringInjective(m: nat, n: nat)
    requires NatToString(m) == NatToString(n)
    ensures m == n
  {
    NatToStringValue(m);
    NatToStringValue(n);
  }
}
