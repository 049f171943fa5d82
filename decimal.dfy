/**
 * Times are kept as integer hundredths of a second, so that the tool's
 * `toFixed(2)` is exact and reading a two-decimal field back is exact too.
 */
module Decimal {
  import opened Wrappers
  import opened Text

  /** The digits of a non-negative amount of hundredths, as `toFixed(2)` writes them. */
  function Unsigned2(n: nat): (r: string)
    ensures |r| >= 4 && r[|r| - 3] == '.'
    ensures AllDigits(r[..|r| - 3]) && AllDigits(r[|r| - 2..])
  {
    NatToString(n / 100) + "." + [DigitChar(n / 10 % 10), DigitChar(n % 10)]
  }

  /** `(h / 100).toFixed(2)`: an optional minus sign, the whole part, a point and two digits. */
  function Fixed2(h: int): (r: string)
    ensures |r| >= 4 && r[|r| - 3] == '.'
    ensures forall i :: 0 <= i < |r| ==> IsDigit(r[i]) || r[i] == '.' || r[i] == '-'
    ensures r[0] == '-' <==> h < 0
  {
    if h < 0 then "-" + Unsigned2(-h) else Unsigned2(h)
  }

  /** The value of a fraction of at most two digits, in hundredths. */
  function FractionValue(frac: string): (v: nat)
    requires |frac| <= 2 && AllDigits(frac)
    ensures v < 100
  {
    if |frac| == 0 then 0
    else if |frac| == 1 then DigitValue(frac[0]) * 10
    else DigitValue(frac[0]) * 10 + DigitValue(frac[1])
  }

  /** Reads `D+` or `D+.` or `D+.D` or `D+.DD` as hundredths; anything else is not a number. */
  function ParseUnsigned(s: string): (r: Option<int>)
    ensures r.Some? ==> r.value >= 0
  {
    var i := FirstIndex(s, '.');
    var whole := s[..i];
    if whole == [] || !AllDigits(whole) then None
    else if i == |s| then Some(DigitsValue(whole) * 100)
    else
      var frac := s[i + 1..];
      if |frac| > 2 || !AllDigits(frac) then None
      else Some(DigitsValue(whole) * 100 + FractionValue(frac))
  }

  /**
   * `parseFloat` of a field, in hundredths: an optional minus sign followed by
   * a decimal with at most two fraction digits. `None` stands for `NaN`.
   */
  function ParseNumber(s: string): Option<int> {
    if s != [] && s[0] == '-' then
      match ParseUnsigned(s[1..])
      case None => None
      case Some(v) => Some(-v)
    else ParseUnsigned(s)
  }

  lemma DigitCharValue(d: nat)
    requires d < 10
    ensures DigitValue(DigitChar(d)) == d
  {
  }

  /** The first point of `w + rest` is where `rest` starts, when `w` has none. */
  lemma {:induction false} FirstIndexAfter(w: string, rest: string, c: char)
    requires c !in w && rest != [] && rest[0] == c
    ensures FirstIndex(w + rest, c) == |w|
  {
    if w != [] {
      assert (w + rest)[1..] == w[1..] + rest;
      FirstIndexAfter(w[1..], rest, c);
    } else {
      assert w + rest == rest;
    }
  }

  /** The last two decimal digits of `n` make up `n % 100`. */
  lemma LastTwoDigits(n: nat)
    ensures (n / 10 % 10) * 10 + n % 10 == n % 100
  {
    var q, r := n / 100, n % 100;
    assert n == 100 * q + r;
    assert n / 10 == 10 * q + r / 10;
    assert n / 10 % 10 == r / 10;
    assert n % 10 == r % 10;
  }

  /** In `whole + "." + frac`, the first point sits right after `whole`. */
  lemma PointSplits(whole: string, frac: string)
    requires AllDigits(whole)
    ensures var s := whole + "." + frac;
      && FirstIndex(s, '.') == |whole|
      && s[..|whole|] == whole && s[|whole| + 1..] == frac
  {
    var s := whole + "." + frac;
    assert FirstIndex(s, '.') == |whole| by {
      assert s == whole + ("." + frac);
      assert '.' !in whole;
      FirstIndexAfter(whole, "." + frac, '.');
    }
    assert s[..|whole|] == whole;
    assert s[|whole| + 1..] == frac;
  }

  /** `D+.DD` reads as its whole part times a hundred plus its fraction. */
  lemma ParseUnsignedOfParts(whole: string, frac: string)
    requires whole != [] && AllDigits(whole) && |frac| == 2 && AllDigits(frac)
    ensures ParseUnsigned(whole + "." + frac) == Some(DigitsValue(whole) * 100 + FractionValue(frac))
  {
    PointSplits(whole, frac);
  }

  /** Zero-padding on the left does not change the value `toFixed(2)` wrote. */
  lemma ParseUnsignedOfPadded(zeros: nat, n: nat)
    ensures ParseUnsigned(Repeat('0', zeros) + Unsigned2(n)) == Some(n)
  {
    var digits := NatToString(n / 100);
    var frac := [DigitChar(n / 10 % 10), DigitChar(n % 10)];
    var whole := Repeat('0', zeros) + digits;
    assert Repeat('0', zeros) + Unsigned2(n) == whole + "." + frac;
    assert AllDigits(whole) && DigitsValue(whole) == n / 100 by {
      DigitsValueOfZeros(zeros, digits);
      DigitsValueOfNatToString(n / 100);
    }
    assert AllDigits(frac) && FractionValue(frac) == n % 100 by {
      DigitCharValue(n / 10 % 10);
      DigitCharValue(n % 10);
      LastTwoDigits(n);
    }
    ParseUnsignedOfParts(whole, frac);
  }

  /** Reading back what `toFixed(2)` wrote gives the same number of hundredths. */
  lemma ParseFixed2(h: int)
    ensures ParseNumber(Fixed2(h)) == Some(h)
  {
    var n: nat := if h < 0 then -h else h;
    var u := Unsigned2(n);
    assert ParseUnsigned(u) == Some(n) by {
      ParseUnsignedOfPadded(0, n);
      assert Repeat('0', 0) + u == u;
    }
    if h < 0 {
      var s := "-" + u;
      assert Fixed2(h) == s;
      assert s[0] == '-' && s[1..] == u;
    } else {
      assert Fixed2(h) == u;
      assert u[0] != '-' by {
        assert u[0] == u[..|u| - 3][0];
      }
    }
  }
}
