/**
 * `formatTime` of `src/utils/audioUtils.js`: a time shown as minutes, a
 * colon and seconds with two decimals. Times are integer hundredths of a
 * second, so `toFixed(2)` is exact.
 */
module AudioTime {
  import opened Wrappers
  import opened Text
  import opened Decimal

  /** `Math.floor(h / d)` for a positive divisor. */
  function FloorDiv(h: int, d: int): (q: int)
    requires d > 0
    ensures d * q <= h < d * (q + 1)
  {
    h / d
  }

  /** JavaScript's `a % d` for a positive divisor: the remainder keeps the sign of `a`. */
  function Remainder(a: int, d: int): (r: int)
    requires d > 0
    ensures a >= 0 ==> 0 <= r < d
    ensures a < 0 ==> -d < r <= 0
    ensures a >= 0 ==> d * FloorDiv(a, d) + r == a
    ensures a < 0 ==> r - d * FloorDiv(-a, d) == a
  {
    if a >= 0 then a % d else -((-a) % d)
  }

  /** `String(mins).padStart(2, '0')` with `mins = Math.floor(seconds / 60)`. */
  function MinutesText(h: int): string {
    PadStart(IntToString(FloorDiv(h, 6000)), 2, '0')
  }

  /** `String((seconds % 60).toFixed(2)).padStart(5, '0')` */
  function SecondsText(h: int): string {
    PadStart(Fixed2(Remainder(h, 6000)), 5, '0')
  }

  /** `${minutes}:${seconds}` for a time of `h` hundredths. */
  function FormatTime(h: int): string {
    MinutesText(h) + ":" + SecondsText(h)
  }

  // ---------------------------------------------------------------------
  // Properties

  lemma FormatTimeZero()
    ensures FormatTime(0) == "00:00.00"
  {
    assert MinutesText(0) == "00" by {
      assert FloorDiv(0, 6000) == 0;
      assert NatToString(0) == "0";
      assert PadStart("0", 2, '0') == "00";
    }
    assert SecondsText(0) == "00.00" by {
      assert Remainder(0, 6000) == 0;
      assert Fixed2(0) == "0.00" by {
        assert NatToString(0) == "0";
      }
      assert PadStart("0.00", 5, '0') == "00.00";
    }
    Glue("00", "00.00", "00:00.00");
  }

  /** Two fields glued by a colon, checked one character at a time. */
  lemma Glue(m: string, sec: string, text: string)
    requires |text| == |m| + 1 + |sec| && text[|m|] == ':'
    requires forall i :: 0 <= i < |m| ==> text[i] == m[i]
    requires forall i :: 0 <= i < |sec| ==> text[|m| + 1 + i] == sec[i]
    ensures m + ":" + sec == text
  {
    var t := m + ":" + sec;
    forall i | 0 <= i < |t|
      ensures t[i] == text[i]
    {
      if i > |m| {
        assert t[i] == sec[i - |m| - 1];
      }
    }
  }

  /** 5.5 s is shown as `00:05.50`. */
  lemma FormatTimeExample()
    ensures FormatTime(550) == "00:05.50"
  {
    assert MinutesText(550) == "00" by {
      assert FloorDiv(550, 6000) == 0;
      assert NatToString(0) == "0";
      assert PadStart("0", 2, '0') == "00";
    }
    assert SecondsText(550) == "05.50" by {
      assert Remainder(550, 6000) == 550;
      assert Fixed2(550) == "5.50" by {
        assert NatToString(5) == "5";
      }
      assert PadStart("5.50", 5, '0') == "05.50";
    }
    Glue("00", "05.50", "00:05.50");
  }

  /** Before zero both parts carry a sign: -0.5 s is shown as `-1:-0.50`. */
  lemma FormatTimeNegative()
    ensures FormatTime(-50) == "-1:-0.50"
  {
    assert FloorDiv(-50, 6000) == -1;
    assert Remainder(-50, 6000) == -50;
    assert IntToString(-1) == "-1" by {
      assert NatToString(1) == "1";
    }
    assert PadStart("-1", 2, '0') == "-1";
    assert Fixed2(-50) == "-0.50" by {
      assert NatToString(0) == "0";
      assert Unsigned2(50) == "0.50";
    }
    assert PadStart("-0.50", 5, '0') == "-0.50";
  }

  lemma ShortNatToString(n: nat)
    requires n < 100
    ensures |NatToString(n)| <= 2
  {
  }

  /** The seconds field of a non-negative time: five characters, `SS.hh`, worth `h mod 6000`. */
  lemma SecondsField(x: nat)
    requires x < 6000
    ensures var s := PadStart(Fixed2(x), 5, '0');
      && |s| == 5 && s[2] == '.' && s[0] != '-'
      && ParseNumber(s) == Some(x)
  {
    ZeroPaddedSeconds(x);
  }

  /** `Unsigned2(x)` zero-padded to five characters, for `x` below one minute. */
  lemma ZeroPaddedSeconds(x: nat)
    requires x < 6000
    ensures |Unsigned2(x)| <= 5 && Fixed2(x) == Unsigned2(x)
    ensures var u := Unsigned2(x); var s := Repeat('0', 5 - |u|) + u;
      && |s| == 5 && s[2] == '.' && s[0] != '-'
      && ParseNumber(s) == Some(x)
  {
    var u := Unsigned2(x);
    ShortNatToString(x / 100);
    var s := Repeat('0', 5 - |u|) + u;
    ParseUnsignedOfPadded(5 - |u|, x);
    if |u| < 5 {
      assert s[0] == '0';
    } else {
      assert s[0] == u[0] && u[..|u| - 3][0] == u[0];
      assert IsDigit(u[0]);
    }
  }

  /** The minutes field of a non-negative time: at least two digits, worth `h div 6000`. */
  lemma MinutesField(m: nat)
    ensures var p := PadStart(IntToString(m), 2, '0');
      && |p| >= 2 && AllDigits(p) && DigitsValue(p) == m
  {
    var t := NatToString(m);
    var p := PadStart(t, 2, '0');
    DigitsValueOfZeros(|p| - |t|, t);
    DigitsValueOfNatToString(m);
  }

  /** The minutes text of a non-negative time is at least two digits worth `h div 6000`. */
  lemma MinutesTextReadsBack(h: nat)
    ensures |MinutesText(h)| >= 2 && AllDigits(MinutesText(h)) && DigitsValue(MinutesText(h)) == h / 6000
  {
    assert FloorDiv(h, 6000) == h / 6000;
    MinutesField(h / 6000);
  }

  /** The seconds text of a non-negative time is `SS.hh`, worth `h mod 6000`. */
  lemma SecondsTextReadsBack(h: nat)
    ensures |SecondsText(h)| == 5 && SecondsText(h)[2] == '.' && ParseNumber(SecondsText(h)) == Some(h % 6000)
  {
    assert Remainder(h, 6000) == h % 6000;
    SecondsField(h % 6000);
  }

  /** Two texts glued by a colon, the second of fixed length, come apart again. */
  lemma {:induction false} SplitAtColon(p1: string, s1: string, p2: string, s2: string)
    requires |s1| == |s2| && p1 + ":" + s1 == p2 + ":" + s2
    ensures p1 == p2 && s1 == s2
  {
    var r := p1 + ":" + s1;
    assert p1 == r[..|p1|] && p2 == r[..|p2|];
    assert s1 == r[|r| - |s1|..] && s2 == r[|r| - |s2|..];
  }

  /**
   * Different non-negative times are shown differently: the minutes and the
   * seconds can each be read back from the text.
   */
  lemma FormatTimeInjective(a: nat, b: nat)
    requires FormatTime(a) == FormatTime(b)
    ensures a == b
  {
    assert MinutesText(a) == MinutesText(b) && SecondsText(a) == SecondsText(b) by {
      SecondsTextReadsBack(a);
      SecondsTextReadsBack(b);
      SplitAtColon(MinutesText(a), SecondsText(a), MinutesText(b), SecondsText(b));
    }
    assert a / 6000 == b / 6000 by {
      MinutesTextReadsBack(a);
      MinutesTextReadsBack(b);
    }
    assert a % 6000 == b % 6000 by {
      SecondsTextReadsBack(a);
      SecondsTextReadsBack(b);
    }
    SameDivMod(a, b);
  }

  lemma SameDivMod(a: nat, b: nat)
    requires a / 6000 == b / 6000 && a % 6000 == b % 6000
    ensures a == b
  {
    assert a == 6000 * (a / 6000) + a % 6000;
    assert b == 6000 * (b / 6000) + b % 6000;
  }
}
