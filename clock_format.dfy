/**
  `formatSeconds`: a number of seconds as `HH:MM:SS`, with the hours, minutes
  and seconds each written in decimal and left-padded with '0' to two
  characters.

  The arithmetic follows JavaScript on integer-valued numbers: `Math.floor(a / b)`
  with a positive divisor is Dafny's `/` on `int` (which rounds down for a
  positive divisor), while JavaScript's `%` keeps the sign of the dividend and
  is written out as `JsRem`.
*/
module ClockFormat {
  import opened Wrappers

  predicate IsDigit(c: char) { '0' <= c <= '9' }

  /** Every character of `s` is a decimal digit. */
  predicate AllDigits(s: string)
    decreases |s|
  {
    s == [] || (AllDigits(s[..|s| - 1]) && IsDigit(s[|s| - 1]))
  }

  /** The character of a decimal digit. */
  function DigitChar(d: int): (c: char)
    requires 0 <= d < 10
    ensures IsDigit(c) && c as int - '0' as int == d
  {
    ('0' as int + d) as char
  }

  /** The number a string of decimal digits denotes, most significant digit first. */
  function DigitsValue(s: string): int
    decreases |s|
  {
    if s == [] then 0 else DigitsValue(s[..|s| - 1]) * 10 + (s[|s| - 1] as int - '0' as int)
  }

  /** `toString()` of a non-negative integer: its shortest decimal form. */
  function NatToString(n: nat): (s: string)
    ensures |s| >= 1
    ensures n == 0 ==> s == "0"
    ensures n >= 1 ==> s[0] != '0'
    ensures n < 10 ==> |s| == 1
    ensures n < 100 ==> |s| <= 2
    decreases n
  {
    if n < 10 then [DigitChar(n)] else NatToString(n / 10) + [DigitChar(n % 10)]
  }

  /** `toString()` of an integer: a minus sign before the digits of a negative one. */
  function IntToString(i: int): (s: string)
    ensures i >= 0 ==> s == NatToString(i)
    ensures i < 0 ==> |s| >= 2 && s[0] == '-' && s[1..] == NatToString(-i)
  {
    if i < 0 then "-" + NatToString(-i) else NatToString(i)
  }

  /** `fill` repeated `k` times. */
  function Repeat(fill: char, k: nat): (r: string)
    ensures |r| == k && forall i :: 0 <= i < k ==> r[i] == fill
  {
    if k == 0 then [] else Repeat(fill, k - 1) + [fill]
  }

  /** `s.padStart(width, fill)` for a one-character filler. */
  function PadStart(s: string, width: nat, fill: char): (r: string)
    ensures |r| == if |s| >= width then |s| else width
    ensures r[|r| - |s|..] == s
    ensures forall i :: 0 <= i < |r| - |s| ==> r[i] == fill
  {
    if |s| >= width then s else Repeat(fill, width - |s|) + s
  }

  /** One field of the clock: `x.toString().padStart(2, "0")`. */
  function Pad2(x: int): (r: string)
    ensures x >= 0 ==> |r| >= 2
    ensures 0 <= x < 100 ==> |r| == 2
  {
    PadStart(IntToString(x), 2, '0')
  }

  /** A field below 100 is its two decimal digits, the tens digit '0' when below 10. */
  lemma Pad2Digits(x: int)
    requires 0 <= x < 100
    ensures Pad2(x) == [DigitChar(x / 10), DigitChar(x % 10)]
  {
    var s := NatToString(x);
    assert IntToString(x) == s;
    if x < 10 {
      assert s == [DigitChar(x)];
      assert Repeat('0', 1) == ['0'];
      assert Pad2(x) == ['0'] + s;
    } else {
      assert NatToString(x / 10) == [DigitChar(x / 10)];
      assert s == [DigitChar(x / 10)] + [DigitChar(x % 10)];
      assert Pad2(x) == s;
    }
  }

  /** JavaScript's `a % b` for a positive divisor: the remainder takes the sign of `a`. */
  function JsRem(a: int, b: int): (r: int)
    requires b > 0
    ensures a >= 0 ==> r == a % b
    ensures a < 0 ==> -b < r <= 0
  {
    if a >= 0 then a % b else -((-a) % b)
  }

  /** `Math.floor(seconds / 3600)`: the whole hours, rounded down. */
  function Hours(seconds: int): (h: int)
    ensures h * 3600 <= seconds < (h + 1) * 3600
  {
    seconds / 3600
  }

  /** `Math.floor((seconds % 3600) / 60)`: the whole minutes within the hour. */
  function Minutes(seconds: int): (m: int)
    ensures seconds >= 0 ==> 0 <= m < 60
    ensures seconds < 0 ==> -60 <= m <= 0
  {
    JsRem(seconds, 3600) / 60
  }

  /** `seconds % 60`: the seconds within the minute. */
  function Secs(seconds: int): (s: int)
    ensures seconds >= 0 ==> 0 <= s < 60
    ensures seconds < 0 ==> -60 < s <= 0
  {
    JsRem(seconds, 60)
  }

  /** For a non-negative input the three fields put back together give the input. */
  lemma Decomposition(seconds: int)
    requires seconds >= 0
    ensures Hours(seconds) * 3600 + Minutes(seconds) * 60 + Secs(seconds) == seconds
    ensures 0 <= Hours(seconds) && 0 <= Minutes(seconds) < 60 && 0 <= Secs(seconds) < 60
  {
    var h, q := Hours(seconds), JsRem(seconds, 3600);
    assert q == seconds % 3600 && seconds == h * 3600 + q;
    var m, r := q / 60, q % 60;
    assert Minutes(seconds) == m && q == m * 60 + r;
    DivideBy60(seconds, h * 60 + m, r);
  }

  /** Division by 60 has a unique quotient and remainder in 0..59. */
  lemma DivideBy60(a: int, k: int, r: int)
    requires a == k * 60 + r && 0 <= r < 60
    ensures a / 60 == k && a % 60 == r
  {
  }

  /** Division by 3600 has a unique quotient and remainder in 0..3599. */
  lemma DivideBy3600(a: int, k: int, r: int)
    requires a == k * 3600 + r && 0 <= r < 3600
    ensures a / 3600 == k && a % 3600 == r
  {
  }

  /** `hh:mm:ss` for two-digit minutes and seconds, the shape ParseClock accepts. */
  predicate IsClockText(r: string)
  {
    |r| >= 8 && r[|r| - 6] == ':' && r[|r| - 3] == ':'
    && AllDigits(r[..|r| - 6]) && AllDigits(r[|r| - 5..|r| - 3]) && AllDigits(r[|r| - 2..])
  }

  /** Where the separators and fields of `hh:mm:ss` sit when mm and ss have two characters. */
  lemma JoinFields(hh: string, mm: string, ss: string)
    ensures var r := hh + ":" + mm + ":" + ss;
      |mm| == 2 && |ss| == 2 ==>
        |r| == |hh| + 6 && r[|r| - 6] == ':' && r[|r| - 3] == ':'
        && r[..|r| - 6] == hh && r[|r| - 5..|r| - 3] == mm && r[|r| - 2..] == ss
  {
  }

  /** `formatSeconds`: `HH:MM:SS`, each field padded to at least two digits. */
  function FormatSeconds(seconds: int): string
  {
    Pad2(Hours(seconds)) + ":" + Pad2(Minutes(seconds)) + ":" + Pad2(Secs(seconds))
  }

  /**
    Reads an `HH:MM:SS` string back: any number of hour digits, then two-digit
    minutes and seconds; None for anything else.
  */
  function ParseClock(s: string): Option<int>
  {
    if IsClockText(s)
    then Some(DigitsValue(s[..|s| - 6]) * 3600 + DigitsValue(s[|s| - 5..|s| - 3]) * 60 + DigitsValue(s[|s| - 2..]))
    else None
  }

  /** Reading back the decimal form of a number gives the number. */
  lemma {:induction false} DigitsValueOfNatToString(n: nat)
    ensures AllDigits(NatToString(n)) && DigitsValue(NatToString(n)) == n
    decreases n
  {
    var s := NatToString(n);
    if n >= 10 {
      DigitsValueOfNatToString(n / 10);
      assert s[..|s| - 1] == NatToString(n / 10);
    } else {
      assert s[..|s| - 1] == [];
    }
  }

  /** Leading zeros do not change the value of a digit string. */
  lemma {:induction false} DigitsValueLeadingZeros(k: nat, s: string)
    requires AllDigits(s)
    ensures AllDigits(Repeat('0', k) + s) && DigitsValue(Repeat('0', k) + s) == DigitsValue(s)
    decreases |s|
  {
    var z := Repeat('0', k);
    var t := z + s;
    if s == [] {
      assert t == z;
      ZerosHaveValueZero(k);
    } else {
      DigitsValueLeadingZeros(k, s[..|s| - 1]);
      assert t[..|t| - 1] == z + s[..|s| - 1];
    }
  }

  /** A string of zeros denotes zero. */
  lemma {:induction false} ZerosHaveValueZero(k: nat)
    ensures AllDigits(Repeat('0', k)) && DigitsValue(Repeat('0', k)) == 0
    decreases k
  {
    if k > 0 {
      ZerosHaveValueZero(k - 1);
      var z := Repeat('0', k);
      assert z[..k - 1] == Repeat('0', k - 1);
    }
  }

  /** One padded field of a non-negative number reads back as that number. */
  lemma Pad2Value(x: int)
    requires x >= 0
    ensures AllDigits(Pad2(x)) && DigitsValue(Pad2(x)) == x
  {
    var s := NatToString(x);
    DigitsValueOfNatToString(x);
    if |s| < 2 {
      DigitsValueLeadingZeros(2 - |s|, s);
    }
  }

  /** Parsing the output of FormatSeconds gives back the number of seconds. */
  lemma FormatSecondsRoundTrip(seconds: int)
    requires seconds >= 0
    ensures ParseClock(FormatSeconds(seconds)) == Some(seconds)
  {
    Decomposition(seconds);
    FieldsRoundTrip(Hours(seconds), Minutes(seconds), Secs(seconds), seconds);
  }

  /**
    For every non-negative input the text has the `HH:MM:SS` shape: two-digit
    minutes and seconds after colons, and at least two hour digits.
  */
  lemma FormatSecondsShape(seconds: int)
    requires seconds >= 0
    ensures var r := FormatSeconds(seconds);
      IsClockText(r) && |r[..|r| - 6]| >= 2
  {
    FormatSecondsRoundTrip(seconds);
    Decomposition(seconds);
    FieldsReadBack(Hours(seconds), Minutes(seconds), Secs(seconds));
    JoinFields(Pad2(Hours(seconds)), Pad2(Minutes(seconds)), Pad2(Secs(seconds)));
  }

  /** Three fields in range, padded and joined, read back as their total in seconds. */
  lemma FieldsRoundTrip(h: int, m: int, s: int, total: int)
    requires 0 <= h && 0 <= m < 60 && 0 <= s < 60
    requires h * 3600 + m * 60 + s == total
    ensures ParseClock(Pad2(h) + ":" + Pad2(m) + ":" + Pad2(s)) == Some(total)
  {
    FieldsReadBack(h, m, s);
    ParseJoined(Pad2(h), Pad2(m), Pad2(s), h, m, s, total);
  }

  /** The padded fields are digit strings of the right lengths that read back as the fields. */
  lemma FieldsReadBack(h: int, m: int, s: int)
    requires 0 <= h && 0 <= m < 60 && 0 <= s < 60
    ensures |Pad2(h)| >= 2 && |Pad2(m)| == 2 && |Pad2(s)| == 2
    ensures AllDigits(Pad2(h)) && AllDigits(Pad2(m)) && AllDigits(Pad2(s))
    ensures DigitsValue(Pad2(h)) == h && DigitsValue(Pad2(m)) == m && DigitsValue(Pad2(s)) == s
  {
    Pad2Value(h);
    Pad2Value(m);
    Pad2Value(s);
  }

  /** ParseClock on three digit fields joined by colons. */
  lemma ParseJoined(hh: string, mm: string, ss: string, h: int, m: int, s: int, total: int)
    requires |hh| >= 2 && |mm| == 2 && |ss| == 2
    requires AllDigits(hh) && AllDigits(mm) && AllDigits(ss)
    requires DigitsValue(hh) == h && DigitsValue(mm) == m && DigitsValue(ss) == s
    requires h * 3600 + m * 60 + s == total
    ensures ParseClock(hh + ":" + mm + ":" + ss) == Some(total)
  {
    var r := hh + ":" + mm + ":" + ss;
    JoinFields(hh, mm, ss);
    ParseClockFields(r, hh, mm, ss, h, m, s, total);
  }

  /** ParseClock reads the three fields of text of the accepted shape. */
  lemma ParseClockFields(r: string, hh: string, mm: string, ss: string, h: int, m: int, s: int, total: int)
    requires |r| >= 8 && r[|r| - 6] == ':' && r[|r| - 3] == ':'
    requires r[..|r| - 6] == hh && r[|r| - 5..|r| - 3] == mm && r[|r| - 2..] == ss
    requires AllDigits(hh) && AllDigits(mm) && AllDigits(ss)
    requires DigitsValue(hh) == h && DigitsValue(mm) == m && DigitsValue(ss) == s
    requires h * 3600 + m * 60 + s == total
    ensures ParseClock(r) == Some(total)
  {
  }

  /** Below 100 hours every field is two decimal digits, the tens digit '0' for a value below 10. */
  lemma FormatSecondsDigits(seconds: int)
    requires 0 <= seconds < 360000
    ensures var h, m, s := Hours(seconds), Minutes(seconds), Secs(seconds);
      FormatSeconds(seconds) == [DigitChar(h / 10), DigitChar(h % 10), ':',
                                 DigitChar(m / 10), DigitChar(m % 10), ':',
                                 DigitChar(s / 10), DigitChar(s % 10)]
  {
    var h, m, s := Hours(seconds), Minutes(seconds), Secs(seconds);
    assert h < 100;
    Pad2Digits(h);
    Pad2Digits(m);
    Pad2Digits(s);
    JoinDigits(DigitChar(h / 10), DigitChar(h % 10), DigitChar(m / 10), DigitChar(m % 10), DigitChar(s / 10), DigitChar(s % 10));
  }

  /** Three two-character fields joined by colons make eight characters. */
  lemma JoinDigits(a: char, b: char, c: char, d: char, e: char, f: char)
    ensures [a, b] + ":" + [c, d] + ":" + [e, f] == [a, b, ':', c, d, ':', e, f]
  {
  }

  /** A full day of seconds, the largest value shown as remaining time, is written 24:00:00. */
  lemma FormatFullDay(seconds: int)
    requires seconds == 86400
    ensures FormatSeconds(seconds) == "24:00:00"
  {
    var h, m, s := Hours(seconds), Minutes(seconds), Secs(seconds);
    assert h == 24 && m == 0 && s == 0;
    assert h / 10 == 2 && h % 10 == 4 && m / 10 == 0 && m % 10 == 0 && s / 10 == 0 && s % 10 == 0;
    FormatSecondsDigits(seconds);
    assert FormatSeconds(seconds) == [DigitChar(2), DigitChar(4), ':', DigitChar(0), DigitChar(0), ':', DigitChar(0), DigitChar(0)];
    assert DigitChar(2) == '2' && DigitChar(4) == '4' && DigitChar(0) == '0';
  }
}
