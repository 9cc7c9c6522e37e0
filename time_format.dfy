/** The `formatTime` helper of the quiz screen: a count of seconds shown as
    "MM:SS", minutes and seconds each written in decimal and padded on the
    left with zeros to at least two characters. */
module TimeFormat {

  predicate IsDigit(c: char) {
    '0' <= c <= '9'
  }

  predicate AllDigits(s: string) {
    forall k | 0 <= k < |s| :: IsDigit(s[k])
  }

  /** The value of a decimal digit; other characters count as zero. */
  function DigitValue(c: char): nat {
    if IsDigit(c) then c as nat - '0' as nat else 0
  }

  function DigitChar(d: nat): (c: char)
    requires d < 10
    ensures IsDigit(c) && DigitValue(c) == d
  {
    ('0' as nat + d) as char
  }

  /** The number a string of decimal digits denotes; leading zeros are allowed. */
  function DigitsValue(s: string): nat {
    if s == [] then 0 else 10 * DigitsValue(s[..|s| - 1]) + DigitValue(s[|s| - 1])
  }

  /** `String(n)` of JavaScript for a non-negative integer below 10^21 (above that
      JavaScript switches to exponent form; the clock never exceeds 1800): its
      shortest decimal numeral. */
  function Decimal(n: nat): (r: string)
    ensures 1 <= |r| && AllDigits(r)
    ensures DigitsValue(r) == n
    ensures n < 10 <==> |r| == 1
    ensures n < 100 <==> |r| <= 2
    ensures |r| > 1 ==> r[0] != '0'
  {
    if n < 10 then [DigitChar(n)]
    else
      var front := Decimal(n / 10);
      var r := front + [DigitChar(n % 10)];
      assert r[..|r| - 1] == front;
      r
  }

  /** `s.padStart(width, fill)` of JavaScript for a one-character fill string. */
  function PadStart(s: string, width: nat, fill: char): (r: string)
    ensures |r| == if |s| < width then width else |s|
    ensures r[|r| - |s|..] == s
    ensures forall k | 0 <= k < |r| - |s| :: r[k] == fill
  {
    if |s| < width then Repeat(fill, width - |s|) + s else s
  }

  function Repeat(c: char, n: nat): (r: string)
    ensures |r| == n && forall k | 0 <= k < n :: r[k] == c
  {
    if n == 0 then [] else [c] + Repeat(c, n - 1)
  }

  lemma {:induction false} ZerosValue(z: string)
    requires forall k | 0 <= k < |z| :: z[k] == '0'
    ensures AllDigits(z) && DigitsValue(z) == 0
  {
    if z != [] {
      ZerosValue(z[..|z| - 1]);
    }
  }

  /** Zeros written in front of a numeral do not change the number it denotes. */
  lemma {:induction false} ZeroPaddingKeepsValue(z: string, s: string)
    requires forall k | 0 <= k < |z| :: z[k] == '0'
    requires AllDigits(s)
    ensures AllDigits(z + s) && DigitsValue(z + s) == DigitsValue(s)
  {
    if s == [] {
      assert z + s == z;
      ZerosValue(z);
    } else {
      var s' := s[..|s| - 1];
      ZeroPaddingKeepsValue(z, s');
      assert (z + s)[..|z + s| - 1] == z + s';
    }
  }

  /** `String(n).padStart(2, "0")` is a numeral of at least two digits that still denotes `n`. */
  lemma PaddedDecimal(n: nat)
    ensures var r := PadStart(Decimal(n), 2, '0');
      2 <= |r| && AllDigits(r) && DigitsValue(r) == n && (n < 100 <==> |r| == 2)
  {
    var d := Decimal(n);
    if |d| < 2 {
      var z := Repeat('0', 2 - |d|);
      assert PadStart(d, 2, '0') == z + d;
      ZeroPaddingKeepsValue(z, d);
    }
  }

  lemma MinutesBelowHundred(sec: nat)
    ensures sec % 60 < 100
    ensures sec / 60 < 100 <==> sec < 6000
    ensures 60 * (sec / 60) + sec % 60 == sec
  {
    var m, s := sec / 60, sec % 60;
    assert sec == 60 * m + s && 0 <= s < 60;
    if m >= 100 {
      assert 60 * m >= 6000;
    } else {
      assert 60 * m <= 5940;
    }
  }

  /** The two fields joined by a colon; each field can be read back from the text. */
  function Joined(mm: string, ss: string): (r: string)
    requires |ss| == 2
    ensures |r| == |mm| + 3 && r[|r| - 3] == ':'
    ensures r[..|r| - 3] == mm && r[|r| - 2..] == ss
  {
    var r := mm + ":" + ss;
    assert r[..|r| - 3] == mm && r[|r| - 2..] == ss;
    r
  }

  /** `formatTime(sec)`: minutes `Math.floor(sec / 60)` and seconds `sec % 60`. */
  function FormatTime(sec: nat): (r: string)
    ensures 5 <= |r| && r[|r| - 3] == ':'
    ensures AllDigits(r[..|r| - 3]) && AllDigits(r[|r| - 2..])
    ensures DigitsValue(r[..|r| - 3]) == sec / 60
    ensures DigitsValue(r[|r| - 2..]) == sec % 60
    ensures sec < 6000 <==> |r| == 5
  {
    MinutesBelowHundred(sec);
    PaddedDecimal(sec / 60);
    PaddedDecimal(sec % 60);
    Joined(PadStart(Decimal(sec / 60), 2, '0'), PadStart(Decimal(sec % 60), 2, '0'))
  }

  /** Reads a "MM:SS" text back as a number of seconds. */
  function ParseTime(t: string): nat
    requires 3 <= |t|
  {
    60 * DigitsValue(t[..|t| - 3]) + DigitsValue(t[|t| - 2..])
  }

  /** The displayed clock determines the remaining seconds: reading it back gives `sec`. */
  lemma FormatTimeRoundTrip(sec: nat)
    ensures ParseTime(FormatTime(sec)) == sec
  {
    MinutesBelowHundred(sec);
  }

  /** Two different remaining times are never shown as the same text. */
  lemma FormatTimeInjective(a: nat, b: nat)
    requires FormatTime(a) == FormatTime(b)
    ensures a == b
  {
    FormatTimeRoundTrip(a);
    FormatTimeRoundTrip(b);
  }
}
