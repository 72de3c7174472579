/** `formatTime`: integer milliseconds rendered as zero-padded `mm:ss`, with
    minutes left unbounded. */
module TimeFormat {
  import opened Decimal

  /** `Math.trunc(a / b)`: the quotient rounded toward zero. */
  function TruncQuot(a: int, b: int): int
    requires b > 0
  {
    if a >= 0 then a / b else -((-a) / b)
  }

  /** JavaScript's `%` on integers: what is left of `a` after taking away
      `b` times the quotient rounded toward zero, so the remainder takes the
      sign of the dividend. */
  function JsRem(a: int, b: int): (r: int)
    requires b > 0
    ensures a == b * TruncQuot(a, b) + r
    ensures a >= 0 ==> r == a % b
    ensures a < 0 ==> -b < r <= 0
  {
    if a >= 0 then a % b else -((-a) % b)
  }

  /** `Math.floor(ms / 1000)` is Dafny's `/` because the divisor is positive,
      so the whole seconds, minutes and remainder seconds are computed exactly
      as the source computes them, also for a negative input. The text is
      never shorter than `mm:ss`, and for a non-negative duration the colon
      is third from the end; what the digits say is stated by
      `FormatTimeFields`, `ParseFormatTime` and `FormatTimeSameSecond`. */
  function FormatTime(ms: int): (r: string)
    ensures |r| >= 5
    ensures ms >= 0 ==> r[|r| - 3] == ':'
  {
    var totalSeconds := ms / 1000;
    Padded(totalSeconds / 60) + ":" + Padded(JsRem(totalSeconds, 60))
  }

  /** `String(n).padStart(2, '0')`: at least two characters, all digits
      when `n` is not negative, and exactly two from 0 to 99. */
  function Padded(n: int): (p: string)
    ensures |p| >= 2
    ensures n >= 0 ==> AllDigits(p)
    ensures 0 <= n < 100 ==> |p| == 2
  {
    if n >= 0 then
      NatToStringLength(n);
      ParseZeroPadded(NatToString(n), 2);
      PadStart(IntToString(n), 2, '0')
    else
      PadStart(IntToString(n), 2, '0')
  }

  function Minutes(ms: nat): nat { ms / 60000 }

  function Seconds(ms: nat): (s: nat)
    ensures s < 60
  {
    (ms / 1000) % 60
  }

  lemma MinutesFromWholeSeconds(ms: nat)
    ensures (ms / 1000) / 60 == Minutes(ms)
  {
    var t := ms / 1000;
    assert ms == 1000 * t + ms % 1000;
    assert t == 60 * (t / 60) + t % 60;
    assert ms == 60000 * (t / 60) + (1000 * (t % 60) + ms % 1000);
  }

  lemma WholeSecondsFromFields(ms: nat)
    ensures ms / 1000 == 60 * Minutes(ms) + Seconds(ms)
  {
    MinutesFromWholeSeconds(ms);
    var t := ms / 1000;
    assert t == 60 * (t / 60) + t % 60;
  }

  /** For a non-negative duration the two fields are the minutes and the
      seconds of `Minutes` and `Seconds`. */
  lemma FormatTimeNonNegative(ms: nat)
    ensures (ms / 1000) / 60 == Minutes(ms) && JsRem(ms / 1000, 60) == Seconds(ms)
  {
    MinutesFromWholeSeconds(ms);
  }

  /** A padded non-negative field: at least two digits, reading as the number,
      with a leading zero only when it is exactly two digits long, and exactly
      two digits long below 100. */
  lemma PaddedField(n: nat)
    ensures var p := Padded(n);
            |p| >= 2 && AllDigits(p) && ParseDigits(p) == n &&
            (|p| > 2 ==> p[0] != '0') && (n < 100 ==> |p| == 2)
  {
    NatToStringLength(n);
    ParseZeroPadded(NatToString(n), 2);
    ParseNatToString(n);
  }

  /** Where the fields of `p + ":" + q` sit, for a two-character `q`. */
  lemma ClockLayout(p: string, q: string, r: string, m: nat, s: nat)
    requires r == p + ":" + q
    requires |p| >= 2 && AllDigits(p) && ParseDigits(p) == m && (|p| > 2 ==> p[0] != '0')
    requires |q| == 2 && AllDigits(q) && ParseDigits(q) == s
    ensures |r| >= 5 && r[|r| - 3] == ':' &&
            AllDigits(r[..|r| - 3]) && AllDigits(r[|r| - 2..]) &&
            ParseDigits(r[..|r| - 3]) == m && ParseDigits(r[|r| - 2..]) == s &&
            (|r| > 5 ==> r[0] != '0')
  {
    assert r[..|r| - 3] == p;
    assert r[|r| - 2..] == q;
    assert r[0] == p[0];
  }

  /** The rendering of a non-negative duration: every character is a digit
      except the colon third from the end; the last two digits read as the
      seconds (0..59) and all digits before the colon read as the minutes,
      which are not capped; the minutes field has at least two digits and a
      leading zero only when it has exactly two. */
  lemma FormatTimeFields(ms: nat)
    ensures var r := FormatTime(ms);
            |r| >= 5 && r[|r| - 3] == ':' &&
            AllDigits(r[..|r| - 3]) && AllDigits(r[|r| - 2..]) &&
            ParseDigits(r[..|r| - 3]) == Minutes(ms) &&
            ParseDigits(r[|r| - 2..]) == Seconds(ms) &&
            (|r| > 5 ==> r[0] != '0')
  {
    FormatTimeNonNegative(ms);
    PaddedField(Minutes(ms));
    PaddedField(Seconds(ms));
    ClockLayout(Padded(Minutes(ms)), Padded(Seconds(ms)), FormatTime(ms), Minutes(ms), Seconds(ms));
  }

  /** The shape of a rendered clock: digits, a colon, two digits. */
  predicate WellFormed(r: string) {
    |r| >= 5 && r[|r| - 3] == ':' && AllDigits(r[..|r| - 3]) && AllDigits(r[|r| - 2..])
  }

  /** Reads a rendered clock back as a number of whole seconds. */
  function ParseTime(r: string): nat
    requires WellFormed(r)
  {
    60 * ParseDigits(r[..|r| - 3]) + ParseDigits(r[|r| - 2..])
  }

  /** Reading the display back recovers the duration in whole seconds. */
  lemma ParseFormatTime(ms: nat)
    ensures WellFormed(FormatTime(ms)) && ParseTime(FormatTime(ms)) == ms / 1000
  {
    FormatTimeFields(ms);
    WholeSecondsFromFields(ms);
  }

  /** Two non-negative durations look the same on screen exactly when they
      agree in whole seconds: sub-second precision is discarded and nothing
      else is. */
  lemma FormatTimeSameSecond(a: nat, b: nat)
    ensures FormatTime(a) == FormatTime(b) <==> a / 1000 == b / 1000
  {
    ParseFormatTime(a);
    ParseFormatTime(b);
  }

  lemma PaddedTwoDigits(n: nat)
    requires n < 100
    ensures Padded(n) == [DigitChar(n / 10), DigitChar(n % 10)]
  {
    var d := NatToString(n);
    assert IntToString(n) == d;
    if n < 10 {
      assert d == [DigitChar(n)];
      assert PadStart(d, 2, '0') == PadStart(['0'] + d, 2, '0');
      assert ['0'] + d == [DigitChar(n / 10), DigitChar(n % 10)];
    } else {
      assert NatToString(n / 10) == [DigitChar(n / 10)];
      assert d == [DigitChar(n / 10), DigitChar(n % 10)];
    }
  }

  /** Below 100 minutes the display is exactly five characters `mm:ss`. */
  lemma FormatTimeFiveChars(ms: nat)
    requires Minutes(ms) < 100
    ensures var m, s := Minutes(ms), Seconds(ms);
            FormatTime(ms) == [DigitChar(m / 10), DigitChar(m % 10), ':', DigitChar(s / 10), DigitChar(s % 10)]
  {
    var m, s := Minutes(ms), Seconds(ms);
    FormatTimeNonNegative(ms);
    PaddedTwoDigits(m);
    PaddedTwoDigits(s);
    FiveChars(Padded(m), Padded(s), FormatTime(ms));
  }

  lemma FiveChars(p: string, q: string, r: string)
    requires |p| == 2 && |q| == 2 && r == p + ":" + q
    ensures r == [p[0], p[1], ':', q[0], q[1]]
  {
  }

  /** The text of a display below 100 minutes, digit by digit. */
  lemma ShowsAs(ms: nat, text: string)
    requires Minutes(ms) < 100
    requires var m, s := Minutes(ms), Seconds(ms);
             text == [DigitChar(m / 10), DigitChar(m % 10), ':', DigitChar(s / 10), DigitChar(s % 10)]
    ensures FormatTime(ms) == text
  {
    FormatTimeFiveChars(ms);
  }

  /** The examples below take the duration as a parameter fixed by their
      precondition, so that the verifier reaches the text through the lemmas
      above instead of evaluating the definitions symbol by symbol. */
  lemma FormatTimeZero(ms: int)
    requires ms == 0
    ensures FormatTime(ms) == "00:00"
  {
    ShowsAs(ms, "00:00");
  }

  lemma FormatTimeOneMinuteFive(ms: int)
    requires ms == 65000
    ensures FormatTime(ms) == "01:05"
  {
    ShowsAs(ms, "01:05");
  }

  /** Minutes are not wrapped at 60. */
  lemma FormatTimeOneHour(ms: int)
    requires ms == 3600000
    ensures FormatTime(ms) == "60:00"
  {
    ShowsAs(ms, "60:00");
  }

  /** A negative duration, reachable only when the wall clock steps back,
      renders with a sign in both fields because `%` keeps the dividend's
      sign. */
  lemma FormatTimeNegative(ms: int)
    requires ms == -1
    ensures FormatTime(ms) == "-1:-1"
  {
    var t := ms / 1000;
    assert t == -1 && t / 60 == -1 && JsRem(t, 60) == -1;
    assert IntToString(-1) == "-1";
    assert Padded(-1) == "-1";
  }
}
