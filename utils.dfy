/** format_time (src/utils.py): a time offset in seconds becomes an SRT
    timecode `HH:MM:SS,mmm`. The input is an exact real; Python's float `//`
    and `%` with a positive divisor are floor division and floor remainder,
    so negative offsets are covered too. As written, the millisecond field is
    taken from the already-truncated whole seconds and is therefore always 0;
    FormatTimeRounded is the corrected variant, kept separate. */
module TimeFormat {
  import opened IntFormat

  /** The four integer fields computed before the timecode is rendered. */
  datatype Clock = Clock(hours: int, minutes: int, seconds: int, millis: int)

  function TotalSeconds(c: Clock): int
  {
    c.hours * 3600 + c.minutes * 60 + c.seconds
  }

  function TotalMillis(c: Clock): int
  {
    TotalSeconds(c) * 1000 + c.millis
  }

  /** The clock fields a rendered timecode can hold in its fixed-width part. */
  predicate InRange(c: Clock)
  {
    0 <= c.minutes < 60 && 0 <= c.seconds < 60 && 0 <= c.millis < 1000
  }

  /** Floor of a quotient by a positive integer: Python's `x // m` on exact reals. */
  lemma {:induction false} FloorDiv(x: real, m: int)
    requires m > 0
    ensures (x / m as real).Floor == x.Floor / m
  {
    var n, q := x.Floor, x.Floor / m;
    var mr, qr := m as real, q as real;
    assert q * m <= n && n + 1 <= q * m + m;
    CastProduct(q, m);
    assert qr * mr <= x < qr * mr + mr;
    QuotientBounds(x, mr, qr);
  }

  lemma CastProduct(a: int, b: int)
    ensures (a * b) as real == a as real * b as real
  {
  }

  lemma DivLe(a: real, b: real, m: real)
    requires a <= b && m > 0.0
    ensures a / m <= b / m
  {
  }

  lemma DivLt(a: real, b: real, m: real)
    requires a < b && m > 0.0
    ensures a / m < b / m
  {
  }

  lemma MulDivCancel(a: real, m: real)
    requires m > 0.0
    ensures a * m / m == a
  {
  }

  lemma QuotientBounds(x: real, m: real, q: real)
    requires m > 0.0 && q * m <= x < q * m + m
    ensures q <= x / m < q + 1.0
  {
    DivLe(q * m, x, m);
    MulDivCancel(q, m);
    assert q <= x / m;
    var p := q + 1.0;
    assert q * m + m == p * m;
    DivLt(x, p * m, m);
    MulDivCancel(p, m);
    assert x / m < p;
  }

  /** Python's `x % m` for a positive integer modulus, on exact reals: a
      value in [0, m) whose whole part is `x.Floor % m` and whose fraction is
      the fraction of x. */
  function RealMod(x: real, m: int): (r: real)
    requires m > 0
    ensures 0.0 <= r < m as real
    ensures r.Floor == x.Floor % m
    ensures r - r.Floor as real == x - x.Floor as real
  {
    FloorDiv(x, m);
    var q := (x / m as real).Floor;
    var k := (m * q) as real;
    assert k == (m as real) * (q as real);
    assert (x - k).Floor == x.Floor - m * q;
    x - (m as real) * (q as real)
  }

  /** Lines 7-10 of format_time. Line 10 takes `seconds % 1` of the integer
      bound at line 9, so the millisecond field is always 0. */
  function Decompose(t: real): Clock
  {
    var hours := (t / 3600.0).Floor;
    var minutes := (RealMod(t, 3600) / 60.0).Floor;
    var seconds := RealMod(t, 60).Floor;
    var millis := (seconds % 1) * 1000;
    Clock(hours, minutes, seconds, millis)
  }

  /** What lines 7-10 compute: hours t.Floor / 3600, minutes and seconds in
      0..59 that recombine with the hours to t.Floor, and milliseconds 0. */
  lemma DecomposeFields(t: real)
    ensures var c, n := Decompose(t), t.Floor;
      && c == Clock(n / 3600, n % 3600 / 60, n % 60, 0)
      && c.hours == n / 3600
      && 0 <= c.minutes < 60 && 0 <= c.seconds < 60
      && TotalSeconds(c) == n
      && c.millis == 0
  {
    var n := t.Floor;
    FloorDiv(t, 3600);
    FloorDiv(RealMod(t, 3600), 60);
    assert RealMod(t, 60).Floor == n % 60;
    SplitSeconds(n);
  }

  /** Line 11: `f"{hours:02}:{minutes:02}:{seconds:02},{milliseconds:03}"`. */
  function Render(c: Clock): string
  {
    Field(c.hours, 2) + ":" + Field(c.minutes, 2) + ":" + Field(c.seconds, 2) + "," + Field(c.millis, 3)
  }

  /** format_time as written. */
  function FormatTime(t: real): string
  {
    Render(Decompose(t))
  }

  /** The timecode of a whole number of seconds, computed on integers. */
  function FormatTimeInt(n: int): string
  {
    Render(Clock(n / 3600, n % 3600 / 60, n % 60, 0))
  }

  /** Reads a timecode back: a signed hour field of any width, then the fixed
      `:MM:SS,mmm` tail. None when the text has another shape. */
  function ParseTimecode(s: string): Option<Clock>
  {
    if |s| < 11 then None
    else
      var k := |s| - 10;
      var mm, ss, ms := s[k + 1..k + 3], s[k + 4..k + 6], s[k + 7..];
      if s[k] != ':' || s[k + 3] != ':' || s[k + 6] != ',' then None
      else if !(AllDigits(mm) && AllDigits(ss) && AllDigits(ms)) then None
      else match ParseSigned(s[..k])
        case None => None
        case Some(h) => Some(Clock(h, ParseDecimal(mm), ParseDecimal(ss), ParseDecimal(ms)))
  }

  /** Where the pieces of `h:a:b,m` lie when a, b have two characters and m three. */
  lemma {:induction false} Layout(h: string, a: string, b: string, m: string)
    requires |a| == 2 && |b| == 2 && |m| == 3
    ensures var r, k := h + ":" + a + ":" + b + "," + m, |h|;
      && |r| == k + 10
      && r[..k] == h
      && r[k] == ':' && r[k + 3] == ':' && r[k + 6] == ','
      && r[k + 1..k + 3] == a && r[k + 4..k + 6] == b && r[k + 7..] == m
  {
    var r, k := h + ":" + a + ":" + b + "," + m, |h|;
    assert r == h + (":" + a + ":" + b + "," + m);
    assert r[k..] == ":" + a + ":" + b + "," + m;
  }

  /** Where the fields of a rendered in-range clock sit: the hour field,
      then ':', the minute field, ':', the second field, ',' and the
      millisecond field, at fixed places counted from the end. */
  lemma {:induction false} RenderLayout(c: Clock)
    requires InRange(c)
    ensures var r, k := Render(c), |Render(c)| - 10;
      && k == |Field(c.hours, 2)| >= 2
      && r[..k] == Field(c.hours, 2)
      && r[k] == ':' && r[k + 3] == ':' && r[k + 6] == ','
      && r[k + 1..k + 3] == Field(c.minutes, 2)
      && r[k + 4..k + 6] == Field(c.seconds, 2)
      && r[k + 7..] == Field(c.millis, 3)
  {
    var h, a, b, m := Field(c.hours, 2), Field(c.minutes, 2), Field(c.seconds, 2), Field(c.millis, 3);
    assert Pow10(2) == 100 && Pow10(3) == 1000;
    FieldWidth(c.minutes, 2);
    FieldWidth(c.seconds, 2);
    FieldWidth(c.millis, 3);
    FieldAtLeastWidth(c.hours, 2);
    Layout(h, a, b, m);
    RenderIs(c, h, a, b, m);
  }

  /** The fields of a rendered in-range clock are decimal digits; so is the
      hour field when the hours are not negative. */
  lemma RenderDigits(c: Clock)
    requires InRange(c)
    ensures var r, k := Render(c), |Render(c)| - 10;
      && k >= 2
      && AllDigits(r[k + 1..k + 3]) && AllDigits(r[k + 4..k + 6]) && AllDigits(r[k + 7..])
      && (c.hours >= 0 ==> AllDigits(r[..k]))
  {
    RenderLayout(c);
    PaddedDigits(c.minutes, 2);
    PaddedDigits(c.seconds, 2);
    PaddedDigits(c.millis, 3);
    if c.hours >= 0 {
      PaddedDigits(c.hours, 2);
    }
  }

  lemma RenderIs(c: Clock, h: string, a: string, b: string, m: string)
    requires h == Field(c.hours, 2) && a == Field(c.minutes, 2)
    requires b == Field(c.seconds, 2) && m == Field(c.millis, 3)
    ensures Render(c) == h + ":" + a + ":" + b + "," + m
  {
  }

  /** Rendering then parsing gives back every field of an in-range clock. */
  lemma {:induction false} RenderRoundTrip(c: Clock)
    requires InRange(c)
    ensures ParseTimecode(Render(c)) == Some(c)
  {
    RenderLayout(c);
    FieldRoundTrip(c.hours, 2);
    PaddedDigits(c.minutes, 2);
    PaddedDigits(c.seconds, 2);
    PaddedDigits(c.millis, 3);
  }

  /** The timecode depends only on the whole-second part of the input. */
  lemma {:induction false} FormatTimeWholeSeconds(t: real)
    ensures FormatTime(t) == FormatTimeInt(t.Floor)
  {
    var c, n := Decompose(t), t.Floor;
    DecomposeFields(t);
    assert c.minutes * 60 + c.seconds == n - c.hours * 3600 == n % 3600;
    assert c == Clock(n / 3600, n % 3600 / 60, n % 60, 0);
  }

  /** Two offsets in the same whole second give identical timecodes. */
  lemma SameSecondSameTimecode(t1: real, t2: real)
    requires t1.Floor == t2.Floor
    ensures FormatTime(t1) == FormatTime(t2)
  {
    FormatTimeWholeSeconds(t1);
    FormatTimeWholeSeconds(t2);
  }

  /** Reading the timecode back yields the hours t.Floor / 3600, minutes and
      seconds in 0..59 that recombine to t.Floor, and 0 milliseconds. */
  lemma FormatTimeRoundTrip(t: real)
    ensures var p := ParseTimecode(FormatTime(t));
      && p.Some?
      && p.value.hours == t.Floor / 3600
      && InRange(p.value)
      && TotalSeconds(p.value) == t.Floor
      && p.value.millis == 0
  {
    DecomposeFields(t);
    RenderRoundTrip(Decompose(t));
  }

  /** The hour field has two characters below 100 hours and more from 100 hours on. */
  lemma HourFieldWidth(t: real)
    ensures 0.0 <= t < 360000.0 ==> |Field(t.Floor / 3600, 2)| == 2
    ensures t >= 360000.0 ==> |Field(t.Floor / 3600, 2)| > 2
  {
    if t >= 0.0 {
      assert Pow10(2) == 100;
      FieldWidth(t.Floor / 3600, 2);
    }
  }

  /** Shape of the output: the hour field `{t.Floor // 3600:02}` (all digits
      for t >= 0), ':', two minute digits, ':', two second digits, ',', then
      "000". Twelve characters for 0 <= t < 100 hours; the hour field widens,
      never truncates, from 100 hours on. */
  lemma FormatTimeShape(t: real)
    ensures var r := FormatTime(t); var k := |r| - 10;
      && k >= 2
      && r[..k] == Field(t.Floor / 3600, 2)
      && (t >= 0.0 ==> AllDigits(r[..k]))
      && r[k] == ':' && r[k + 3] == ':' && r[k + 6] == ','
      && AllDigits(r[k + 1..k + 3]) && AllDigits(r[k + 4..k + 6])
      && r[k + 7..] == "000"
      && (0.0 <= t < 360000.0 ==> |r| == 12)
      && (t >= 360000.0 ==> |r| > 12)
  {
    DecomposeFields(t);
    RenderLayout(Decompose(t));
    RenderDigits(Decompose(t));
    HourFieldWidth(t);
    ZeroFields();
  }

  /** Splitting a whole number of seconds: the fields recombine to it and
      minutes and seconds stay in 0..59. */
  lemma {:induction false} SplitSeconds(n: int)
    ensures var c := Clock(n / 3600, n % 3600 / 60, n % 60, 0);
      0 <= c.minutes < 60 && 0 <= c.seconds < 60 && TotalSeconds(c) == n
  {
    var q, r := n / 3600, n % 3600;
    var a, b := r / 60, r % 60;
    assert n == 3600 * q + r && r == 60 * a + b;
    assert n == 60 * (60 * q + a) + b;
    assert n % 60 == b;
  }

  /** Corrected variant: the offset is rounded to the nearest millisecond
      (halves up) and that total is split into fields, so a fraction of
      999.5 ms or more carries into the seconds instead of overflowing. */
  function DecomposeRounded(t: real): (c: Clock)
    ensures InRange(c)
    ensures TotalMillis(c) as real - 0.5 <= t * 1000.0 < TotalMillis(c) as real + 0.5
  {
    var total := (t * 1000.0 + 0.5).Floor;
    var secs := total / 1000;
    SplitSeconds(secs);
    Clock(secs / 3600, secs % 3600 / 60, secs % 60, total % 1000)
  }

  function FormatTimeRounded(t: real): string
  {
    Render(DecomposeRounded(t))
  }

  /** The corrected timecode reads back as the nearest millisecond to t. */
  lemma FormatTimeRoundedRoundTrip(t: real)
    ensures var p := ParseTimecode(FormatTimeRounded(t));
      && p.Some?
      && InRange(p.value)
      && TotalMillis(p.value) as real - 0.5 <= t * 1000.0 < TotalMillis(p.value) as real + 0.5
  {
    RenderRoundTrip(DecomposeRounded(t));
  }

  /** On whole seconds the corrected variant agrees with format_time as written. */
  lemma {:induction false} RoundedAgreesOnWholeSeconds(n: int)
    ensures FormatTimeRounded(n as real) == FormatTime(n as real)
  {
    var total := ((n as real) * 1000.0 + 0.5).Floor;
    assert total == n * 1000;
    assert total / 1000 == n && total % 1000 == 0;
    FormatTimeWholeSeconds(n as real);
  }

  /** `{n:02}` of a number below 100 is its two digits. */
  lemma TwoDigitField(n: nat)
    requires n < 100
    ensures Field(n, 2) == [DigitChar(n / 10), DigitChar(n % 10)]
  {
    var d := Digits(n);
    ZeroPadIsZeros(d, 2);
    if n < 10 {
      assert Zeros(1) == "0" && DigitChar(0) == '0';
      assert d == [DigitChar(n)];
    } else {
      assert Digits(n / 10) == [DigitChar(n / 10)];
    }
  }

  /** `{n:03}` of a number below 1000 is its three digits. */
  lemma ThreeDigitField(n: nat)
    requires n < 1000
    ensures Field(n, 3) == [DigitChar(n / 100), DigitChar(n / 10 % 10), DigitChar(n % 10)]
  {
    var d := Digits(n);
    ZeroPadIsZeros(d, 3);
    if n < 10 {
      assert Zeros(2) == "00" && DigitChar(0) == '0';
      assert d == [DigitChar(n)];
    } else if n < 100 {
      assert Zeros(1) == "0" && DigitChar(0) == '0';
      assert Digits(n / 10) == [DigitChar(n / 10)];
    } else {
      var h := n / 10;
      assert h / 10 == n / 100;
      assert Digits(h / 10) == [DigitChar(n / 100)];
      assert Digits(h) == [DigitChar(n / 100), DigitChar(h % 10)];
    }
  }

  lemma SmallFieldLiterals()
    ensures Field(0, 2) == "00" && Field(1, 2) == "01" && Field(59, 2) == "59"
    ensures Field(0, 3) == "000" && Field(500, 3) == "500" && Field(999, 3) == "999"
  {
    TwoDigitField(0);
    TwoDigitField(1);
    TwoDigitField(59);
    ThreeDigitField(0);
    ThreeDigitField(500);
    ThreeDigitField(999);
    assert DigitChar(0) == '0' && DigitChar(1) == '1' && DigitChar(5) == '5' && DigitChar(9) == '9';
  }

  lemma ZeroFields()
    ensures Field(0, 2) == "00" && Field(0, 3) == "000"
  {
    TwoDigitField(0);
    ThreeDigitField(0);
    assert DigitChar(0) == '0';
  }

  /** Under a minute the timecode is "00:00:", the two digits of the whole
      seconds, and ",000", whatever the fraction. */
  lemma WrittenUnderMinute(t: real)
    requires 0.0 <= t < 60.0
    ensures FormatTime(t) == "00:00:" + Field(t.Floor, 2) + ",000"
  {
    var z := Decompose(t);
    DecomposeFields(t);
    assert z.hours == 0 && TotalSeconds(z) == t.Floor;
    assert z == Clock(0, 0, t.Floor, 0);
    var a, b, f := Field(0, 2), Field(0, 3), Field(t.Floor, 2);
    assert FormatTime(t) == a + ":" + a + ":" + f + "," + b;
    ZeroFields();
    UnderMinuteText(a, b, f);
  }

  lemma UnderMinuteText(a: string, b: string, f: string)
    requires a == "00" && b == "000"
    ensures a + ":" + a + ":" + f + "," + b == "00:00:" + f + ",000"
  {
  }

  /** Every offset in the first second, fraction included, prints as zero. */
  lemma WrittenFirstSecond(t: real)
    requires 0.0 <= t < 1.0
    ensures FormatTime(t) == "00:00:00,000"
  {
    WrittenUnderMinute(t);
    ZeroFields();
  }

  /** Under ten seconds: "00:00:0", the one digit of the whole seconds, ",000". */
  lemma WrittenUnderTenSeconds(t: real)
    requires 0.0 <= t < 10.0
    ensures FormatTime(t) == "00:00:0" + [DigitChar(t.Floor)] + ",000"
  {
    WrittenUnderMinute(t);
    var f := Field(t.Floor, 2);
    assert f == "0" + [DigitChar(t.Floor)] by {
      TwoDigitField(t.Floor);
      assert DigitChar(0) == '0';
    }
    UnderTenText(f, DigitChar(t.Floor));
  }

  lemma UnderTenText(f: string, d: char)
    requires f == "0" + [d]
    ensures "00:00:" + f + ",000" == "00:00:0" + [d] + ",000"
  {
  }

  /** format_time as written drops the half second of 3661.5. */
  lemma WrittenDropsMillis()
    ensures FormatTime(3661.5) == "01:01:01,000"
  {
    var c := Decompose(3661.5);
    DecomposeFields(3661.5);
    assert c.hours == 1 && TotalSeconds(c) == 3661;
    assert c == Clock(1, 1, 1, 0);
    var a, b := Field(1, 2), Field(0, 3);
    assert FormatTime(3661.5) == a + ":" + a + ":" + a + "," + b;
    SmallFieldLiterals();
  }

  /** The corrected variant keeps the half second of 3661.5. */
  lemma RoundedKeepsHalfSecond()
    ensures FormatTimeRounded(3661.5) == "01:01:01,500"
  {
    assert DecomposeRounded(3661.5) == Clock(1, 1, 1, 500);
    var a, b := Field(1, 2), Field(500, 3);
    assert FormatTimeRounded(3661.5) == a + ":" + a + ":" + a + "," + b;
    SmallFieldLiterals();
  }

  /** The corrected variant keeps the 999 ms of 59.999 (rounding, not
      truncation, and no carry into the seconds). */
  lemma RoundedKeepsLastMillis()
    ensures FormatTimeRounded(59.999) == "00:00:59,999"
  {
    assert DecomposeRounded(59.999) == Clock(0, 0, 59, 999);
    var a, b, c := Field(0, 2), Field(59, 2), Field(999, 3);
    assert FormatTimeRounded(59.999) == a + ":" + a + ":" + b + "," + c;
    SmallFieldLiterals();
  }
}
