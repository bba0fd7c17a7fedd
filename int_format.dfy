/** Decimal rendering of Python integers, as the subtitle writer uses it:
    `str(n)` (the cue index) and the zero-padded format spec `{n:0W}`
    (the timecode fields). ParseDecimal and ParseSigned read such text back
    and serve as the inverse that the rendering is proved against. */
module IntFormat {

  datatype Option<T> = None | Some(value: T)

  predicate IsDigit(c: char) { '0' <= c <= '9' }

  predicate AllDigits(s: string) { forall i :: 0 <= i < |s| ==> IsDigit(s[i]) }

  function DigitValue(c: char): (d: nat)
    requires IsDigit(c)
    ensures d < 10
  {
    (c as int) - ('0' as int)
  }

  function DigitChar(d: nat): (c: char)
    requires d < 10
    ensures IsDigit(c) && DigitValue(c) == d
  {
    (('0' as int) + d) as char
  }

  /** Value of a string of decimal digits, most significant first; "" reads as 0. */
  function ParseDecimal(s: string): nat
    requires AllDigits(s)
  {
    if s == [] then 0 else ParseDecimal(s[..|s| - 1]) * 10 + DigitValue(s[|s| - 1])
  }

  function Pow10(k: nat): (p: nat)
    ensures p >= 1
  {
    if k == 0 then 1 else 10 * Pow10(k - 1)
  }

  /** `str(n)` for a non-negative int: shortest decimal, no leading zero. */
  function Digits(n: nat): (s: string)
    ensures 1 <= |s|
    decreases n
  {
    if n < 10 then [DigitChar(n)] else Digits(n / 10) + [DigitChar(n % 10)]
  }

  /** `str(n)` is all digits, reads back as n, and has no leading zero. */
  lemma {:induction false} DigitsRoundTrip(n: nat)
    ensures AllDigits(Digits(n))
    ensures ParseDecimal(Digits(n)) == n
    ensures Digits(n)[0] == '0' ==> n == 0 && Digits(n) == "0"
    decreases n
  {
    if n >= 10 {
      var init := Digits(n / 10);
      var s := Digits(n);
      DigitsRoundTrip(n / 10);
      assert s == init + [DigitChar(n % 10)];
      assert s[..|s| - 1] == init;
    }
  }

  /** A number has at most k decimal digits exactly when it is below 10^k. */
  lemma {:induction false} DigitsFit(n: nat, k: nat)
    requires k >= 1
    ensures |Digits(n)| <= k <==> n < Pow10(k)
    decreases n
  {
    if n >= 10 {
      if k == 1 {
        assert |Digits(n)| == |Digits(n / 10)| + 1;
      } else {
        DigitsFit(n / 10, k - 1);
      }
    }
  }

  function Zeros(k: nat): (z: string)
    ensures |z| == k
  {
    if k == 0 then "" else Zeros(k - 1) + "0"
  }

  lemma {:induction false} ZerosValue(k: nat)
    ensures AllDigits(Zeros(k))
    ensures ParseDecimal(Zeros(k)) == 0
  {
    if k > 0 {
      var z := Zeros(k);
      ZerosValue(k - 1);
      assert z[..k - 1] == Zeros(k - 1);
    }
  }

  /** Left-pads s with '0' up to width w; never truncates. */
  function ZeroPad(s: string, w: nat): (r: string)
    ensures |r| == if |s| >= w then |s| else w
    decreases w - |s|
  {
    if |s| >= w then s else ZeroPad("0" + s, w)
  }

  lemma {:induction false} ZeroPadIsZeros(s: string, w: nat)
    ensures ZeroPad(s, w) == Zeros(if |s| >= w then 0 else w - |s|) + s
    decreases w - |s|
  {
    if |s| < w {
      ZeroPadIsZeros("0" + s, w);
      var k := w - |s|;
      assert Zeros(k - 1) + ("0" + s) == (Zeros(k - 1) + "0") + s;
    } else {
      assert Zeros(0) + s == s;
    }
  }

  /** Leading zeros do not change the value of a digit string. */
  lemma {:induction false} ZerosPrefixValue(k: nat, s: string)
    requires AllDigits(s)
    ensures AllDigits(Zeros(k) + s)
    ensures ParseDecimal(Zeros(k) + s) == ParseDecimal(s)
    decreases |s|
  {
    var z := Zeros(k) + s;
    ZerosValue(k);
    if s == [] {
      assert z == Zeros(k);
    } else {
      assert z[..|z| - 1] == Zeros(k) + s[..|s| - 1];
      ZerosPrefixValue(k, s[..|s| - 1]);
    }
  }

  /** Python's `format(n, '0' + str(w))` for an int n: the sign, then the
      digits of |n| zero-padded so that sign and digits fill at least w characters. */
  function Field(n: int, w: nat): string
    decreases if n < 0 then 1 else 0
  {
    if n < 0 then "-" + Field(-n, if w > 0 then w - 1 else 0)
    else ZeroPad(Digits(n), w)
  }

  /** Reads an optionally '-'-signed decimal; None for anything else. */
  function ParseSigned(s: string): Option<int>
  {
    if |s| > 1 && s[0] == '-' && AllDigits(s[1..]) then Some(-(ParseDecimal(s[1..]) as int))
    else if |s| > 0 && AllDigits(s) then Some(ParseDecimal(s))
    else None
  }

  /** The zero-padded digits of a natural number are all digits and read back as it. */
  lemma {:induction false} PaddedDigits(n: nat, w: nat)
    ensures AllDigits(ZeroPad(Digits(n), w))
    ensures ParseDecimal(ZeroPad(Digits(n), w)) == n
  {
    var d := Digits(n);
    DigitsRoundTrip(n);
    ZeroPadIsZeros(d, w);
    ZerosPrefixValue(if |d| >= w then 0 else w - |d|, d);
  }

  lemma {:induction false} ParseSignedDigits(p: string)
    requires |p| >= 1 && AllDigits(p)
    ensures ParseSigned(p) == Some(ParseDecimal(p) as int)
    ensures ParseSigned("-" + p) == Some(-(ParseDecimal(p) as int))
  {
    assert IsDigit(p[0]);
    assert ("-" + p)[1..] == p;
  }

  lemma PaddedRoundTrip(n: nat, w: nat)
    ensures ParseSigned(ZeroPad(Digits(n), w)) == Some(n)
    ensures ParseSigned("-" + ZeroPad(Digits(n), w)) == Some(-(n as int))
  {
    PaddedDigits(n, w);
    ParseSignedDigits(ZeroPad(Digits(n), w));
  }

  /** Round trip of the format spec: reading a rendered field gives back the integer. */
  lemma {:induction false} FieldRoundTrip(n: int, w: nat)
    ensures ParseSigned(Field(n, w)) == Some(n)
  {
    if n < 0 {
      var v := if w > 0 then w - 1 else 0;
      PaddedRoundTrip(-n, v);
      assert Field(n, w) == "-" + ZeroPad(Digits(-n), v);
    } else {
      PaddedRoundTrip(n, w);
    }
  }

  /** Width of a non-negative field: exactly w while the number has at most
      w digits, and the digit count beyond that (the field widens, never truncates). */
  lemma FieldWidth(n: nat, w: nat)
    requires w >= 1
    ensures n < Pow10(w) ==> |Field(n, w)| == w
    ensures n >= Pow10(w) ==> |Field(n, w)| == |Digits(n)| > w
  {
    DigitsFit(n, w);
  }

  /** A rendered field is never narrower than the requested width. */
  lemma FieldAtLeastWidth(n: int, w: nat)
    ensures |Field(n, w)| >= w
  {
  }

}
