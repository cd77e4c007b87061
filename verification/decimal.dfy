/** Decimal text: Python's `int(s)` on a run of ASCII digits and the
    zero-padded format specification `f"{n:0{width}d}"`. */
module Decimal {
  import opened Chars

  function Pow10(k: nat): (p: nat)
    ensures p >= 1
  {
    if k == 0 then 1 else 10 * Pow10(k - 1)
  }

  lemma Pow10Monotone(i: nat, j: nat)
    requires i <= j
    ensures Pow10(i) <= Pow10(j)
  {
  }

  function DigitValue(c: char): (d: nat)
    requires IsDigit(c)
    ensures d < 10
  {
    c as int - '0' as int
  }

  function DigitChar(d: nat): (c: char)
    requires d < 10
    ensures IsDigit(c) && DigitValue(c) == d
  {
    ('0' as int + d) as char
  }

  /** Appending one more digit multiplies by ten and adds the digit. */
  lemma ShiftBound(v: nat, p: nat, d: nat)
    requires v < p && d < 10
    ensures v * 10 + d < 10 * p
  {
  }

  /** `int(s)` for a run of ASCII digits, leading zeros allowed: the value
      fits in as many decimal places as `s` has characters. */
  function Value(s: string): (n: nat)
    requires AllDigits(s)
    ensures n < Pow10(|s|)
  {
    if s == [] then 0
    else
      var v := Value(s[..|s| - 1]);
      ShiftBound(v, Pow10(|s| - 1), DigitValue(s[|s| - 1]));
      v * 10 + DigitValue(s[|s| - 1])
  }

  /** `str(n)` for a natural number: digits only, no leading zero, and
      reading it back with `Value` gives `n`. */
  function Digits(n: nat): (s: string)
    ensures s != [] && AllDigits(s)
    ensures Value(s) == n
    ensures s[0] == '0' ==> n == 0
  {
    if n < 10 then [DigitChar(n)]
    else
      var p := Digits(n / 10);
      var s := p + [DigitChar(n % 10)];
      assert s[..|s| - 1] == p;
      s
  }

  /** A number below `10^k` (k at least one) needs at most `k` digits. */
  lemma {:induction false} DigitsLength(n: nat, k: nat)
    requires 1 <= k && n < Pow10(k)
    ensures |Digits(n)| <= k
  {
    if n >= 10 {
      assert k >= 2;
      assert n / 10 < Pow10(k - 1);
      DigitsLength(n / 10, k - 1);
    }
  }

  /** A number of at least `10^k` needs more than `k` digits. */
  lemma DigitsLengthAbove(n: nat, k: nat)
    requires n >= Pow10(k)
    ensures |Digits(n)| > k
  {
    if |Digits(n)| <= k {
      Pow10Monotone(|Digits(n)|, k);
    }
  }

  /** `k` zero digits. */
  function Zeros(k: nat): (z: string)
    ensures |z| == k && AllDigits(z)
  {
    if k == 0 then [] else Zeros(k - 1) + ['0']
  }

  /** Leading zeros do not change the value of a digit run. */
  lemma {:induction false} ValueZeros(k: nat, s: string)
    requires AllDigits(s)
    ensures Value(Zeros(k) + s) == Value(s)
  {
    if s == [] {
      assert Zeros(k) + s == Zeros(k);
      ValueOfZeros(k);
    } else {
      var t := s[..|s| - 1];
      assert (Zeros(k) + s)[..|Zeros(k) + s| - 1] == Zeros(k) + t;
      ValueZeros(k, t);
    }
  }

  lemma {:induction false} ValueOfZeros(k: nat)
    ensures Value(Zeros(k)) == 0
  {
    if k > 0 {
      assert Zeros(k)[..k - 1] == Zeros(k - 1);
      ValueOfZeros(k - 1);
    }
  }

  /** Left-pad a digit run with zeros to at least `width` characters. */
  function PadLeft(s: string, width: nat): (r: string)
    requires AllDigits(s)
    ensures AllDigits(r) && Value(r) == Value(s)
    ensures |r| == if |s| < width then width else |s|
  {
    if |s| < width then
      ValueZeros(width - |s|, s);
      Zeros(width - |s|) + s
    else s
  }

  /** Python's `f"{n:0{width}d}"`: a non-negative number is printed with
      zeros in front up to `width` characters, exactly `width` of them when
      it is below `10^width` and with no leading zero when it is wider; a
      negative number is a minus sign followed by its magnitude padded to
      the remaining `width - 1` characters, again with no leading zero when
      the magnitude needs more. */
  function Format(n: int, width: nat): (s: string)
    requires width >= 1
    ensures |s| >= width
    ensures n >= 0 ==> AllDigits(s) && Value(s) == n
    ensures n >= 0 ==> (|s| == width <==> n < Pow10(width))
    ensures n >= Pow10(width) ==> s[0] != '0'
    ensures n < 0 ==> s[0] == '-' && AllDigits(s[1..]) && Value(s[1..]) == -n
    ensures n < 0 ==> (|s| == width <==> -n < Pow10(width - 1))
    ensures n < 0 && |s| > width ==> s[1] != '0'
  {
    if n >= 0 then
      FormatWidth(n, width);
      PadLeft(Digits(n), width)
    else
      NegativeFormat(-n, width);
      "-" + PadLeft(Digits(-n), width - 1)
  }

  /** The negative case of `Format`, for magnitude `n`. */
  lemma NegativeFormat(n: nat, width: nat)
    requires n >= 1 && width >= 1
    ensures var s := "-" + PadLeft(Digits(n), width - 1);
            && |s| >= width && s[0] == '-' && AllDigits(s[1..]) && Value(s[1..]) == n
            && (|s| == width <==> n < Pow10(width - 1))
            && (|s| > width ==> s[1] != '0')
  {
    var p := PadLeft(Digits(n), width - 1);
    var s := "-" + p;
    assert s[1..] == p;
    MagnitudeWidth(n, width - 1);
  }

  /** Padding a positive magnitude to `w` characters gives exactly `w` of
      them when it is below `10^w`, and otherwise its digits unpadded. */
  lemma MagnitudeWidth(n: nat, w: nat)
    requires n >= 1
    ensures |PadLeft(Digits(n), w)| == w <==> n < Pow10(w)
    ensures |PadLeft(Digits(n), w)| > w ==> PadLeft(Digits(n), w)[0] != '0'
  {
    if w == 0 {
      assert Pow10(0) == 1;
    } else {
      FormatWidth(n, w);
    }
  }

  lemma FormatWidth(n: nat, width: nat)
    requires width >= 1
    ensures |PadLeft(Digits(n), width)| == width <==> n < Pow10(width)
    ensures n >= Pow10(width) ==> PadLeft(Digits(n), width) == Digits(n) && Digits(n)[0] != '0'
  {
    if n < Pow10(width) {
      DigitsLength(n, width);
    } else {
      DigitsLengthAbove(n, width);
    }
  }
}
