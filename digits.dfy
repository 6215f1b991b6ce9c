/** Decimal digit strings and their values: the exact arithmetic behind `Number(...)` and `toFixed`. */
module Digits {
  import opened Text

  predicate AllDigits(s: string) {
    forall k :: 0 <= k < |s| ==> IsDigit(s[k])
  }

  function DigitValue(c: char): (d: nat)
    requires IsDigit(c)
    ensures d < 10
  {
    c as int - '0' as int
  }

  function DigitChar(d: nat): (c: char)
    requires d < 10
    ensures IsDigit(c) && DigitValue(c) == d
  {
    ('0' as int + d) as char
  }

  function Pow10(d: nat): (p: nat)
    ensures p >= 1
  {
    if d == 0 then 1 else 10 * Pow10(d - 1)
  }

  /** The value of a string of decimal digits, most significant first; `""` counts as 0 (as `Number("")` does). */
  function DigitsValue(ds: string): nat
    requires AllDigits(ds)
  {
    if ds == [] then 0 else DigitsValue(ds[..|ds| - 1]) * 10 + DigitValue(ds[|ds| - 1])
  }

  /** The value of two digits. */
  lemma TwoDigitsValue(p: string)
    requires |p| == 2 && AllDigits(p)
    ensures DigitsValue(p) == DigitValue(p[0]) * 10 + DigitValue(p[1])
  {
    var first := p[..1];
    assert first[..0] == [] && first[0] == p[0];
    assert DigitsValue(first) == DigitValue(p[0]);
  }

  /** Digits written after others shift the others by a power of ten. */
  lemma {:induction false} DigitsValueAppend(x: string, y: string)
    requires AllDigits(x) && AllDigits(y)
    ensures AllDigits(x + y)
    ensures DigitsValue(x + y) == DigitsValue(x) * Pow10(|y|) + DigitsValue(y)
  {
    if y == [] {
      assert x + y == x;
    } else {
      var y' := y[..|y| - 1];
      assert (x + y)[..|x + y| - 1] == x + y';
      DigitsValueAppend(x, y');
      var last := y[|y| - 1];
      assert (x + y)[|x + y| - 1] == last;
      assert DigitsValue(x + y) == DigitsValue(x + y') * 10 + DigitValue(last);
      assert DigitsValue(y) == DigitsValue(y') * 10 + DigitValue(last);
      assert Pow10(|y|) == Pow10(|y'|) * 10;
      ShiftDigit(DigitsValue(x), Pow10(|y'|), DigitsValue(y'), DigitValue(last));
    }
  }

  lemma ShiftDigit(x: nat, p: nat, y: nat, c: nat)
    ensures (x * p + y) * 10 + c == x * (p * 10) + (y * 10 + c)
  {
  }

  /** A whole number as `String` and `toFixed` write it: digits with no leading zero, unless the number is 0 itself. */
  predicate IsNumeral(w: string) {
    w != [] && AllDigits(w) && (|w| == 1 || w[0] != '0')
  }

  /** The shortest decimal numeral of `n`, as `String(n)` writes a whole number. */
  function NatToDigits(n: nat): (ds: string)
    ensures IsNumeral(ds) && DigitsValue(ds) == n
  {
    if n < 10 then [DigitChar(n)]
    else
      var high := NatToDigits(n / 10);
      var ds := high + [DigitChar(n % 10)];
      assert ds[..|ds| - 1] == high;
      ds
  }

  /** A numeral is the only one of its value: writing its value gives it back. */
  lemma {:induction false} NumeralUnique(w: string)
    requires IsNumeral(w)
    ensures NatToDigits(DigitsValue(w)) == w
    decreases |w|
  {
    var last := w[|w| - 1];
    if |w| == 1 {
      assert w[..0] == [];
      assert DigitChar(DigitValue(last)) == last;
      assert w == [last];
    } else {
      var high := w[..|w| - 1];
      assert high[0] == w[0];
      NumeralUnique(high);
      LeadingDigitPositive(high);
      var x := DigitsValue(high);
      var c := DigitValue(last);
      DivTen(x, c);
      assert DigitChar(c) == last;
      assert w == high + [last];
    }
  }

  /** Digits that start with a non-zero digit have a positive value. */
  lemma {:induction false} LeadingDigitPositive(w: string)
    requires w != [] && AllDigits(w) && w[0] != '0'
    ensures DigitsValue(w) >= 1
    decreases |w|
  {
    if |w| > 1 {
      var high := w[..|w| - 1];
      assert high[0] == w[0];
      LeadingDigitPositive(high);
    } else {
      assert w[..0] == [];
    }
  }

  /** A last digit `c` splits off `x * 10 + c` by division by ten. */
  lemma DivTen(x: nat, c: nat)
    requires c < 10
    ensures (x * 10 + c) / 10 == x && (x * 10 + c) % 10 == c
  {
  }

  /** `k` zeros. */
  function Zeros(k: nat): (z: string)
    ensures |z| == k && AllDigits(z) && DigitsValue(z) == 0
  {
    if k == 0 then []
    else
      var z := Zeros(k - 1) + "0";
      assert z[..|z| - 1] == Zeros(k - 1);
      z
  }

  /** Zeros written in front of digits leave their value. */
  lemma LeadingZeros(k: nat, ds: string)
    requires AllDigits(ds)
    ensures AllDigits(Zeros(k) + ds) && DigitsValue(Zeros(k) + ds) == DigitsValue(ds)
  {
    DigitsValueAppend(Zeros(k), ds);
    ZeroTimes(Pow10(|ds|));
  }

  lemma ZeroTimes(p: nat)
    ensures 0 * p == 0
  {
  }

  /** `ds` with zeros in front to make at least `k` digits. */
  function PadTo(ds: string, k: nat): (r: string)
    requires AllDigits(ds)
    ensures |r| >= k && |r| >= |ds| && AllDigits(r) && DigitsValue(r) == DigitsValue(ds)
    ensures |ds| >= k ==> r == ds
    ensures |ds| < k ==> |r| == k
  {
    if |ds| >= k then ds
    else
      LeadingZeros(k - |ds|, ds);
      Zeros(k - |ds|) + ds
  }
}
