/**
 * The amount normaliser `cleanAmount` (app.js:18-23) and the exact decimal
 * arithmetic standing for the floating-point calls around it: `String(number)`
 * for a cell and `toFixed(digits)` for a forex rate.
 *
 * An amount is a whole number of hundredths: the amount pattern admits at most
 * two fraction digits, so every value it reads is exact in that unit.
 */
module Amount {
  import opened Options
  import opened Text
  import opened Digits

  /** `[\d,]` */
  predicate IsAmountChar(c: char) { IsDigit(c) || c == ',' }

  predicate AllAmountChars(s: string) {
    forall k :: 0 <= k < |s| ==> IsAmountChar(s[k])
  }

  /** The optional fraction `(?:\.\d{1,2})?` as a language. */
  predicate IsFraction(f: string) {
    || f == []
    || (|f| == 2 && f[0] == '.' && IsDigit(f[1]))
    || (|f| == 3 && f[0] == '.' && IsDigit(f[1]) && IsDigit(f[2]))
  }

  /** The amount pattern `[\d,]+(?:\.\d{1,2})?` as a language: the reference the scanners below are proved against. */
  ghost predicate MatchesAmountToken(t: string) {
    exists k :: 0 < k <= |t| && AllAmountChars(t[..k]) && IsFraction(t[k..])
  }

  /** A text in the amount language starts with a digit or a comma. */
  lemma AmountTokenStart(t: string)
    requires MatchesAmountToken(t)
    ensures t != [] && IsAmountChar(t[0])
  {
    var k :| 0 < k <= |t| && AllAmountChars(t[..k]) && IsFraction(t[k..]);
    assert t[..k][0] == t[0];
  }

  /** Length of the greedy `[\d,]*` at the start of `t`. */
  function RunLen(t: string): (n: nat)
    ensures n <= |t| && AllAmountChars(t[..n])
    ensures n == |t| || !IsAmountChar(t[n])
  {
    if t == [] || !IsAmountChar(t[0]) then 0
    else
      var n := 1 + RunLen(t[1..]);
      assert t[..n] == [t[0]] + t[1..][..n - 1];
      n
  }

  /** Length of the greedy `(?:\.\d{1,2})?` at the start of `t`: the longest prefix that is a fraction. */
  function FracLen(t: string): (n: nat)
    ensures n <= |t| && IsFraction(t[..n])
    ensures forall m :: n < m <= |t| ==> !IsFraction(t[..m])
  {
    if |t| >= 2 && t[0] == '.' && IsDigit(t[1]) then
      if |t| >= 3 && IsDigit(t[2]) then 3 else 2
    else 0
  }

  /** Length of the text the amount pattern captures when its match starts at the beginning of `t`. */
  function TokenLen(t: string): (n: nat)
    ensures RunLen(t) <= n <= |t|
    ensures t != [] && IsAmountChar(t[0]) ==> n > 0
  {
    var r := RunLen(t);
    r + FracLen(t[r..])
  }

  /** Every character of the captured amount text is a digit, a comma or the point: none is a letter or a space. */
  lemma TokenChars(t: string, k: nat)
    requires k < TokenLen(t)
    ensures IsAmountChar(t[k]) || t[k] == '.'
  {
    var r := RunLen(t);
    if k >= r {
      assert t[r..][..FracLen(t[r..])][k - r] == t[k];
    }
  }

  /** A prefix made of digits and commas lies within the greedy run. */
  lemma {:induction false} RunLenCovers(t: string, k: nat)
    requires k <= |t| && AllAmountChars(t[..k])
    ensures k <= RunLen(t)
  {
    if k > 0 {
      assert t[..k][0] == t[0];
      assert t[1..][..k - 1] == t[..k][1..];
      RunLenCovers(t[1..], k - 1);
    }
  }

  /** The greedy run stops at the first character that is neither a digit nor a comma. */
  lemma {:induction false} RunLenStops(t: string, k: nat)
    requires k <= |t| && (k == |t| || !IsAmountChar(t[k]))
    ensures RunLen(t) <= k
  {
    if k > 0 && t != [] && IsAmountChar(t[0]) {
      assert t[1..][k - 1..] == t[k..];
      RunLenStops(t[1..], k - 1);
    }
  }

  /** No prefix of `t` longer than the captured text is in the pattern's language. */
  lemma TokenPrefixBound(t: string, m: nat)
    requires m <= |t|
    ensures MatchesAmountToken(t[..m]) ==> m <= TokenLen(t)
  {
    if MatchesAmountToken(t[..m]) {
      var r := RunLen(t);
      var k :| 0 < k <= m && AllAmountChars(t[..m][..k]) && IsFraction(t[..m][k..]);
      assert t[..m][..k] == t[..k];
      RunLenCovers(t, k);
      if k < m {
        assert t[..m][k..][0] == t[k] == '.';
        RunLenStops(t, k);
        assert t[..m][k..] == t[r..][..m - r];
      }
    }
  }

  /** The captured amount text is in the pattern's language. */
  lemma TokenMatches(t: string)
    requires t != [] && IsAmountChar(t[0])
    ensures TokenLen(t) <= |t| && MatchesAmountToken(t[..TokenLen(t)])
  {
    var r := RunLen(t);
    var n := TokenLen(t);
    assert t[..n][..r] == t[..r];
    assert t[..n][r..] == t[r..][..n - r];
  }

  /** The captured amount text is the longest prefix of `t` in the pattern's language. */
  lemma TokenLenLongest(t: string)
    requires t != [] && IsAmountChar(t[0])
    ensures TokenLen(t) <= |t|
    ensures MatchesAmountToken(t[..TokenLen(t)])
    ensures forall m :: TokenLen(t) < m <= |t| ==> !MatchesAmountToken(t[..m])
  {
    var n := TokenLen(t);
    TokenMatches(t);
    forall m | n < m <= |t| ensures !MatchesAmountToken(t[..m]) {
      TokenPrefixBound(t, m);
    }
  }

  /**
   * When the amount pattern is followed by anything but a digit, a comma or a
   * point, the pattern's language fixes where the amount text ends: the
   * regular expression's backtracking can only end it at the greedy length.
   */
  lemma TokenEndUnique(t: string, e: nat)
    requires e <= |t| && MatchesAmountToken(t[..e])
    requires e == |t| || (!IsAmountChar(t[e]) && t[e] != '.')
    ensures e == TokenLen(t)
  {
    TokenPrefixBound(t, e);
    var r := RunLen(t);
    var k :| 0 < k <= e && AllAmountChars(t[..e][..k]) && IsFraction(t[..e][k..]);
    assert t[..e][..k] == t[..k];
    RunLenCovers(t, k);
    var f := t[..e][k..];
    if f == [] {
      RunLenStops(t, e);
      assert r == e;
      assert e < |t| ==> t[r..][0] == t[e];
    } else {
      assert f[0] == t[k] == '.';
      RunLenStops(t, k);
      assert f == t[r..][..e - r];
      assert e < |t| ==> |t[r..]| >= 3 && t[r..][e - r] == t[e];
    }
  }

  /** A whole text in the amount language is captured in full. */
  lemma TokenLenOfToken(t: string)
    requires MatchesAmountToken(t)
    ensures TokenLen(t) == |t|
  {
    assert t[..|t|] == t;
    TokenEndUnique(t, |t|);
  }

  /** The value of the optional fraction at the start of `f`, in hundredths. */
  function FracValue(f: string): (v: nat)
    ensures v < 100
  {
    match FracLen(f)
    case 0 => 0
    case 2 => DigitValue(f[1]) * 10
    case _ => DigitValue(f[1]) * 10 + DigitValue(f[2])
  }

  /** `s.replace(/,/g, "")` */
  function RemoveCommas(s: string): (r: string)
    ensures forall k :: 0 <= k < |r| ==> r[k] != ','
    ensures AllAmountChars(s) ==> AllDigits(r)
    ensures (forall k :: 0 <= k < |s| ==> s[k] != ',') ==> r == s
  {
    if s == [] then []
    else
      var rest := RemoveCommas(s[1..]);
      var r := (if s[0] == ',' then [] else [s[0]]) + rest;
      assert (forall k :: 0 <= k < |s| ==> s[k] != ',') ==> r == [s[0]] + s[1..];
      r
  }

  /**
   * `Number(text.replace(/,/g, ""))` in hundredths, where `text` is the amount
   * captured at the start of `t`: the digits of the run with its commas deleted,
   * then the fraction. A comma-only run reads as 0, as `Number("")` does.
   */
  function TokenValue(t: string): nat {
    var r := RunLen(t);
    DigitsValue(RemoveCommas(t[..r])) * 100 + FracValue(t[r..])
  }

  /** `i` is the index of the first digit or comma of `s`: where an unanchored amount match starts. */
  predicate IsFirstAmountChar(s: string, i: nat) {
    i < |s| && IsAmountChar(s[i]) && forall k :: 0 <= k < i ==> !IsAmountChar(s[k])
  }

  /**
   * `cleanAmount(str)`: `None` (JavaScript's `null`) when `str` holds no digit
   * and no comma (the empty string included); otherwise the value of the amount
   * captured at the first digit or comma.
   */
  function CleanAmount(s: string): (r: Option<nat>)
    ensures r.None? <==> forall k :: 0 <= k < |s| ==> !IsAmountChar(s[k])
    ensures forall i: nat :: IsFirstAmountChar(s, i) ==> r == Some(TokenValue(s[i..]))
  {
    if s == [] then None
    else
      var p := (k: nat) => k < |s| && IsAmountChar(s[k]);
      match FindFirst(p, 0, |s|)
      case None =>
        assert forall k :: 0 <= k < |s| ==> !IsAmountChar(s[k]) by {
          forall k | 0 <= k < |s| ensures !IsAmountChar(s[k]) { assert !p(k); }
        }
        None
      case Some(j) =>
        assert forall i: nat :: IsFirstAmountChar(s, i) ==> i == j by {
          forall i: nat | IsFirstAmountChar(s, i) ensures i == j {
            assert p(i);
            assert IsAmountChar(s[j]);
          }
        }
        Some(TokenValue(s[j..]))
  }

  /** The first digit or comma of `s` is at `i`. */
  lemma CleanAmountAt(s: string, i: nat)
    requires IsFirstAmountChar(s, i)
    ensures CleanAmount(s) == Some(TokenValue(s[i..]))
  {
  }

  /** Appending text that does not continue the run leaves the run where it was. */
  lemma {:induction false} RunLenAppend(w: string, u: string)
    requires AllAmountChars(w)
    requires u == [] || !IsAmountChar(u[0])
    ensures RunLen(w + u) == |w|
  {
    if w != [] {
      assert (w + u)[1..] == w[1..] + u;
      RunLenAppend(w[1..], u);
    } else {
      assert w + u == u;
    }
  }

  /** A whole number of digits followed by a fraction reads back as the number and the fraction. */
  lemma TokenValueOf(whole: string, frac: string)
    requires whole != [] && AllDigits(whole)
    requires IsFraction(frac)
    ensures TokenLen(whole + frac) == |whole + frac|
    ensures TokenValue(whole + frac) == DigitsValue(whole) * 100 + FracValue(frac)
  {
    var t := whole + frac;
    assert AllAmountChars(whole);
    RunLenAppend(whole, frac);
    assert t[..|whole|] == whole && t[|whole|..] == frac;
    assert frac[..|frac|] == frac;
    assert RemoveCommas(whole) == whole;
  }

  // ---- String(number): the text a CSV cell shows for an amount ----

  /**
   * `String(v / 100)`: the whole part, then a point and the fraction without
   * trailing zeros when there is one.
   */
  function ShowDecimal(v: nat): (s: string)
    ensures s != [] && IsShownDecimal(s)
  {
    var whole := NatToDigits(v / 100);
    var frac := CentsText(v % 100);
    ShownDecimalOf(whole, frac);
    whole + frac
  }

  /** A fraction `String` writes: a point and one or two digits, the last of them not 0. */
  predicate IsCents(f: string) {
    IsFraction(f) && f != [] && f[|f| - 1] != '0'
  }

  /**
   * The text `String` writes for a non-negative number with at most two
   * decimals: a numeral, then possibly a point and one or two digits that do
   * not end in 0.
   */
  predicate IsShownDecimal(s: string) {
    || IsNumeral(s)
    || (|s| >= 3 && IsNumeral(s[..|s| - 2]) && IsCents(s[|s| - 2..]))
    || (|s| >= 4 && IsNumeral(s[..|s| - 3]) && IsCents(s[|s| - 3..]))
  }

  lemma ShownDecimalOf(whole: string, frac: string)
    requires IsNumeral(whole) && (frac == [] || IsCents(frac))
    ensures IsShownDecimal(whole + frac)
  {
    var s := whole + frac;
    if frac == [] {
      assert s == whole;
    } else {
      assert s[..|whole|] == whole && s[|whole|..] == frac;
    }
  }

  /**
   * A shown decimal is the only text `String` writes for its value: reading
   * it and writing the value again gives it back.
   */
  lemma ShownDecimalUnique(s: string)
    requires IsShownDecimal(s)
    ensures CleanAmount(s).Some? && ShowDecimal(CleanAmount(s).value) == s
  {
    if IsNumeral(s) {
      assert s + [] == s;
      ShowDecimalOfParts(s, []);
    } else if |s| >= 3 && IsNumeral(s[..|s| - 2]) && IsCents(s[|s| - 2..]) {
      assert s[..|s| - 2] + s[|s| - 2..] == s;
      ShowDecimalOfParts(s[..|s| - 2], s[|s| - 2..]);
    } else {
      assert s[..|s| - 3] + s[|s| - 3..] == s;
      ShowDecimalOfParts(s[..|s| - 3], s[|s| - 3..]);
    }
  }

  /** A numeral and a fraction `String` writes are read as a value whose text is that numeral and fraction. */
  lemma ShowDecimalOfParts(whole: string, frac: string)
    requires IsNumeral(whole) && (frac == [] || IsCents(frac))
    ensures CleanAmount(whole + frac).Some?
    ensures ShowDecimal(CleanAmount(whole + frac).value) == whole + frac
  {
    var x := DigitsValue(whole);
    var c := FracValue(frac);
    NumeralRead(whole, frac);
    var v := CleanAmount(whole + frac).value;
    NumeralUnique(whole);
    CentsTextOf(frac);
    ShowDecimalIs(v, x, c);
    assert ShowDecimal(v) == whole + frac;
  }

  /** A numeral followed by a fraction is read as the numeral's value in hundredths plus the fraction's. */
  lemma NumeralRead(whole: string, frac: string)
    requires IsNumeral(whole) && (frac == [] || IsCents(frac))
    ensures CleanAmount(whole + frac).Some?
    ensures CleanAmount(whole + frac).value == DigitsValue(whole) * 100 + FracValue(frac)
  {
    TokenValueOf(whole, frac);
    var s := whole + frac;
    assert s[0] == whole[0];
    CleanAmountAt(s, 0);
    assert s[0..] == s;
  }

  /** `String` writes `x` hundreds and `c` hundredths as the numeral of `x` and the fraction of `c`. */
  lemma ShowDecimalIs(v: nat, x: nat, c: nat)
    requires c < 100 && v == x * 100 + c
    ensures ShowDecimal(v) == NatToDigits(x) + CentsText(c)
  {
    DivHundred(x, c);
  }

  lemma DivHundred(x: nat, c: nat)
    requires c < 100
    ensures (x * 100 + c) / 100 == x && (x * 100 + c) % 100 == c
  {
  }

  /** `String` writes the hundredths of a fraction it writes as that fraction. */
  lemma CentsTextOf(f: string)
    requires f == [] || IsCents(f)
    ensures FracValue(f) < 100 && CentsText(FracValue(f)) == f
  {
    if |f| == 2 {
      var a := DigitValue(f[1]);
      assert FracValue(f) == a * 10;
      assert a != 0;
      DivTen(a, 0);
      assert DigitChar(a) == f[1];
      assert f == ['.', f[1]];
    } else if |f| == 3 {
      var a := DigitValue(f[1]);
      var b := DigitValue(f[2]);
      assert FracValue(f) == a * 10 + b;
      assert b != 0;
      DivTen(a, b);
      assert DigitChar(a) == f[1] && DigitChar(b) == f[2];
      assert f == ['.', f[1], f[2]];
    }
  }

  /** The fraction `String` writes for `cents` hundredths: nothing, one digit, or two. */
  function CentsText(cents: nat): (f: string)
    requires cents < 100
    ensures IsFraction(f) && FracValue(f) == cents
    ensures f == [] || (f[0] == '.' && IsDigit(f[|f| - 1]))
    ensures f == [] <==> cents == 0
    ensures f == [] || IsCents(f)
  {
    if cents == 0 then []
    else if cents % 10 == 0 then ['.', DigitChar(cents / 10)]
    else ['.', DigitChar(cents / 10), DigitChar(cents % 10)]
  }

  /** Text made of digits and points that starts and ends with a digit. */
  predicate IsDecimalText(s: string) {
    && s != [] && IsDigit(s[0]) && IsDigit(s[|s| - 1])
    && forall k :: 0 <= k < |s| ==> IsDigit(s[k]) || s[k] == '.'
  }

  /** The rendered amount is digits with at most one point between them: no space, no sign, no letter. */
  lemma ShowDecimalChars(v: nat)
    ensures IsDecimalText(ShowDecimal(v))
  {
    var whole := NatToDigits(v / 100);
    var frac := CentsText(v % 100);
    var s := whole + frac;
    forall k | 0 <= k < |s| ensures IsDigit(s[k]) || s[k] == '.' {
      if k >= |whole| {
        assert s[k] == frac[k - |whole|];
      }
    }
  }

  /** What a cell shows for an amount is read back by `cleanAmount` as the same amount, and it is one whole amount token. */
  lemma ShowDecimalRoundTrip(v: nat)
    ensures CleanAmount(ShowDecimal(v)) == Some(v)
    ensures TokenLen(ShowDecimal(v)) == |ShowDecimal(v)|
  {
    var whole := NatToDigits(v / 100);
    var frac := CentsText(v % 100);
    TokenValueOf(whole, frac);
    var s := whole + frac;
    assert s[0] == whole[0];
    CleanAmountAt(s, 0);
    assert s[0..] == s;
  }

  // ---- Number.prototype.toFixed on the quotient of two amounts ----

  /**
   * The integer `n` nearest to `(a / f) * 10^d`, the larger one on a tie: the
   * number `toFixed(d)` writes out, computed exactly on the two amounts.
   */
  function RoundedQuotient(a: nat, f: nat, d: nat): nat
    requires f > 0
  {
    Quot(2 * a * Pow10(d) + f, 2 * f)
  }

  /** The rounded quotient is within half of `f` of `a * 10^d / f` scaled back: `n f - f/2 <= a 10^d < n f + f/2`. */
  lemma RoundedQuotientNearest(a: nat, f: nat, d: nat)
    requires f > 0
    ensures var n := RoundedQuotient(a, f, d);
      n * (2 * f) <= 2 * a * Pow10(d) + f < n * (2 * f) + 2 * f
  {
    QuotBounds(2 * a * Pow10(d) + f, 2 * f);
  }

  /** Integer division `x / y`, by repeated subtraction. */
  function Quot(x: nat, y: nat): nat
    requires y > 0
    decreases x
  {
    if x < y then 0 else 1 + Quot(x - y, y)
  }

  /** The quotient is the number of whole `y`s in `x`. */
  lemma {:induction false} QuotBounds(x: nat, y: nat)
    requires y > 0
    ensures Quot(x, y) * y <= x < Quot(x, y) * y + y
    decreases x
  {
    if x >= y {
      var q := Quot(x - y, y);
      QuotBounds(x - y, y);
      assert (q + 1) * y == q * y + y;
    }
  }

  /** `ds` with a point inserted before its last `d` digits. */
  function InsertPoint(ds: string, d: nat): (s: string)
    requires |ds| > d && AllDigits(ds)
    ensures |s| == |ds| + 1 && s[|s| - d - 1] == '.'
    ensures s[..|s| - d - 1] == ds[..|ds| - d] && s[|s| - d..] == ds[|ds| - d..]
    ensures AllDigits(s[..|s| - d - 1]) && AllDigits(s[|s| - d..])
  {
    var whole := ds[..|ds| - d];
    var frac := ds[|ds| - d..];
    var s := whole + ['.'] + frac;
    assert s[..|s| - d - 1] == whole && s[|s| - d..] == frac;
    s
  }

  /** Digits, a point, and exactly `d` digits after it. */
  predicate IsFixedText(s: string, d: nat) {
    |s| >= d + 2 && s[|s| - d - 1] == '.' && AllDigits(s[..|s| - d - 1]) && AllDigits(s[|s| - d..])
  }

  /** The digits of a fixed-point text without its point. */
  function FixedDigits(s: string, d: nat): (ds: string)
    requires IsFixedText(s, d)
    ensures AllDigits(ds) && |ds| == |s| - 1
  {
    s[..|s| - d - 1] + s[|s| - d..]
  }

  /** `n / 10^d` as `toFixed(d)` writes it: a numeral, a point and exactly `d` digits, together reading `n`. */
  predicate IsFixedOf(s: string, n: nat, d: nat) {
    IsFixedText(s, d) && DigitsValue(FixedDigits(s, d)) == n && IsNumeral(s[..|s| - d - 1])
  }

  /** `n / 10^d` written with exactly `d` digits after the point, and a `0` before it when `n < 10^d`. */
  function FixedPoint(n: nat, d: nat): (s: string)
    requires d > 0
    ensures IsFixedOf(s, n, d)
  {
    var ds := PadTo(NatToDigits(n), d + 1);
    InsertPointValue(ds, d);
    PaddedWhole(NatToDigits(n), d);
    InsertPoint(ds, d)
  }

  /** Padding a numeral to more than `d` digits leaves a numeral in front of the last `d`. */
  lemma PaddedWhole(ds: string, d: nat)
    requires IsNumeral(ds)
    ensures var r := PadTo(ds, d + 1); IsNumeral(r[..|r| - d])
  {
    var r := PadTo(ds, d + 1);
    var w := r[..|r| - d];
    if |ds| >= d + 1 && |w| > 1 {
      assert w[0] == ds[0];
    }
  }

  /** The digits either side of the inserted point are the digits of `ds`. */
  lemma InsertPointValue(ds: string, d: nat)
    requires |ds| > d && AllDigits(ds)
    ensures var s := InsertPoint(ds, d); IsFixedText(s, d) && FixedDigits(s, d) == ds
  {
    assert ds[..|ds| - d] + ds[|ds| - d..] == ds;
  }

  /**
   * `(a / f).toFixed(d)`: the rounded quotient with exactly `d` digits after the
   * point (the parser asks for 4 or 2 digits, never 0).
   */
  function ToFixed(a: nat, f: nat, d: nat): (s: string)
    requires f > 0 && d > 0
    ensures IsFixedOf(s, RoundedQuotient(a, f, d), d)
  {
    FixedPoint(RoundedQuotient(a, f, d), d)
  }

  /** A number written with two decimals reads back through `cleanAmount` as that number of hundredths. */
  lemma FixedPointTwoReadsBack(n: nat)
    ensures CleanAmount(FixedPoint(n, 2)) == Some(n)
  {
    var s := FixedPoint(n, 2);
    var whole := s[..|s| - 3];
    var pad := s[|s| - 2..];
    assert s == whole + ['.'] + pad;
    assert FixedDigits(s, 2) == whole + pad;
    TwoDecimalsReadBack(whole, pad);
  }

  /** Digits, a point and two digits read back as the digits on both sides, in hundredths. */
  lemma TwoDecimalsReadBack(whole: string, pad: string)
    requires whole != [] && AllDigits(whole) && |pad| == 2 && AllDigits(pad)
    ensures AllDigits(whole + pad)
    ensures CleanAmount(whole + ['.'] + pad) == Some(DigitsValue(whole + pad))
  {
    var frac := ['.'] + pad;
    TwoDecimalsValue(whole, pad);
    TokenValueOf(whole, frac);
    var s := whole + frac;
    assert whole + ['.'] + pad == s;
    assert s[0] == whole[0];
    CleanAmountAt(s, 0);
    assert s[0..] == s;
  }

  /** The two digits after the point are the fraction, and with the digits before it they make the value in hundredths. */
  lemma TwoDecimalsValue(whole: string, pad: string)
    requires AllDigits(whole) && |pad| == 2 && AllDigits(pad)
    ensures IsFraction(['.'] + pad) && AllDigits(whole + pad)
    ensures DigitsValue(whole + pad) == DigitsValue(whole) * 100 + FracValue(['.'] + pad)
  {
    var frac := ['.'] + pad;
    DigitsValueAppend(whole, pad);
    assert Pow10(|pad|) == 100;
    TwoDigitsValue(pad);
    assert frac[1] == pad[0] && frac[2] == pad[1];
    assert FracLen(frac) == 3;
  }

  /** A rate with two decimals reads back through `cleanAmount` as the rounded quotient in hundredths. */
  lemma ToFixedTwoDigitsReadsBack(a: nat, f: nat)
    requires f > 0
    ensures CleanAmount(ToFixed(a, f, 2)) == Some(RoundedQuotient(a, f, 2))
  {
    FixedPointTwoReadsBack(RoundedQuotient(a, f, 2));
  }

  /** A run of digits and commas ends where a character that is neither starts. */
  lemma TokenValueOfRun(w: string, u: string)
    requires AllAmountChars(w)
    requires u == [] || !IsAmountChar(u[0])
    ensures TokenValue(w + u) == DigitsValue(RemoveCommas(w)) * 100 + FracValue(u)
  {
    RunLenAppend(w, u);
    assert (w + u)[..|w|] == w && (w + u)[|w|..] == u;
  }

  /** Deleting commas works piece by piece. */
  lemma {:induction false} RemoveCommasAppend(a: string, b: string)
    ensures RemoveCommas(a + b) == RemoveCommas(a) + RemoveCommas(b)
    decreases |a|
  {
    if a == [] {
      assert a + b == b;
    } else {
      assert (a + b)[0] == a[0] && (a + b)[1..] == a[1..] + b;
      RemoveCommasAppend(a[1..], b);
    }
  }

  /** Nothing is left of a run of commas. */
  lemma {:induction false} RemoveCommasOnly(w: string)
    requires forall k :: 0 <= k < |w| ==> w[k] == ','
    ensures RemoveCommas(w) == []
    decreases |w|
  {
    if w != [] {
      RemoveCommasOnly(w[1..]);
    }
  }

  /**
   * Text without digits or commas, then a run of digits and commas, then text
   * that does not continue the run: the run is the amount, read with its commas
   * deleted, and what follows it supplies the fraction.
   */
  lemma CleanAmountOfRun(p: string, w: string, u: string)
    requires forall k :: 0 <= k < |p| ==> !IsAmountChar(p[k])
    requires w != [] && AllAmountChars(w)
    requires u == [] || !IsAmountChar(u[0])
    ensures CleanAmount(p + w + u).Some?
    ensures CleanAmount(p + w + u).value == DigitsValue(RemoveCommas(w)) * 100 + FracValue(u)
  {
    var t := w + u;
    var s := p + t;
    assert p + w + u == s;
    assert IsFirstAmountChar(s, |p|) by {
      assert s[|p|] == t[0] == w[0];
      forall k | 0 <= k < |p| ensures !IsAmountChar(s[k]) {
        assert s[k] == p[k];
      }
    }
    assert s[|p|..] == t;
    TokenValueOfRun(w, u);
    CleanAmountAt(s, |p|);
  }

  /** A run of commas alone counts as 0, since the text left after deleting them is empty (`Number("")`). */
  lemma CleanAmountCommaOnly(p: string, w: string, u: string)
    requires forall k :: 0 <= k < |p| ==> !IsAmountChar(p[k])
    requires w != [] && forall k :: 0 <= k < |w| ==> w[k] == ','
    requires u == [] || !IsAmountChar(u[0])
    ensures CleanAmount(p + w + u).Some? && CleanAmount(p + w + u).value == FracValue(u)
  {
    CleanAmountOfRun(p, w, u);
    RemoveCommasOnly(w);
  }

  /** A comma between two texts goes, and the texts lose theirs. */
  lemma RemoveCommasJoin(x: string, y: string)
    ensures RemoveCommas(x + [','] + y) == RemoveCommas(x) + RemoveCommas(y)
  {
    var comma := [','];
    assert RemoveCommas(comma) == [] by {
      assert comma[1..] == [];
    }
    RemoveCommasAppend(x, comma);
    assert RemoveCommas(x + comma) == RemoveCommas(x) + [];
    RemoveCommasAppend(x + comma, y);
  }

  /** Grouping commas between comma-free groups are deleted, leaving the groups' digits. */
  lemma GroupedRunDigits(a: string, b: string, c: string)
    requires ',' !in a && ',' !in b && ',' !in c
    ensures RemoveCommas(a + [','] + b + [','] + c) == a + b + c
  {
    RemoveCommasJoin(a + [','] + b, c);
    RemoveCommasJoin(a, b);
    assert forall k :: 0 <= k < |a| ==> a[k] != ',';
    assert forall k :: 0 <= k < |b| ==> b[k] != ',';
    assert forall k :: 0 <= k < |c| ==> c[k] != ',';
  }

  /**
   * The digits `"123456"` read as 123456. The literals come in as parameters
   * so that the solver does not unfold `DigitsValue` on them.
   */
  lemma GroupedRunValue(a: string, b: string, c: string)
    requires a == "1" && b == "23" && c == "456"
    ensures AllDigits(a + b + c) && DigitsValue(a + b + c) == 123456
  {
    var c0, c1 := c[..1], c[1..];
    assert c0 + c1 == c;
    assert c0[..0] == [] && DigitsValue(c0) == 4;
    TwoDigitsValue(c1);
    DigitsValueAppend(c0, c1);
    assert DigitsValue(c) == 456;
    assert a[..0] == [] && DigitsValue(a) == 1;
    TwoDigitsValue(b);
    DigitsValueAppend(a, b);
    assert DigitsValue(a + b) == 123;
    DigitsValueAppend(a + b, c);
  }

  /** `"1,23,456"` is a run of digits and commas worth 123456. */
  lemma GroupedRun(a: string, b: string, c: string)
    requires a == "1" && b == "23" && c == "456"
    ensures var w := a + "," + b + "," + c;
      w != [] && AllAmountChars(w) && DigitsValue(RemoveCommas(w)) == 123456
  {
    var w := a + "," + b + "," + c;
    assert w == a + [','] + b + [','] + c;
    assert AllAmountChars(w);
    GroupedRunDigits(a, b, c);
    GroupedRunValue(a, b, c);
  }

  /**
   * The example of the statement format: `"1,23,456.50 Cr"` reads as
   * 123456.50 (Indian digit grouping). The pieces of the text are parameters
   * for the same reason as above.
   */
  lemma CleanAmountGroupedExample(a: string, b: string, c: string, rest: string)
    requires a == "1" && b == "23" && c == "456" && rest == ".50 Cr"
    ensures CleanAmount(a + "," + b + "," + c + rest).Some?
    ensures CleanAmount(a + "," + b + "," + c + rest).value == 12345650
  {
    var w := a + "," + b + "," + c;
    GroupedRun(a, b, c);
    FracValueTwoDigits(rest);
    CleanAmountOfRun([], w, rest);
    assert [] + w + rest == w + rest;
  }

  /** A point and two digits are that many hundredths, whatever follows. */
  lemma FracValueTwoDigits(f: string)
    requires |f| >= 3 && f[0] == '.' && IsDigit(f[1]) && IsDigit(f[2])
    ensures FracValue(f) == DigitValue(f[1]) * 10 + DigitValue(f[2])
  {
  }
}
