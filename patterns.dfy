/**
 * The regular expressions of the statement parser (app.js:12-15, 94, 100),
 * each written as a structural predicate on strings and a scanner that finds
 * where the expression matches and what its groups capture.
 *
 * None of them carries the `m` flag, so `^` and `$` are the ends of the whole
 * line; an unanchored expression matches at the leftmost index where it can.
 * Every greedy `\s*` or `\s+` below is followed by something that is not
 * whitespace, so the regular-expression engine can never shorten it: the
 * captures are the ones the scanners compute.
 */
module Patterns {
  import opened Options
  import opened Text
  import opened Digits
  import opened Amount

  // ---- DATE_RE and TIME_RE ----

  /** `\d{2}\/\d{2}\/\d{4}` starting at index `k`. */
  predicate IsDateAt(s: string, k: nat) {
    && k + 10 <= |s|
    && IsDigit(s[k]) && IsDigit(s[k + 1]) && s[k + 2] == '/'
    && IsDigit(s[k + 3]) && IsDigit(s[k + 4]) && s[k + 5] == '/'
    && IsDigit(s[k + 6]) && IsDigit(s[k + 7]) && IsDigit(s[k + 8]) && IsDigit(s[k + 9])
  }

  predicate IsDate(d: string) { |d| == 10 && IsDateAt(d, 0) }

  /** `\d{2}:\d{2}` starting at index `k`. */
  predicate IsTimeAt(s: string, k: nat) {
    && k + 5 <= |s|
    && IsDigit(s[k]) && IsDigit(s[k + 1]) && s[k + 2] == ':' && IsDigit(s[k + 3]) && IsDigit(s[k + 4])
  }

  predicate IsTime(t: string) { |t| == 5 && IsTimeAt(t, 0) }

  /** The ten characters of a date found at `k`. */
  lemma DateAtSlice(s: string, k: nat)
    requires IsDateAt(s, k)
    ensures IsDate(s[k..k + 10])
  {
    var d := s[k..k + 10];
    assert d[0] == s[k] && d[1] == s[k + 1] && d[2] == s[k + 2] && d[3] == s[k + 3] && d[4] == s[k + 4];
    assert d[5] == s[k + 5] && d[6] == s[k + 6] && d[7] == s[k + 7] && d[8] == s[k + 8] && d[9] == s[k + 9];
  }

  /** The five characters of a time found at `k`. */
  lemma TimeAtSlice(s: string, k: nat)
    requires IsTimeAt(s, k)
    ensures IsTime(s[k..k + 5])
  {
    var t := s[k..k + 5];
    assert t[0] == s[k] && t[1] == s[k + 1] && t[2] == s[k + 2] && t[3] == s[k + 3] && t[4] == s[k + 4];
  }

  /** `k` is where `DATE_RE` matches: the leftmost date in `s`. */
  predicate IsFirstDateAt(s: string, k: nat) {
    IsDateAt(s, k) && forall j :: 0 <= j < k ==> !IsDateAt(s, j)
  }

  /** `k` is where `TIME_RE` matches: the leftmost time in `s`. */
  predicate IsFirstTimeAt(s: string, k: nat) {
    IsTimeAt(s, k) && forall j :: 0 <= j < k ==> !IsTimeAt(s, j)
  }

  /** `s.match(DATE_RE)`: the index of the match, `None` when there is no date. */
  function FirstDate(s: string): (r: Option<nat>)
    ensures r.None? <==> forall k: nat :: !IsDateAt(s, k)
    ensures r.Some? ==> IsFirstDateAt(s, r.value)
  {
    var p := (k: nat) => IsDateAt(s, k);
    var r := FindFirst(p, 0, |s|);
    assert forall k: nat :: (r.None? || k < r.value) ==> !IsDateAt(s, k) by {
      forall k: nat | r.None? || k < r.value ensures !IsDateAt(s, k) {
        if k < |s| { assert !p(k); }
      }
    }
    r
  }

  /** `s.match(TIME_RE)`: the index of the match, `None` when there is no time. */
  function FirstTime(s: string): (r: Option<nat>)
    ensures r.None? <==> forall k: nat :: !IsTimeAt(s, k)
    ensures r.Some? ==> IsFirstTimeAt(s, r.value)
  {
    var p := (k: nat) => IsTimeAt(s, k);
    var r := FindFirst(p, 0, |s|);
    assert forall k: nat :: (r.None? || k < r.value) ==> !IsTimeAt(s, k) by {
      forall k: nat | r.None? || k < r.value ensures !IsTimeAt(s, k) {
        if k < |s| { assert !p(k); }
      }
    }
    r
  }

  /** A date at the first non-space character is the first date of the line. */
  lemma DateAfterSpaceIsFirst(s: string)
    requires IsDateAt(s, SpanSpace(s))
    ensures IsFirstDateAt(s, SpanSpace(s))
  {
  }

  // ---- DATE_TIME_RE: ^\s*(DATE)\s*\|\s*(TIME)\s*(.*)$ ----

  /** The three groups `DATE_TIME_RE` captures. */
  datatype Stamp = Stamp(date: string, time: string, rest: string)

  /** `(.*)$` after a greedy `\s*`: what is left holds no line terminator and does not start with whitespace. */
  predicate IsRestOfLine(rest: string) {
    NoLineTerminator(rest) && (rest == [] || !IsSpace(rest[0]))
  }

  /** The tail `\s*(TIME)\s*(.*)$` of `DATE_TIME_RE`, matched at the start of `u`. */
  datatype Timed = Timed(time: string, rest: string)

  function TimeAndRest(u: string): (r: Option<Timed>)
    ensures r.Some? ==> IsTime(r.value.time) && IsRestOfLine(r.value.rest)
  {
    var t := AfterSpace(u);
    if !(|t| >= 5 && IsTime(t[..5])) then None
    else
      var rest := AfterSpace(t[5..]);
      if !NoLineTerminator(rest) then None
      else Some(Timed(t[..5], rest))
  }

  /** `line.match(DATE_TIME_RE)`. */
  function DateTimePrefix(line: string): (r: Option<Stamp>)
    ensures r.Some? ==> IsDate(r.value.date) && IsTime(r.value.time) && IsRestOfLine(r.value.rest)
    ensures r.Some? ==> IsFirstDateAt(line, SpanSpace(line)) && r.value.date == line[SpanSpace(line)..][..10]
  {
    var t1 := AfterSpace(line);
    if !(|t1| >= 10 && IsDate(t1[..10])) then None
    else
      var t2 := AfterSpace(t1[10..]);
      if !(t2 != [] && t2[0] == '|') then None
      else
        match TimeAndRest(t2[1..])
        case None => None
        case Some(tr) =>
          assert line[SpanSpace(line)..] == t1;
          DateAfterSpaceIsFirst(line);
          Some(Stamp(t1[..10], tr.time, tr.rest))
  }

  lemma TimeAndRestSound(u: string) returns (p3: string, p4: string)
    requires TimeAndRest(u).Some?
    ensures AllSpace(p3) && AllSpace(p4)
    ensures u == p3 + (TimeAndRest(u).value.time + (p4 + TimeAndRest(u).value.rest))
  {
    var t := AfterSpace(u);
    var tr := Timed(t[..5], AfterSpace(t[5..]));
    assert TimeAndRest(u) == Some(tr);
    p3 := AfterSpaceSplit(u);
    p4 := AfterSpaceSplit(t[5..]);
    assert t == tr.time + t[5..];
  }

  /**
   * What `DATE_TIME_RE` captures reassembles, with the whitespace it skipped,
   * into the line: whitespace, the date, whitespace, `|`, whitespace, the
   * time, whitespace and the rest.
   */
  lemma DateTimePrefixSound(line: string) returns (p1: string, p2: string, p3: string, p4: string)
    requires DateTimePrefix(line).Some?
    ensures AllSpace(p1) && AllSpace(p2) && AllSpace(p3) && AllSpace(p4)
    ensures var st := DateTimePrefix(line).value;
      line == p1 + (st.date + (p2 + (['|'] + (p3 + (st.time + (p4 + st.rest))))))
  {
    var t1 := AfterSpace(line);
    var u := t1[10..];
    var t2 := AfterSpace(u);
    var tr := TimeAndRest(t2[1..]).value;
    var st := Stamp(t1[..10], tr.time, tr.rest);
    assert DateTimePrefix(line) == Some(st);
    p3, p4 := TimeAndRestSound(t2[1..]);
    p1 := AfterSpaceSplit(line);
    p2 := AfterSpaceSplit(u);
    SplitFirst(t2, '|');
    SplitAt(t1, 10);
  }

  lemma TimeAndRestComplete(p3: string, time: string, p4: string, rest: string)
    requires AllSpace(p3) && AllSpace(p4) && IsTime(time) && IsRestOfLine(rest)
    ensures TimeAndRest(p3 + (time + (p4 + rest))) == Some(Timed(time, rest))
  {
    var t := time + (p4 + rest);
    AfterSpacePadded(p3, t);
    assert t[..5] == time && t[5..] == p4 + rest;
    AfterSpacePadded(p4, rest);
  }

  /** Every line of that shape is matched, with exactly those captures. */
  lemma DateTimePrefixComplete(p1: string, date: string, p2: string, p3: string, time: string, p4: string, rest: string)
    requires AllSpace(p1) && AllSpace(p2) && AllSpace(p3) && AllSpace(p4)
    requires IsDate(date) && IsTime(time) && IsRestOfLine(rest)
    ensures DateTimePrefix(p1 + (date + (p2 + (['|'] + (p3 + (time + (p4 + rest))))))) == Some(Stamp(date, time, rest))
  {
    var u := p3 + (time + (p4 + rest));
    var t2 := ['|'] + u;
    var t1 := date + (p2 + t2);
    AfterSpacePadded(p1, t1);
    assert t1[..10] == date && t1[10..] == p2 + t2;
    AfterSpacePadded(p2, t2);
    assert t2[1..] == u;
    TimeAndRestComplete(p3, time, p4, rest);
  }

  // ---- the old layout's date prefix: ^\s*(DATE)\s+(.*)$ ----

  /** The two groups of the old layout's date expression. */
  datatype Dated = Dated(date: string, rest: string)

  function OldDatePrefix(line: string): (r: Option<Dated>)
    ensures r.Some? ==> IsDate(r.value.date) && IsRestOfLine(r.value.rest)
  {
    var t1 := AfterSpace(line);
    if !(|t1| >= 10 && IsDate(t1[..10])) then None
    else
      var rest := AfterSpace(t1[10..]);
      if |rest| == |t1[10..]| || !NoLineTerminator(rest) then None
      else Some(Dated(t1[..10], rest))
  }

  /** What the old layout's date expression captures reassembles into the line: whitespace, the date, whitespace (at least one character) and the rest. */
  lemma OldDatePrefixSound(line: string) returns (p1: string, p2: string)
    requires OldDatePrefix(line).Some?
    ensures AllSpace(p1) && AllSpace(p2) && p2 != []
    ensures var dd := OldDatePrefix(line).value; line == p1 + (dd.date + (p2 + dd.rest))
  {
    var t1 := AfterSpace(line);
    var dd := Dated(t1[..10], AfterSpace(t1[10..]));
    assert OldDatePrefix(line) == Some(dd);
    p1 := AfterSpaceSplit(line);
    p2 := AfterSpaceSplit(t1[10..]);
    assert t1 == dd.date + t1[10..];
  }

  /** Every line of that shape is matched, with exactly those captures. */
  lemma OldDatePrefixComplete(p1: string, date: string, p2: string, rest: string)
    requires AllSpace(p1) && AllSpace(p2) && p2 != []
    requires IsDate(date) && IsRestOfLine(rest)
    ensures OldDatePrefix(p1 + (date + (p2 + rest))) == Some(Dated(date, rest))
  {
    var t1 := date + (p2 + rest);
    AfterSpacePadded(p1, t1);
    assert t1[..10] == date && t1[10..] == p2 + rest;
    AfterSpacePadded(p2, rest);
  }

  // ---- FOREX_RE: \b(?<currency>[A-Z]{3})\b\s+(?<amount>[\d,]+(?:\.\d{1,2})?)\s*$ ----

  /** `\b[A-Z]{3}` at index `i`: three capitals with no word character just before them. */
  predicate IsCodeAt(s: string, i: nat) {
    && i + 3 <= |s|
    && (i == 0 || !IsWordChar(s[i - 1]))
    && IsUpper(s[i]) && IsUpper(s[i + 1]) && IsUpper(s[i + 2])
  }

  /** Where the amount group starts when the match starts at `i`: after the whitespace that follows the code. */
  function ForexAmountStart(s: string, i: nat): (w: nat)
    requires i + 3 <= |s|
    ensures i + 3 <= w <= |s|
  {
    i + 3 + SpanSpace(s[i + 3..])
  }

  /** An amount starts at `w` and only whitespace follows it to the end of `s`. */
  predicate AmountToEndAt(s: string, w: nat) {
    w < |s| && IsAmountChar(s[w]) && AllSpace(s[w + TokenLen(s[w..])..])
  }

  /** `FOREX_RE` matches at index `i`. */
  predicate ForexAt(s: string, i: nat) {
    IsCodeAt(s, i) && i + 3 < |s| && IsSpace(s[i + 3]) && AmountToEndAt(s, ForexAmountStart(s, i))
  }

  /**
   * `FOREX_RE` read as a language, split at `w` (where the amount group
   * starts) and `e` (where it ends): code, whitespace, amount, whitespace.
   * The reference `ForexAt` is proved against.
   */
  ghost predicate ForexRegexSplit(s: string, i: nat, w: nat, e: nat) {
    && IsCodeAt(s, i) && i + 3 < w <= e <= |s| && !IsWordChar(s[i + 3])
    && AllSpace(s[i + 3..w]) && MatchesAmountToken(s[w..e]) && AllSpace(s[e..])
  }

  /** Where `ForexAt` holds, the language admits the split the scanner computes. */
  lemma ForexAtIsRegex(s: string, i: nat)
    requires ForexAt(s, i)
    ensures var w := ForexAmountStart(s, i); ForexRegexSplit(s, i, w, w + TokenLen(s[w..]))
  {
    var w := ForexAmountStart(s, i);
    var t := s[w..];
    var e := w + TokenLen(t);
    TokenLenLongest(t);
    assert t[..TokenLen(t)] == s[w..e];
    var u := s[i + 3..];
    var gap := s[i + 3..w];
    assert AllSpace(gap) by {
      forall k | 0 <= k < |gap| ensures IsSpace(gap[k]) {
        assert gap[k] == u[k];
      }
    }
  }

  /** Every split the language admits is a match at `i`, and it is the split the scanner computes. */
  lemma RegexIsForexAt(s: string, i: nat, w: nat, e: nat)
    requires ForexRegexSplit(s, i, w, e)
    ensures ForexAt(s, i) && w == ForexAmountStart(s, i) && e == w + TokenLen(s[w..])
  {
    AmountTokenStart(s[w..e]);
    assert s[w..e][0] == s[w];
    var u := s[i + 3..];
    assert u[..w - (i + 3)] == s[i + 3..w];
    assert u[w - (i + 3)] == s[w];
    SpanSpaceIs(u, w - (i + 3));
    assert s[i + 3] == s[i + 3..w][0];
    var t := s[w..];
    assert t[..e - w] == s[w..e];
    assert e < |s| ==> t[e - w] == s[e] == s[e..][0];
    TokenEndUnique(t, e - w);
  }

  /** No match can start after another one: a match runs to the end of the text and holds no capital after its code. */
  lemma ForexAtBefore(s: string, i: nat, j: nat)
    requires ForexAt(s, i) && i < j
    ensures !ForexAt(s, j)
  {
    var w := ForexAmountStart(s, i);
    var t := s[w..];
    var e := w + TokenLen(t);
    if j < |s| {
      if j < i + 3 {
        assert IsWordChar(s[j - 1]);
      } else if j < w {
        assert s[i + 3..][j - (i + 3)] == s[j];
        assert !IsUpper(s[j]);
      } else if j < e {
        TokenChars(t, j - w);
        assert !IsUpper(s[j]);
      } else {
        assert s[e..][j - e] == s[j];
        assert !IsUpper(s[j]);
      }
    }
  }

  /** `FOREX_RE` matches at one index at most. */
  lemma ForexAtUnique(s: string, i: nat, j: nat)
    ensures ForexAt(s, i) && ForexAt(s, j) ==> i == j
  {
    if ForexAt(s, i) && i < j {
      ForexAtBefore(s, i, j);
    }
    if ForexAt(s, j) && j < i {
      ForexAtBefore(s, j, i);
    }
  }

  /** The index at which `FOREX_RE` matches, if any; being unique, it is also the leftmost. */
  function ForexStart(s: string): (r: Option<nat>)
    ensures r.None? <==> forall i: nat :: !ForexAt(s, i)
    ensures r.Some? ==> ForexAt(s, r.value)
  {
    var p := (i: nat) => ForexAt(s, i);
    var r := FindFirst(p, 0, |s|);
    assert r.None? ==> forall i: nat :: !ForexAt(s, i) by {
      forall i: nat | r.None? ensures !ForexAt(s, i) {
        if i < |s| { assert !p(i); }
      }
    }
    r
  }

  /** The `currency` group of the match at `i`. */
  function ForexCurrency(s: string, i: nat): (c: string)
    requires ForexAt(s, i)
    ensures |c| == 3 && IsUpper(c[0]) && IsUpper(c[1]) && IsUpper(c[2])
  {
    s[i..i + 3]
  }

  /** The `amount` group of the match at `i`: a text in the amount language, which `cleanAmount` reads in full. */
  function ForexAmountText(s: string, i: nat): (t: string)
    requires ForexAt(s, i)
    ensures MatchesAmountToken(t) && TokenLen(t) == |t|
  {
    var w := ForexAmountStart(s, i);
    var e := w + TokenLen(s[w..]);
    ForexAtIsRegex(s, i);
    TokenLenOfToken(s[w..e]);
    s[w..e]
  }

  /** The pieces of a text ending in a code, whitespace, an amount and whitespace form a split of the language. */
  lemma ForexSplitOf(pre: string, code: string, ws: string, amt: string, tail: string)
    requires pre == [] || !IsWordChar(pre[|pre| - 1])
    requires |code| == 3 && IsUpper(code[0]) && IsUpper(code[1]) && IsUpper(code[2])
    requires ws != [] && AllSpace(ws) && AllSpace(tail)
    requires MatchesAmountToken(amt)
    ensures var s := pre + (code + (ws + (amt + tail)));
      var w := |pre| + 3 + |ws|;
      && ForexRegexSplit(s, |pre|, w, w + |amt|)
      && s[|pre|..|pre| + 3] == code && s[w..w + |amt|] == amt
  {
    var s := pre + (code + (ws + (amt + tail)));
    var i := |pre|;
    var w := i + 3 + |ws|;
    var e := w + |amt|;
    assert s[i..i + 3] == code;
    assert s[i + 3..w] == ws;
    assert s[w..e] == amt;
    assert s[e..] == tail;
    assert i > 0 ==> s[i - 1] == pre[|pre| - 1];
    assert s[i + 3] == ws[0];
  }

  /**
   * A text ending in a word-bounded three-capital code, whitespace, an amount
   * and optional whitespace is matched there, with the code and the amount as
   * its groups.
   */
  lemma ForexStartOf(pre: string, code: string, ws: string, amt: string, tail: string)
    requires pre == [] || !IsWordChar(pre[|pre| - 1])
    requires |code| == 3 && IsUpper(code[0]) && IsUpper(code[1]) && IsUpper(code[2])
    requires ws != [] && AllSpace(ws) && AllSpace(tail)
    requires MatchesAmountToken(amt)
    ensures var s := pre + (code + (ws + (amt + tail)));
      && ForexStart(s).Some? && ForexStart(s).value == |pre|
      && ForexCurrency(s, |pre|) == code
      && ForexAmountText(s, |pre|) == amt
  {
    var s := pre + (code + (ws + (amt + tail)));
    var w := |pre| + 3 + |ws|;
    ForexSplitOf(pre, code, ws, amt, tail);
    ForexMatchOf(s, |pre|, w, w + |amt|);
  }

  /** A split of the language at `i` is the first match, and its groups are the code and the amount of the split. */
  lemma ForexMatchOf(s: string, i: nat, w: nat, e: nat)
    requires ForexRegexSplit(s, i, w, e)
    ensures ForexAt(s, i) && ForexStart(s).Some? && ForexStart(s).value == i
    ensures ForexCurrency(s, i) == s[i..i + 3] && ForexAmountText(s, i) == s[w..e]
  {
    RegexIsForexAt(s, i, w, e);
    ForexStartIs(s, i);
  }

  /** A match at `i` is the first one. */
  lemma ForexStartIs(s: string, i: nat)
    requires ForexAt(s, i)
    ensures ForexStart(s).Some? && ForexStart(s).value == i
  {
    ForexAtUnique(s, i, ForexStart(s).value);
  }

  // ---- the old layout's amount: /([\d,]+(?:\.\d{1,2})?)\s*(Cr)?\s*$/i ----

  /** `Cr` under the `i` flag, at index `k`. */
  predicate IsCrAt(t: string, k: nat) {
    k + 2 <= |t| && LowerAscii(t[k]) == 'c' && LowerAscii(t[k + 1]) == 'r'
  }

  /** `\s*(Cr)?\s*$` matches all of `t`. */
  predicate IsCrTail(t: string) {
    var a := SpanSpace(t);
    a == |t| || (IsCrAt(t, a) && AllSpace(t[a + 2..]))
  }

  /** The same tail as a language, split at `a` and `b` around the optional `Cr`. */
  ghost predicate CrTailSplit(t: string, a: nat, b: nat) {
    && a <= b <= |t| && AllSpace(t[..a]) && AllSpace(t[b..])
    && (b == a || (b == a + 2 && IsCrAt(t, a)))
  }

  lemma IsCrTailIsRegex(t: string)
    requires IsCrTail(t)
    ensures var a := SpanSpace(t); CrTailSplit(t, a, if a == |t| then a else a + 2)
  {
  }

  /** A tail in the language is matched, and its `Cr` group took part exactly when the tail is not all whitespace. */
  lemma RegexIsCrTail(t: string, a: nat, b: nat)
    requires CrTailSplit(t, a, b)
    ensures IsCrTail(t) && (b > a <==> !AllSpace(t))
  {
    if b == a {
      assert AllSpace(t) by {
        forall k | 0 <= k < |t| ensures IsSpace(t[k]) {
          if k < a { assert t[..a][k] == t[k]; } else { assert t[b..][k - b] == t[k]; }
        }
      }
      SpanSpaceIs(t, |t|);
    } else {
      SpanSpaceIs(t, a);
    }
  }

  /** The amount pattern matches at `p` and runs, through its tail, to the end of `s`. */
  predicate OldAmountAt(s: string, p: nat) {
    p < |s| && IsAmountChar(s[p]) && IsCrTail(s[p + TokenLen(s[p..])..])
  }

  /** The same match as a language, split where the amount group ends (`e`) and around the `Cr` group. */
  ghost predicate OldAmountSplit(s: string, p: nat, e: nat, a: nat, b: nat) {
    p < e <= |s| && MatchesAmountToken(s[p..e]) && CrTailSplit(s[e..], a, b)
  }

  lemma OldAmountAtIsRegex(s: string, p: nat)
    requires OldAmountAt(s, p)
    ensures var e := p + TokenLen(s[p..]); var a := SpanSpace(s[e..]);
      OldAmountSplit(s, p, e, a, if a == |s| - e then a else a + 2)
  {
    var t := s[p..];
    var e := p + TokenLen(t);
    TokenMatches(t);
    assert t[..TokenLen(t)] == s[p..e];
    IsCrTailIsRegex(s[e..]);
  }

  /** Every split the language admits is the match at `p`, its amount group the one the scanner computes. */
  lemma RegexIsOldAmountAt(s: string, p: nat, e: nat, a: nat, b: nat)
    requires OldAmountSplit(s, p, e, a, b)
    ensures OldAmountAt(s, p) && e == p + TokenLen(s[p..])
    ensures b > a <==> !AllSpace(s[e..])
  {
    RegexAmountEnd(s, p, e, a, b);
    var tail := s[e..];
    RegexIsCrTail(tail, a, b);
    OldAmountAtOf(s, p, e);
  }

  lemma OldAmountAtOf(s: string, p: nat, e: nat)
    requires p < |s| && IsAmountChar(s[p]) && e == p + TokenLen(s[p..]) && IsCrTail(s[e..])
    ensures OldAmountAt(s, p)
  {
  }

  /** In a split the language admits, the amount group starts with a digit or comma and ends where the scanner's does. */
  lemma RegexAmountEnd(s: string, p: nat, e: nat, a: nat, b: nat)
    requires OldAmountSplit(s, p, e, a, b)
    ensures p < |s| && IsAmountChar(s[p]) && e == p + TokenLen(s[p..])
  {
    AmountTokenStart(s[p..e]);
    assert s[p..e][0] == s[p];
    var t := s[p..];
    assert t[..e - p] == s[p..e];
    var tail := s[e..];
    if e < |s| {
      assert t[e - p] == tail[0];
      CrTailStart(tail, a, b);
    }
    TokenEndUnique(t, e - p);
  }

  /** A non-empty tail in the language starts with whitespace or the `C` of `Cr`. */
  lemma CrTailStart(t: string, a: nat, b: nat)
    requires CrTailSplit(t, a, b) && t != []
    ensures IsSpace(t[0]) || LowerAscii(t[0]) == 'c'
  {
    if a > 0 {
      assert t[..a][0] == t[0];
    } else if b == 0 {
      assert t[b..][0] == t[0];
    }
  }

  /** Where the old layout's amount expression matches, what it captures, and whether its `Cr` group took part. */
  datatype TrailingAmount = TrailingAmount(start: nat, amountText: string, credit: bool)

  /** The index at which the old layout's amount expression matches: the leftmost one. */
  function OldAmountStart(s: string): (r: Option<nat>)
    ensures r.None? <==> forall p: nat :: !OldAmountAt(s, p)
    ensures r.Some? ==> OldAmountAt(s, r.value) && forall p: nat :: p < r.value ==> !OldAmountAt(s, p)
  {
    var q := (p: nat) => OldAmountAt(s, p);
    var r := FindFirst(q, 0, |s|);
    assert forall p: nat :: (r.None? || p < r.value) ==> !OldAmountAt(s, p) by {
      forall p: nat | r.None? || p < r.value ensures !OldAmountAt(s, p) {
        if p < |s| { assert !q(p); }
      }
    }
    r
  }

  /** `rest.match(/([\d,]+(?:\.\d{1,2})?)\s*(Cr)?\s*$/i)` */
  function FindTrailingAmount(s: string): (r: Option<TrailingAmount>)
    ensures r.None? <==> OldAmountStart(s).None?
    ensures r.Some? ==> r.value.start == OldAmountStart(s).value
    ensures r.Some? ==>
      var e := r.value.start + TokenLen(s[r.value.start..]);
      && r.value.amountText == s[r.value.start..e]
      && (r.value.credit <==> !AllSpace(s[e..]))
  {
    match OldAmountStart(s)
    case None => None
    case Some(p) =>
      var e := p + TokenLen(s[p..]);
      var tail := s[e..];
      Some(TrailingAmount(p, s[p..e], SpanSpace(tail) < |tail|))
  }

  /** Where the leftmost match starts, the scanner reports that match: its amount group and whether its `Cr` group took part. */
  lemma TrailingAmountAt(s: string, q: nat, e: nat)
    requires OldAmountStart(s).Some? && OldAmountStart(s).value == q && e == q + TokenLen(s[q..])
    ensures FindTrailingAmount(s).Some? && FindTrailingAmount(s).value.start == q
    ensures FindTrailingAmount(s).value.amountText == s[q..e]
    ensures FindTrailingAmount(s).value.credit <==> !AllSpace(s[e..])
  {
    var r := FindTrailingAmount(s);
    assert r.Some? && r.value.start == q;
    assert e == r.value.start + TokenLen(s[r.value.start..]);
  }

  /** The leftmost index at which the amount expression matches is the one `OldAmountStart` finds. */
  lemma OldAmountStartIs(s: string, q: nat)
    requires OldAmountAt(s, q) && forall p: nat :: p < q ==> !OldAmountAt(s, p)
    ensures OldAmountStart(s) == Some(q)
  {
    var m := (p: nat) => OldAmountAt(s, p);
    assert m(q);
    assert forall k :: 0 <= k < q ==> !m(k);
    FindFirstIs(m, 0, |s|, q);
  }
}
