/**
 * `parseNewLine` (app.js:25-90): one line of the newer statement layout,
 * `DD/MM/YYYY | HH:MM <description> [+ ]C <amount>`, turned into at most one
 * transaction.
 */
module NewLayout {
  import opened Options
  import opened Text
  import opened Amount
  import opened Patterns
  import opened Transactions

  /** The description, the amount text and the type the credit/debit markers give. */
  datatype Split = Split(description: string, amountText: string, txnType: TxnType)

  /**
   * The split at the markers (app.js:43-56): after the last `"+ C"` for a
   * credit; otherwise after the last `" C"` for a debit; with neither marker
   * the whole text is the description (not trimmed again), the amount text is
   * empty and the type stays debit.
   */
  function SplitMarker(rest: string): (sp: Split)
    ensures sp.txnType == Cr <==> exists k: nat :: OccursAt(rest, k, "+ C")
    ensures IsTrimmed(sp.amountText)
    ensures (forall k: nat :: !OccursAt(rest, k, "+ C") && !OccursAt(rest, k, " C")) ==> sp == Split(rest, "", Dr)
    ensures sp.description != rest ==> IsTrimmed(sp.description) && |sp.description| < |rest|
  {
    match LastIndexOf(rest, "+ C")
    case Some(i) => Split(Trim(rest[..i]), Trim(rest[i + 3..]), Cr)
    case None =>
      match LastIndexOf(rest, " C")
      case Some(i) => Split(Trim(rest[..i]), Trim(rest[i + 2..]), Dr)
      case None => Split(rest, "", Dr)
  }

  /**
   * The fallback when `DATE_TIME_RE` does not match (app.js:35-40): the first
   * date anywhere, the trimmed text after it, and the first time anywhere in
   * the line (even before the date), or `""`.
   */
  function FallbackStamp(line: string): (r: Option<Stamp>)
    ensures r.None? <==> forall k: nat :: !IsDateAt(line, k)
    ensures r.Some? ==> IsDate(r.value.date) && (r.value.time == [] || IsTime(r.value.time))
    ensures forall k: nat :: IsFirstDateAt(line, k) && r.Some? ==> r.value.date == line[k..k + 10]
    ensures forall k: nat :: IsFirstDateAt(line, k) && r.Some? ==>
      r.value.time == FirstTimeText(line) && r.value.rest == Trim(line[k + 10..])
  {
    match FirstDate(line)
    case None => None
    case Some(k) =>
      FirstDateUnique(line, k);
      DateAtSlice(line, k);
      Some(Stamp(line[k..k + 10], FirstTimeText(line), Trim(line[k + 10..])))
  }

  /** The first time anywhere in the line, or `""`. */
  function FirstTimeText(line: string): (time: string)
    ensures time == [] || IsTime(time)
    ensures time == [] <==> forall k: nat :: !IsTimeAt(line, k)
    ensures forall k: nat :: IsFirstTimeAt(line, k) ==> time == line[k..k + 5]
  {
    match FirstTime(line)
    case Some(t) =>
      TimeAtSlice(line, t);
      line[t..t + 5]
    case None => ""
  }

  /** The date, the time and the rest of the line (app.js:31-41). */
  function NewStamp(line: string): (r: Option<Stamp>)
    ensures r.None? <==> forall k: nat :: !IsDateAt(line, k)
    ensures r.Some? ==> IsDate(r.value.date) && (r.value.time == [] || IsTime(r.value.time))
    ensures forall k: nat :: IsFirstDateAt(line, k) && r.Some? ==> r.value.date == line[k..k + 10]
  {
    match DateTimePrefix(line)
    case Some(st) =>
      PrefixStampDate(line, SpanSpace(line), st.date);
      Some(st)
    case None => FallbackStamp(line)
  }

  /** The date `DATE_TIME_RE` captures is the first date of the line. */
  lemma PrefixStampDate(line: string, a: nat, date: string)
    requires IsFirstDateAt(line, a) && date == line[a..][..10]
    ensures forall k: nat :: IsFirstDateAt(line, k) ==> date == line[k..k + 10]
  {
    FirstDateUnique(line, a);
    assert line[a..][..10] == line[a..a + 10];
  }

  /** There is one leftmost date. */
  lemma FirstDateUnique(line: string, k: nat)
    requires IsFirstDateAt(line, k)
    ensures forall j: nat :: IsFirstDateAt(line, j) ==> j == k
  {
  }

  /** The row built from the date, the time and the rest (app.js:43-89). */
  function NewRow(st: Stamp): (t: Transaction)
    ensures t.date == st.date && t.time == st.time
    ensures t.txnType == Cr <==> exists k: nat :: OccursAt(st.rest, k, "+ C")
    ensures t.forexAmount.None? ==> t.currency == "INR" && t.forexRate == []
    ensures t.forexRate != [] ==> t.amount.Some? && t.forexAmount.Some?
    ensures t.amount == CleanAmount(SplitMarker(st.rest).amountText)
    ensures var f := ApplyForex(SplitMarker(st.rest).description, t.amount, 4);
      t.description == f.description && t.currency == f.currency && t.forexAmount == f.forexAmount && t.forexRate == f.forexRate
  {
    var sp := SplitMarker(st.rest);
    var amount := CleanAmount(sp.amountText);
    var f := ApplyForex(sp.description, amount, 4);
    Transaction(st.date, st.time, f.description, amount, f.currency, f.forexAmount, f.forexRate, sp.txnType)
  }

  /**
   * `parseNewLine(rawLine)`: no row for a blank line or a line without a
   * date; otherwise exactly one, dated with the first date of the line.
   */
  function ParseNewLine(line: string): (r: Option<Transaction>)
    ensures r.None? <==> AllSpace(line) || forall k: nat :: !IsDateAt(line, k)
    ensures r.Some? ==> IsDate(r.value.date) && (r.value.time == [] || IsTime(r.value.time))
    ensures forall k: nat :: IsFirstDateAt(line, k) && r.Some? ==> r.value.date == line[k..k + 10]
  {
    if Trim(line) == [] then None
    else
      match NewStamp(line)
      case None => None
      case Some(st) => Some(NewRow(st))
  }
  // ---- a row printed in the new layout reads back as that row ----

  /** The text a statement prints after the time: description, forex part, the marker of the type, the amount. */
  function NewBody(t: Transaction): string
    requires t.amount.Some?
  {
    ForexText(t.description, t.currency, t.forexAmount)
      + ((if t.txnType == Cr then " + C " else " C ") + ShowDecimal(t.amount.value))
  }

  /** A row printed in the new layout: `DD/MM/YYYY | HH:MM <body>`. */
  function NewLine(t: Transaction): string
    requires t.amount.Some?
  {
    t.date + (" " + (['|'] + (" " + (t.time + (" " + NewBody(t))))))
  }

  /**
   * The rows that print and read back unchanged: a date, a time, an amount, a
   * non-empty single-line description (with no `+` on a debit, which could
   * read as a credit marker), and forex columns as the forex step fills them.
   */
  predicate NewPrintable(t: Transaction) {
    NewText(t) && t.forexRate == ForexRate(t.amount, t.forexAmount, 4)
  }

  /** The columns of a printable row other than the rate. */
  predicate NewText(t: Transaction) {
    && IsDate(t.date) && IsTime(t.time) && t.amount.Some?
    && t.description != [] && IsTrimmed(t.description) && NoLineTerminator(t.description)
    && (t.txnType == Dr ==> '+' !in t.description)
    && (t.forexAmount.None? ==> t.currency == "INR" && ForexStart(t.description).None?)
    && (t.forexAmount.Some? ==> IsCurrencyCode(t.currency))
  }

  /** In a credit's body the marker the amount follows is the last `"+ C"`. */
  lemma CreditMarkerLast(d: string, amt: string)
    requires IsDecimalText(amt)
    ensures LastIndexOf(d + (" + C " + amt), "+ C").Some? && LastIndexOf(d + (" + C " + amt), "+ C").value == |d| + 1
  {
    var rest := d + (" + C " + amt);
    var i := |d| + 1;
    assert rest[i..i + 3] == "+ C";
    forall k: nat | k > i ensures !OccursAt(rest, k, "+ C") {
      if k + 3 <= |rest| {
        assert rest[k..k + 3][0] == rest[k];
        if k >= i + 4 {
          assert rest[k] == amt[k - i - 4];
        }
      }
    }
    LastIndexOfIs(rest, "+ C", i);
  }

  /** A credit: the last `"+ C"` is the marker, the amount after it and the description before it. */
  lemma SplitMarkerCredit(d: string, amt: string)
    requires IsTrimmed(d) && IsDecimalText(amt)
    ensures SplitMarker(d + (" + C " + amt)) == Split(d, amt, Cr)
  {
    var rest := d + (" + C " + amt);
    CreditMarkerLast(d, amt);
    CreditParts(d, amt);
    assert IsTrimmed(amt) by {
      assert IsDigit(amt[0]) && IsDigit(amt[|amt| - 1]);
    }
    SplitCreditOf(rest, |d| + 1, d, amt);
  }

  /** The split at a last `"+ C"` that has a trimmed text and a space before it, and a space and a trimmed text after it. */
  lemma SplitCreditOf(rest: string, i: nat, d: string, amt: string)
    requires LastIndexOf(rest, "+ C").Some? && LastIndexOf(rest, "+ C").value == i
    requires i + 3 <= |rest| && rest[..i] == d + " " && rest[i + 3..] == " " + amt
    requires IsTrimmed(d) && IsTrimmed(amt)
    ensures SplitMarker(rest) == Split(d, amt, Cr)
  {
    SplitAtCredit(rest, i);
    TrimSpaceAfter(d);
    TrimSpaceBefore(amt);
  }

  /** The text on either side of the `"+ C"` of a credit's body. */
  lemma CreditParts(d: string, amt: string)
    ensures var rest := d + (" + C " + amt);
      rest[..|d| + 1] == d + " " && rest[|d| + 4..] == " " + amt
  {
    var rest := d + (" + C " + amt);
    var before := rest[..|d| + 1];
    forall k | 0 <= k < |before| ensures before[k] == (d + " ")[k] {
      if k == |d| {
        assert before[k] == " + C "[0];
      }
    }
    var after := rest[|d| + 4..];
    forall k | 0 <= k < |after| ensures after[k] == (" " + amt)[k] {
      if k == 0 {
        assert after[k] == " + C "[4];
      } else {
        assert after[k] == amt[k - 1];
      }
    }
  }

  /** With a `"+ C"`, the split is at the last one. */
  lemma SplitAtCredit(rest: string, i: nat)
    requires LastIndexOf(rest, "+ C").Some? && LastIndexOf(rest, "+ C").value == i
    ensures SplitMarker(rest) == Split(Trim(rest[..i]), Trim(rest[i + 3..]), Cr)
  {
    var sp := Split(Trim(rest[..i]), Trim(rest[i + 3..]), Cr);
    assert SplitMarker(rest) == sp by {
      assert i + 3 <= |rest|;
    }
  }

  /** No `"+ C"` in a debit's body: neither the description nor the rest has a `+`. */
  lemma NoCreditMarker(d: string, amt: string)
    requires '+' !in d && IsDecimalText(amt)
    ensures LastIndexOf(d + (" C " + amt), "+ C").None?
  {
    var rest := d + (" C " + amt);
    forall k: nat ensures !OccursAt(rest, k, "+ C") {
      if k + 3 <= |rest| {
        assert rest[k..k + 3][0] == rest[k];
        if k < |d| {
          assert rest[k] == d[k];
        } else if k >= |d| + 3 {
          assert rest[k] == amt[k - |d| - 3];
        }
      }
    }
    LastIndexOfNone(rest, "+ C");
  }

  /** In a debit's body the marker the amount follows is the last `" C"`. */
  lemma DebitMarkerLast(d: string, amt: string)
    requires IsDecimalText(amt)
    ensures LastIndexOf(d + (" C " + amt), " C").Some? && LastIndexOf(d + (" C " + amt), " C").value == |d|
  {
    var rest := d + (" C " + amt);
    var i := |d|;
    assert rest[i..i + 2] == " C";
    forall k: nat | k > i ensures !OccursAt(rest, k, " C") {
      if k + 2 <= |rest| {
        assert rest[k..k + 2][1] == rest[k + 1];
        if k >= i + 2 {
          assert rest[k + 1] == amt[k + 1 - i - 3];
        }
      }
    }
    LastIndexOfIs(rest, " C", i);
  }

  /** With no `"+ C"`, the split is at the last `" C"`. */
  lemma SplitAtDebit(rest: string, i: nat)
    requires LastIndexOf(rest, "+ C").None? && LastIndexOf(rest, " C").Some? && LastIndexOf(rest, " C").value == i
    ensures SplitMarker(rest) == Split(Trim(rest[..i]), Trim(rest[i + 2..]), Dr)
  {
    var sp := Split(Trim(rest[..i]), Trim(rest[i + 2..]), Dr);
    assert SplitMarker(rest) == sp by {
      assert i + 2 <= |rest|;
    }
  }

  /** A debit: there is no `"+ C"`, the last `" C"` is the marker. */
  lemma SplitMarkerDebit(d: string, amt: string)
    requires IsTrimmed(d) && '+' !in d && IsDecimalText(amt)
    ensures SplitMarker(d + (" C " + amt)) == Split(d, amt, Dr)
  {
    var rest := d + (" C " + amt);
    NoCreditMarker(d, amt);
    DebitMarkerLast(d, amt);
    DebitParts(d, amt);
    assert IsTrimmed(amt) by {
      assert IsDigit(amt[0]) && IsDigit(amt[|amt| - 1]);
    }
    SplitDebitOf(rest, |d|, d, amt);
  }

  /** The text on either side of the `" C"` of a debit's body. */
  lemma DebitParts(d: string, amt: string)
    ensures var rest := d + (" C " + amt);
      rest[..|d|] == d && rest[|d| + 2..] == " " + amt
  {
    var rest := d + (" C " + amt);
    var after := rest[|d| + 2..];
    forall k | 0 <= k < |after| ensures after[k] == (" " + amt)[k] {
      if k == 0 {
        assert after[k] == " C "[2];
      } else {
        assert after[k] == amt[k - 1];
      }
    }
  }

  /** The split at a last `" C"`, with no `"+ C"`, that has a trimmed text before it and a space and a trimmed text after it. */
  lemma SplitDebitOf(rest: string, i: nat, d: string, amt: string)
    requires LastIndexOf(rest, "+ C").None?
    requires LastIndexOf(rest, " C").Some? && LastIndexOf(rest, " C").value == i
    requires i + 2 <= |rest| && rest[..i] == d && rest[i + 2..] == " " + amt
    requires IsTrimmed(d) && IsTrimmed(amt)
    ensures SplitMarker(rest) == Split(d, amt, Dr)
  {
    SplitAtDebit(rest, i);
    TrimTrimmed(d);
    TrimSpaceBefore(amt);
  }

  /** The row built from the printed body is the row printed. */
  lemma NewRowOfBody(t: Transaction)
    requires NewPrintable(t)
    ensures NewRow(Stamp(t.date, t.time, NewBody(t))) == t
  {
    var d := ForexText(t.description, t.currency, t.forexAmount);
    ForexTextShape(t.description, t.currency, t.forexAmount);
    var v := t.amount.value;
    ShowDecimalChars(v);
    if t.txnType == Cr {
      SplitMarkerCredit(d, ShowDecimal(v));
    } else {
      SplitMarkerDebit(d, ShowDecimal(v));
    }
    ShowDecimalRoundTrip(v);
    ApplyForexText(t.description, t.currency, t.forexAmount, t.amount, 4);
  }

  /** The printed body is what `DATE_TIME_RE` leaves as the rest of a line. */
  lemma NewBodyIsRest(t: Transaction)
    requires NewText(t)
    ensures IsRestOfLine(NewBody(t))
  {
    ForexTextShape(t.description, t.currency, t.forexAmount);
    var amt := ShowDecimal(t.amount.value);
    ShowDecimalChars(t.amount.value);
    var d := ForexText(t.description, t.currency, t.forexAmount);
    var marker := if t.txnType == Cr then " + C " else " C ";
    MarkersSingleLine();
    assert NoLineTerminator(amt);
    NoLineTerminatorConcat(marker, amt);
    NoLineTerminatorConcat(d, marker + amt);
    assert NewBody(t) == d + (marker + amt);
    assert NewBody(t)[0] == d[0];
  }

  lemma MarkersSingleLine()
    ensures NoLineTerminator(" + C ") && NoLineTerminator(" C ")
  {
  }

  /** The date and time of a printed row are found where it was printed. */
  lemma NewStampOfLine(t: Transaction)
    requires NewText(t)
    ensures NewStamp(NewLine(t)) == Some(Stamp(t.date, t.time, NewBody(t)))
  {
    var body := NewBody(t);
    NewBodyIsRest(t);
    DateTimePrefixComplete([], t.date, " ", " ", t.time, " ", body);
    assert [] + (t.date + (" " + (['|'] + (" " + (t.time + (" " + body)))))) == NewLine(t);
  }

  /** `parseNewLine` reads a printed row back as that row. */
  lemma ParseNewLineRoundTrip(t: Transaction)
    requires NewPrintable(t)
    ensures ParseNewLine(NewLine(t)) == Some(t)
  {
    var line := NewLine(t);
    assert line[0] == t.date[0];
    assert !AllSpace(line);
    NewStampOfLine(t);
    NewRowOfBody(t);
  }
}
