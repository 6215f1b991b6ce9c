/**
 * `parseOldLine` (app.js:92-137): one line of the older statement layout,
 * `DD/MM/YYYY <description> <amount>[ Cr]`, read under the section header
 * last seen.
 */
module OldLayout {
  import opened Options
  import opened Text
  import opened Amount
  import opened Patterns
  import opened Transactions

  /** The section state of the line loop: `""`, `"domestic"` or `"international"`. */
  datatype Section = NoSection | Domestic | International

  /** The forex columns: the forex step runs only under the international header, with a two-digit rate. */
  function OldForex(description: string, amount: Option<nat>, section: Section): (f: ForexFields)
    ensures section != International ==> f == NoForex(description)
    ensures section == International ==> f == ApplyForex(description, amount, 2)
  {
    if section == International then ApplyForex(description, amount, 2) else NoForex(description)
  }

  /**
   * The row built from the date and the trimmed text after it
   * (app.js:101-136): none unless the text ends in an amount, optionally
   * followed by `Cr` in any case; the description is what precedes the
   * amount, trimmed, and the row is a credit exactly when that `Cr` is there.
   */
  function OldRow(date: string, rest: string, section: Section): (r: Option<Transaction>)
    ensures r.None? <==> forall p: nat :: !OldAmountAt(rest, p)
    ensures r.Some? ==> r.value.date == date && r.value.time == [] && r.value.amount.Some?
    ensures r.Some? ==> (r.value.txnType == Cr <==> FindTrailingAmount(rest).value.credit)
    ensures r.Some? && section != International ==>
      r.value.currency == "INR" && r.value.forexAmount.None? && r.value.forexRate == []
    ensures r.Some? ==>
      var ta := FindTrailingAmount(rest).value;
      && r.value.amount == CleanAmount(ta.amountText)
      && var f := OldForex(Trim(rest[..ta.start]), r.value.amount, section);
      && r.value.description == f.description && r.value.currency == f.currency
      && r.value.forexAmount == f.forexAmount && r.value.forexRate == f.forexRate
  {
    match FindTrailingAmount(rest)
    case None => None
    case Some(ta) =>
      AmountTokenText(rest, ta.start);
      var amount := CleanAmount(ta.amountText);
      var f := OldForex(Trim(rest[..ta.start]), amount, section);
      var txnType := if ta.credit then Cr else Dr;
      Some(Transaction(date, "", f.description, amount, f.currency, f.forexAmount, f.forexRate, txnType))
  }

  /**
   * `parseOldLine(rawLine, section)`: no row for a blank line, a line that
   * does not start with a date and whitespace, or one whose text after the
   * date does not end in an amount; otherwise the row of that date and text.
   */
  function ParseOldLine(line: string, section: Section): (r: Option<Transaction>)
    ensures OldDatePrefix(line).None? ==> r.None?
    ensures OldDatePrefix(line).Some? ==>
      r == OldRow(OldDatePrefix(line).value.date, Trim(OldDatePrefix(line).value.rest), section)
  {
    if Trim(line) == [] then None
    else
      match OldDatePrefix(line)
      case None => None
      case Some(dd) => OldRow(dd.date, Trim(dd.rest), section)
  }

  /** The captured amount text starts with a digit or a comma, so `cleanAmount` reads an amount from it. */
  lemma AmountTokenText(s: string, p: nat)
    requires OldAmountAt(s, p)
    ensures var t := s[p..p + TokenLen(s[p..])]; t != [] && IsAmountChar(t[0])
  {
    assert s[p..p + TokenLen(s[p..])][0] == s[p];
  }

  // ---- a row printed in the old layout reads back as that row ----

  /** What follows the amount of a printed row: `" Cr"` for a credit, nothing for a debit. */
  function CrSuffix(txnType: TxnType): string {
    if txnType == Cr then " Cr" else ""
  }

  /** The text a statement prints after the date: description, forex part, amount and the credit mark. */
  function OldBody(t: Transaction): string
    requires t.amount.Some?
  {
    ForexText(t.description, t.currency, t.forexAmount) + (" " + (ShowDecimal(t.amount.value) + CrSuffix(t.txnType)))
  }

  /** A row printed in the old layout: `DD/MM/YYYY <body>`. */
  function OldLine(t: Transaction): string
    requires t.amount.Some?
  {
    t.date + (" " + OldBody(t))
  }

  /**
   * The columns other than the rate of a row that prints and reads back
   * unchanged under `section`: a date, no time, an amount, a non-empty
   * single-line description, and forex columns only under the international
   * header, as the forex step fills them.
   */
  predicate OldText(t: Transaction, section: Section) {
    && IsDate(t.date) && t.time == [] && t.amount.Some?
    && t.description != [] && IsTrimmed(t.description) && NoLineTerminator(t.description)
    && (section != International ==> t.forexAmount.None? && t.currency == "INR")
    && (section == International && t.forexAmount.None? ==> t.currency == "INR" && ForexStart(t.description).None?)
    && (t.forexAmount.Some? ==> IsCurrencyCode(t.currency))
  }

  /** A printable row: its rate is the one the forex step computes under `section`. */
  predicate OldPrintable(t: Transaction, section: Section) {
    && OldText(t, section)
    && t.forexRate == (if section == International then ForexRate(t.amount, t.forexAmount, 2) else "")
  }

  /** The captured amount text stops before the first whitespace. */
  lemma TokenEndsAtSpace(t: string, j: nat)
    requires j < |t| && IsSpace(t[j])
    ensures TokenLen(t) <= j
  {
    if TokenLen(t) > j {
      TokenChars(t, j);
    }
  }

  /** A `Cr` tail is whitespace and `Cr`: it holds no digit. */
  lemma DigitBreaksCrTail(t: string, j: nat)
    requires j < |t| && IsDigit(t[j])
    ensures !IsCrTail(t)
  {
    var a := SpanSpace(t);
    assert a <= j;
    if IsCrAt(t, a) {
      assert j >= a + 2;
      assert t[a + 2..][j - a - 2] == t[j];
    }
  }

  /**
   * No match of the amount expression starts in the description or the space
   * after it: what it captures there ends before that space, and the digit
   * that follows the space is more than a `Cr` tail can hold.
   */
  lemma NoAmountBefore(d: string, tail: string, p: nat)
    requires tail != [] && IsDigit(tail[0]) && p <= |d|
    ensures !OldAmountAt(d + (" " + tail), p)
  {
    var s := d + (" " + tail);
    assert s[|d|] == ' ' && s[|d| + 1] == tail[0];
    if p < |s| && IsAmountChar(s[p]) {
      assert p < |d|;
      assert s[p..][|d| - p] == s[|d|];
      TokenEndsAtSpace(s[p..], |d| - p);
      var e := p + TokenLen(s[p..]);
      assert s[e..][|d| + 1 - e] == tail[0];
      DigitBreaksCrTail(s[e..], |d| + 1 - e);
    }
  }

  /** The credit mark, or nothing, is a `Cr` tail. */
  lemma CrSuffixIsTail(txnType: TxnType)
    ensures IsCrTail(CrSuffix(txnType))
  {
    var t := CrSuffix(txnType);
    if txnType == Cr {
      assert t[..1] == " ";
      SpanSpaceIs(t, 1);
      assert !IsSpace(t[1]);
    }
  }

  /** The `Cr` group of a printed row takes part exactly for the credit mark. */
  lemma CrSuffixCredit(txnType: TxnType)
    ensures AllSpace(CrSuffix(txnType)) <==> txnType == Dr
  {
    if txnType == Cr {
      assert !IsSpace(CrSuffix(txnType)[1]);
    }
  }

  /** After the space that ends the description, the amount text captured is exactly the amount. */
  lemma TokenAtEnd(d: string, amt: string, txnType: TxnType)
    requires MatchesAmountToken(amt)
    ensures TokenLen((d + (" " + (amt + CrSuffix(txnType))))[|d| + 1..]) == |amt|
  {
    var cr := CrSuffix(txnType);
    var s := d + (" " + (amt + cr));
    var t := amt + cr;
    assert s[|d| + 1..] == t;
    assert t[..|amt|] == amt;
    if txnType == Cr {
      assert t[|amt|] == ' ';
    } else {
      assert t == amt;
    }
    TokenEndUnique(t, |amt|);
  }

  /** After the space that ends the description, the amount expression matches. */
  lemma AmountAtEnd(d: string, amt: string, txnType: TxnType)
    requires MatchesAmountToken(amt)
    ensures OldAmountAt(d + (" " + (amt + CrSuffix(txnType))), |d| + 1)
  {
    var cr := CrSuffix(txnType);
    var s := d + (" " + (amt + cr));
    TokenAtEnd(d, amt, txnType);
    AmountTokenStart(amt);
    BodyParts(d, amt, cr);
    assert s[|d| + 1] == amt[0];
    CrSuffixIsTail(txnType);
  }

  /** The pieces of a body: the description and its space, the amount, the credit mark. */
  lemma BodyParts(d: string, amt: string, cr: string)
    ensures var s := d + (" " + (amt + cr));
      && s[..|d| + 1] == d + " " && s[|d| + 1..|d| + 1 + |amt|] == amt && s[|d| + 1 + |amt|..] == cr
  {
    var s := d + (" " + (amt + cr));
    assert s == (d + " ") + amt + cr;
  }

  /** The leftmost match in a printed body starts at the printed amount. */
  lemma AmountStartOf(d: string, amt: string, txnType: TxnType)
    requires MatchesAmountToken(amt) && IsDigit(amt[0])
    ensures var s := d + (" " + (amt + CrSuffix(txnType)));
      OldAmountStart(s).Some? && OldAmountStart(s).value == |d| + 1
  {
    var cr := CrSuffix(txnType);
    var s := d + (" " + (amt + cr));
    AmountAtEnd(d, amt, txnType);
    forall p: nat | p < |d| + 1 ensures !OldAmountAt(s, p) {
      NoAmountBefore(d, amt + cr, p);
    }
    OldAmountStartIs(s, |d| + 1);
  }

  /** The match the old layout finds in a printed body is the printed amount, and its `Cr` group takes part exactly for a credit. */
  lemma TrailingAmountOf(d: string, amt: string, txnType: TxnType)
    requires MatchesAmountToken(amt) && IsDigit(amt[0])
    ensures var r := FindTrailingAmount(d + (" " + (amt + CrSuffix(txnType))));
      && r.Some? && r.value.start == |d| + 1 && r.value.amountText == amt
      && (r.value.credit <==> txnType == Cr)
  {
    var cr := CrSuffix(txnType);
    var s := d + (" " + (amt + cr));
    BodyMatch(d, amt, txnType);
    TrailingOf(s, |d| + 1, amt, cr);
    CrSuffixCredit(txnType);
  }

  /** In a printed body the leftmost match starts at the amount, whose token is the whole amount, followed by the credit mark. */
  lemma BodyMatch(d: string, amt: string, txnType: TxnType)
    requires MatchesAmountToken(amt) && IsDigit(amt[0])
    ensures var s := d + (" " + (amt + CrSuffix(txnType)));
      && OldAmountStart(s).Some? && OldAmountStart(s).value == |d| + 1
      && |d| + 1 + |amt| <= |s| && TokenLen(s[|d| + 1..]) == |amt|
      && s[|d| + 1..|d| + 1 + |amt|] == amt && s[|d| + 1 + |amt|..] == CrSuffix(txnType)
  {
    AmountStartOf(d, amt, txnType);
    TokenAtEnd(d, amt, txnType);
    BodyParts(d, amt, CrSuffix(txnType));
  }

  /** The leftmost match at `q`, whose amount group is `amt` and after which comes `cr`. */
  lemma TrailingOf(s: string, q: nat, amt: string, cr: string)
    requires OldAmountStart(s).Some? && OldAmountStart(s).value == q
    requires q + |amt| <= |s| && TokenLen(s[q..]) == |amt|
    requires s[q..q + |amt|] == amt && s[q + |amt|..] == cr
    ensures FindTrailingAmount(s).Some? && FindTrailingAmount(s).value.start == q
    ensures FindTrailingAmount(s).value.amountText == amt
    ensures FindTrailingAmount(s).value.credit <==> !AllSpace(cr)
  {
    TrailingAmountAt(s, q, q + |amt|);
  }

  /** The row of a body that is a trimmed description, a space, an amount and the credit mark. */
  lemma OldRowOf(date: string, d: string, amt: string, txnType: TxnType, section: Section)
    requires IsTrimmed(d) && MatchesAmountToken(amt) && IsDigit(amt[0])
    ensures var f := OldForex(d, CleanAmount(amt), section);
      var r := OldRow(date, d + (" " + (amt + CrSuffix(txnType))), section);
      r.Some? && r.value == Transaction(date, "", f.description, CleanAmount(amt), f.currency, f.forexAmount, f.forexRate, txnType)
  {
    var body := d + (" " + (amt + CrSuffix(txnType)));
    TrailingAmountOf(d, amt, txnType);
    BodyParts(d, amt, CrSuffix(txnType));
    TrimSpaceAfter(d);
  }

  /** The row built from a printed body under `section` is the row printed. */
  lemma OldRowOfBody(t: Transaction, section: Section)
    requires OldPrintable(t, section)
    ensures OldRow(t.date, OldBody(t), section) == Some(t)
  {
    var d := ForexText(t.description, t.currency, t.forexAmount);
    ForexTextShape(t.description, t.currency, t.forexAmount);
    var v := t.amount.value;
    var amt := ShowDecimal(v);
    ShowDecimalChars(v);
    ShowDecimalRoundTrip(v);
    TokenLenLongest(amt);
    assert amt[..TokenLen(amt)] == amt;
    OldRowOf(t.date, d, amt, t.txnType, section);
    if section == International {
      ApplyForexText(t.description, t.currency, t.forexAmount, t.amount, 2);
    }
  }

  /** The printed body is trimmed and is what the old layout's date expression leaves as the rest of a line. */
  lemma OldBodyShape(t: Transaction, section: Section)
    requires OldText(t, section)
    ensures IsTrimmed(OldBody(t)) && IsRestOfLine(OldBody(t))
  {
    var d := ForexText(t.description, t.currency, t.forexAmount);
    ForexTextShape(t.description, t.currency, t.forexAmount);
    var amt := ShowDecimal(t.amount.value);
    ShowDecimalChars(t.amount.value);
    var cr := CrSuffix(t.txnType);
    assert OldBody(t) == d + (" " + (amt + cr));
    assert NoLineTerminator(amt) by {
      forall k | 0 <= k < |amt| ensures !IsLineTerminator(amt[k]) {
        assert IsDigit(amt[k]) || amt[k] == '.';
      }
    }
    BodyShape(d, amt, t.txnType);
  }

  /** A description, a space, an amount and the credit mark, each on one line, make a trimmed rest of a line. */
  lemma BodyShape(d: string, amt: string, txnType: TxnType)
    requires d != [] && !IsSpace(d[0]) && NoLineTerminator(d)
    requires amt != [] && !IsSpace(amt[|amt| - 1]) && NoLineTerminator(amt)
    ensures var body := d + (" " + (amt + CrSuffix(txnType)));
      IsTrimmed(body) && IsRestOfLine(body)
  {
    var cr := CrSuffix(txnType);
    var body := d + (" " + (amt + cr));
    assert NoLineTerminator(" ") && NoLineTerminator(cr);
    NoLineTerminatorConcat(amt, cr);
    NoLineTerminatorConcat(" ", amt + cr);
    NoLineTerminatorConcat(d, " " + (amt + cr));
    assert body[0] == d[0];
    if cr == [] {
      assert body[|body| - 1] == amt[|amt| - 1];
    } else {
      assert body[|body| - 1] == 'r';
    }
  }

  /** A line that is a date, a space and a trimmed rest of a line is read as the row of that date and rest. */
  lemma ParseOldLineOf(date: string, body: string, section: Section)
    requires IsDate(date) && IsTrimmed(body) && IsRestOfLine(body)
    ensures ParseOldLine(date + (" " + body), section) == OldRow(date, body, section)
  {
    var line := date + (" " + body);
    OldDatePrefixComplete([], date, " ", body);
    assert [] + (date + (" " + body)) == line;
    assert line[0] == date[0];
    assert !AllSpace(line);
    TrimTrimmed(body);
  }

  /** `parseOldLine` reads a printed row back as that row, under the header it was printed under. */
  lemma ParseOldLineRoundTrip(t: Transaction, section: Section)
    requires OldPrintable(t, section)
    ensures ParseOldLine(OldLine(t), section) == Some(t)
  {
    OldBodyShape(t, section);
    ParseOldLineOf(t.date, OldBody(t), section);
    OldRowOfBody(t, section);
  }
}
