/**
 * The row both statement layouts produce (app.js:78-89, 125-136) and the
 * forex step they share: `FOREX_RE` applied to the description, the forex
 * columns it fills and the rate computed from the two amounts.
 */
module Transactions {
  import opened Options
  import opened Text
  import opened Digits
  import opened Amount
  import opened Patterns

  /** The `type` column. */
  datatype TxnType = Cr | Dr

  /**
   * One parsed transaction. `amount` and `forexAmount` are in hundredths and
   * are `None` where the row holds `""` because no amount could be read.
   */
  datatype Transaction = Transaction(
    date: string,
    time: string,
    description: string,
    amount: Option<nat>,
    currency: string,
    forexAmount: Option<nat>,
    forexRate: string,
    txnType: TxnType)

  /** The description and the three forex columns, as they stand after the forex step. */
  datatype ForexFields = ForexFields(description: string, currency: string, forexAmount: Option<nat>, forexRate: string)

  /** The columns of a row that carries no foreign-currency part. */
  function NoForex(description: string): (f: ForexFields)
    ensures f.description == description && f.currency == "INR" && f.forexAmount.None? && f.forexRate == []
  {
    ForexFields(description, "INR", None, "")
  }

  /**
   * The `forex_rate` column: `(amount / forexAmount).toFixed(digits)` when both
   * amounts were read and neither is zero (both are tested for truthiness),
   * and `""` otherwise.
   */
  function ForexRate(amount: Option<nat>, forexAmount: Option<nat>, digits: nat): (rate: string)
    requires digits > 0
    ensures rate != [] <==> amount.Some? && forexAmount.Some? && amount.value != 0 && forexAmount.value != 0
    ensures rate != [] ==> IsFixedOf(rate, RoundedQuotient(amount.value, forexAmount.value, digits), digits)
  {
    if amount.Some? && forexAmount.Some? && amount.value != 0 && forexAmount.value != 0 then
      ToFixed(amount.value, forexAmount.value, digits)
    else ""
  }

  /**
   * The forex step (app.js:59-76 and 112-123): where `FOREX_RE` matches the
   * description, its code becomes the currency, its amount the forex amount,
   * and the description loses the match and is trimmed; elsewhere the row is
   * in rupees with no forex amount and no rate.
   */
  function ApplyForex(description: string, amount: Option<nat>, digits: nat): (f: ForexFields)
    requires digits > 0
    ensures ForexStart(description).None? ==> f == NoForex(description)
    ensures ForexStart(description).Some? ==>
      && f.forexAmount.Some?
      && |f.currency| == 3 && IsUpper(f.currency[0]) && IsUpper(f.currency[1]) && IsUpper(f.currency[2])
      && IsTrimmed(f.description) && |f.description| < |description|
      && f.forexRate == ForexRate(amount, f.forexAmount, digits)
  {
    match ForexStart(description)
    case None => NoForex(description)
    case Some(i) =>
      var text := ForexAmountText(description, i);
      AmountTokenStart(text);
      var forexAmount := CleanAmount(text);
      ForexFields(Trim(description[..i]), ForexCurrency(description, i), forexAmount, ForexRate(amount, forexAmount, digits))
  }

  /**
   * A description written as text, a space, a currency code, a space and an
   * amount as a cell shows it gives back that text, that code and that amount.
   */
  lemma ApplyForexOf(d: string, code: string, v: nat, amount: Option<nat>, digits: nat)
    requires digits > 0 && IsTrimmed(d)
    requires |code| == 3 && IsUpper(code[0]) && IsUpper(code[1]) && IsUpper(code[2])
    ensures ApplyForex(d + (" " + (code + (" " + ShowDecimal(v)))), amount, digits)
         == ForexFields(d, code, Some(v), ForexRate(amount, Some(v), digits))
  {
    AmountTextOfShown(v);
    ShowDecimalRoundTrip(v);
    ApplyForexOfText(d, code, ShowDecimal(v), amount, digits);
  }

  /** The same for any amount text in the language of the amount group. */
  lemma ApplyForexOfText(d: string, code: string, amt: string, amount: Option<nat>, digits: nat)
    requires digits > 0 && IsTrimmed(d)
    requires |code| == 3 && IsUpper(code[0]) && IsUpper(code[1]) && IsUpper(code[2])
    requires MatchesAmountToken(amt)
    ensures ApplyForex(d + (" " + (code + (" " + amt))), amount, digits)
         == ForexFields(d, code, CleanAmount(amt), ForexRate(amount, CleanAmount(amt), digits))
  {
    var s := d + (" " + (code + (" " + amt)));
    var i := |d| + 1;
    ForexSuffixMatch(d, code, amt);
    TrimSpaceAfter(d);
    ApplyForexAt(s, i, amount, digits);
  }

  /** `FOREX_RE` matches such a description just after the text, with the code and the amount as its groups. */
  lemma ForexSuffixMatch(d: string, code: string, amt: string)
    requires |code| == 3 && IsUpper(code[0]) && IsUpper(code[1]) && IsUpper(code[2])
    requires MatchesAmountToken(amt)
    ensures var s := d + (" " + (code + (" " + amt)));
      && ForexStart(s).Some? && ForexStart(s).value == |d| + 1
      && ForexCurrency(s, |d| + 1) == code && ForexAmountText(s, |d| + 1) == amt
      && s[..|d| + 1] == d + " "
  {
    var pre := d + " ";
    var s := pre + (code + (" " + (amt + "")));
    assert s == d + (" " + (code + (" " + amt)));
    ForexStartOf(pre, code, " ", amt, "");
    assert s[..|pre|] == d + " ";
  }

  /** A shown amount is one whole amount token. */
  lemma AmountTextOfShown(v: nat)
    ensures MatchesAmountToken(ShowDecimal(v))
  {
    var amt := ShowDecimal(v);
    ShowDecimalRoundTrip(v);
    TokenLenLongest(amt);
    assert amt[..TokenLen(amt)] == amt;
  }

  /** Where `FOREX_RE` first matches at `i`, the forex step reads the match's groups and keeps the trimmed text before it. */
  lemma ApplyForexAt(s: string, i: nat, amount: Option<nat>, digits: nat)
    requires digits > 0 && ForexStart(s).Some? && ForexStart(s).value == i
    ensures ApplyForex(s, amount, digits)
         == ForexFields(Trim(s[..i]), ForexCurrency(s, i), CleanAmount(ForexAmountText(s, i)),
                        ForexRate(amount, CleanAmount(ForexAmountText(s, i)), digits))
  {
  }

  /** Three capital letters, as `FOREX_RE` captures a currency code. */
  predicate IsCurrencyCode(c: string) {
    |c| == 3 && IsUpper(c[0]) && IsUpper(c[1]) && IsUpper(c[2])
  }

  /** The description as a statement prints it: followed, for a foreign-currency row, by the code and the forex amount. */
  function ForexText(description: string, currency: string, forexAmount: Option<nat>): (s: string)
    ensures forexAmount.None? ==> s == description
    ensures forexAmount.Some? ==> |s| > |description|
  {
    if forexAmount.Some? then description + (" " + (currency + (" " + ShowDecimal(forexAmount.value)))) else description
  }

  /** The printed description keeps the description in front; after it come only spaces, the code's letters, digits and points. */
  lemma ForexTextChars(description: string, currency: string, forexAmount: Option<nat>, k: nat)
    requires forexAmount.Some? ==> IsCurrencyCode(currency)
    requires k < |ForexText(description, currency, forexAmount)|
    ensures var s := ForexText(description, currency, forexAmount);
      && (k < |description| ==> s[k] == description[k])
      && (k >= |description| ==> s[k] == ' ' || IsUpper(s[k]) || IsDigit(s[k]) || s[k] == '.')
  {
    if forexAmount.Some? {
      var amt := ShowDecimal(forexAmount.value);
      ShowDecimalChars(forexAmount.value);
      var s := description + (" " + (currency + (" " + amt)));
      if k >= |description| + 5 {
        assert s[k] == amt[k - |description| - 5];
      } else if k > |description| && k < |description| + 4 {
        assert s[k] == currency[k - |description| - 1];
      }
    }
  }

  /**
   * The printed description of a non-empty, trimmed, single-line description
   * starts as it does, is trimmed and single-line, and has a `+` only where
   * the description has one.
   */
  lemma ForexTextShape(description: string, currency: string, forexAmount: Option<nat>)
    requires description != [] && IsTrimmed(description) && NoLineTerminator(description)
    requires forexAmount.Some? ==> IsCurrencyCode(currency)
    ensures var d := ForexText(description, currency, forexAmount);
      && d != [] && IsTrimmed(d) && d[0] == description[0] && NoLineTerminator(d)
      && ('+' !in description ==> '+' !in d)
  {
    var d := ForexText(description, currency, forexAmount);
    if forexAmount.Some? {
      ShowDecimalChars(forexAmount.value);
      var amt := ShowDecimal(forexAmount.value);
      assert d[|d| - 1] == amt[|amt| - 1];
    }
    forall k | 0 <= k < |d| ensures !IsLineTerminator(d[k]) && ('+' !in description ==> d[k] != '+') {
      ForexTextChars(description, currency, forexAmount, k);
      if k < |description| {
        assert description[k] in description;
      }
    }
  }

  /** The forex step gives back what the printed description was made from. */
  lemma ApplyForexText(description: string, currency: string, forexAmount: Option<nat>, amount: Option<nat>, digits: nat)
    requires digits > 0 && IsTrimmed(description)
    requires forexAmount.None? ==> currency == "INR" && ForexStart(description).None?
    requires forexAmount.Some? ==> IsCurrencyCode(currency)
    ensures ApplyForex(ForexText(description, currency, forexAmount), amount, digits)
         == ForexFields(description, currency, forexAmount, ForexRate(amount, forexAmount, digits))
  {
    if forexAmount.Some? {
      ApplyForexOf(description, currency, forexAmount.value, amount, digits);
    }
  }
}
