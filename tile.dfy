/**
 * `runParse` of a file tile (app.js:357-392): the lines of the document are
 * parsed with the old layout, then with the new one if that found nothing;
 * rows found become the CSV download and the preview's rows.
 */
module Tile {
  import opened Options
  import opened Transactions
  import opened NewLayout
  import opened OldLayout
  import opened Statement
  import opened Csv
  import opened Preview
  import opened Files
  import opened PdfLines

  /** How a parse ends: no transactions, or the CSV text, its download name, the row count and the parser used. */
  datatype ParseResult = NoTransactionsFound | Ready(csv: string, downloadName: string, count: nat, parser: Format)

  /** The rows a statement yields and the parser that yields them: the old layout, unless it finds nothing. */
  function ChosenRows(lines: seq<string>): (r: Loaded)
    ensures ParseOld(lines, NoSection) != [] ==> r == Loaded(ParseOld(lines, NoSection), Old)
    ensures ParseOld(lines, NoSection) == [] ==> r == Loaded(ParseNew(lines), New)
  {
    if ParseOld(lines, NoSection) != [] then Loaded(ParseOld(lines, NoSection), Old)
    else Loaded(ParseNew(lines), New)
  }

  /**
   * A statement printed in the new layout, none of whose lines reads as a
   * header, has no rows in the old layout, so the new one is chosen and gives
   * back its rows.
   */
  lemma NewStatementChosen(rows: seq<Transaction>)
    requires forall k :: 0 <= k < |rows| ==> rows[k].amount.Some? && NewPrintable(rows[k])
    requires forall k :: 0 <= k < |rows| ==> rows[k].amount.Some? && HeaderSection(NewLine(rows[k])).None?
    ensures ChosenRows(NewStatement(rows)) == Loaded(rows, New)
  {
    ParseOldNoHeader(NewStatement(rows));
    NewStatementRoundTrip(rows);
  }

  /** A section header followed by at least one row printed in the old layout is read with the old layout. */
  lemma OldStatementChosen(header: string, rows: seq<Transaction>, section: Section)
    requires rows != [] && HeaderSection(header) == Some(section)
    requires forall k :: 0 <= k < |rows| ==> OldPrintable(rows[k], section)
    requires forall k :: 0 <= k < |rows| ==> rows[k].amount.Some? && HeaderSection(OldLine(rows[k])).None?
    ensures ChosenRows([header] + OldStatement(rows)) == Loaded(rows, Old)
  {
    OldStatementRoundTrip(header, rows, section);
  }

  /**
   * `runParse` on a document whose pages hold `pages`: when a layout finds
   * rows, the download is their CSV under the file's name with `.csv`, and the
   * preview holds them from page one; otherwise the preview is left as it was.
   */
  method RunParse(preview: CsvPreview, pages: seq<seq<TextItem>>, fileName: string) returns (r: ParseResult)
    modifies preview
    requires preview.Valid()
    ensures preview.Valid()
    ensures var lines := AllLines(pages);
      r.NoTransactionsFound? <==> ParseOld(lines, NoSection) == [] && ParseNew(lines) == []
    ensures r.NoTransactionsFound? ==>
      preview.parsed == old(preview.parsed) && preview.currentPage == old(preview.currentPage)
    ensures preview.shownTotal == old(preview.shownTotal)
    ensures r.Ready? ==>
      var chosen := ChosenRows(AllLines(pages));
      && r.csv == CsvText(chosen.rows, chosen.format)
      && r.downloadName == CsvFileName(fileName)
      && r.count == |chosen.rows| > 0 && r.parser == chosen.format
      && preview.parsed == Some(chosen) && preview.currentPage == 1
  {
    var lines := AssembleLines(pages);
    var outcome := Dispatch(lines);
    if outcome.NoTransactions? {
      return NoTransactionsFound;
    }
    var csv := RowsToCsv(outcome.rows, outcome.format);
    var name := CsvFileName(fileName);
    preview.Load(outcome.rows, outcome.format);
    r := Ready(csv, name, |outcome.rows|, outcome.format);
  }
}
