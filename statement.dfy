/**
 * The line loop `parseWithFormat` (app.js:191-213) and the choice between the
 * two layouts that `runParse` makes (app.js:363-374).
 */
module Statement {
  import opened Options
  import opened Text
  import opened Transactions
  import opened NewLayout
  import opened OldLayout

  /** The parser a statement was read with: `"old"` or `"new"`. */
  datatype Format = Old | New

  /** `/Domestic Transactions/i`, folded to lower case. */
  const DomesticHeader: string := "domestic transactions"

  /** `/International Transactions/i`, folded to lower case. */
  const InternationalHeader: string := "international transactions"

  /**
   * The section a header line opens, `None` for any other line: a line naming
   * both headers opens the domestic section, because that test comes first.
   */
  function HeaderSection(line: string): (h: Option<Section>)
    ensures h == Some(Domestic) <==> ContainsIgnoreCase(line, DomesticHeader)
    ensures h == Some(International) <==>
      !ContainsIgnoreCase(line, DomesticHeader) && ContainsIgnoreCase(line, InternationalHeader)
    ensures h.None? <==>
      !ContainsIgnoreCase(line, DomesticHeader) && !ContainsIgnoreCase(line, InternationalHeader)
  {
    if ContainsIgnoreCase(line, DomesticHeader) then Some(Domestic)
    else if ContainsIgnoreCase(line, InternationalHeader) then Some(International)
    else None
  }

  /** The rows a call of a line parser spreads into `rows`: none or one. */
  function RowsOf(r: Option<Transaction>): (rows: seq<Transaction>)
    ensures |rows| <= 1
    ensures rows == [] <==> r.None?
    ensures r.Some? ==> rows[0] == r.value
  {
    match r
    case None => []
    case Some(t) => [t]
  }

  /** The section in force after `line`, when `section` was in force before it. */
  function SectionStep(line: string, section: Section): (s: Section)
    ensures HeaderSection(line).None? ==> s == section
    ensures HeaderSection(line).Some? ==> s == HeaderSection(line).value && s != NoSection
  {
    match HeaderSection(line)
    case Some(h) => h
    case None => section
  }

  /** The section in force after all of `lines`. */
  function SectionAfter(lines: seq<string>, section: Section): Section
    decreases |lines|
  {
    if lines == [] then section else SectionAfter(lines[1..], SectionStep(lines[0], section))
  }

  /**
   * What one line adds in the old layout: nothing for a header line or a line
   * before any header, otherwise what the line parser `parse` gives under the
   * section.
   */
  function SectionRows(parse: (string, Section) -> Option<Transaction>, line: string, section: Section): (rows: seq<Transaction>)
    ensures |rows| <= 1
    ensures HeaderSection(line).Some? || section == NoSection ==> rows == []
  {
    if HeaderSection(line).Some? || section == NoSection then []
    else RowsOf(parse(line, section))
  }

  /** The rows the old line loop reads from `lines` with the line parser `parse`, starting in `section`. */
  function ParseSections(parse: (string, Section) -> Option<Transaction>, lines: seq<string>, section: Section): seq<Transaction>
    decreases |lines|
  {
    if lines == [] then []
    else SectionRows(parse, lines[0], section) + ParseSections(parse, lines[1..], SectionStep(lines[0], section))
  }

  /** The rows the old layout reads from `lines`, starting in `section`. */
  function ParseOld(lines: seq<string>, section: Section): seq<Transaction> {
    ParseSections(ParseOldLine, lines, section)
  }

  /** The rows the new line loop reads from `lines` with the line parser `parse`: one per line it accepts. */
  function ParseEach(parse: string -> Option<Transaction>, lines: seq<string>): seq<Transaction>
    decreases |lines|
  {
    if lines == [] then []
    else ParseEach(parse, lines[..|lines| - 1]) + RowsOf(parse(lines[|lines| - 1]))
  }

  /** The rows the new layout reads from `lines`. */
  function ParseNew(lines: seq<string>): seq<Transaction> {
    ParseEach(ParseNewLine, lines)
  }

  /** The rows `parseWithFormat(lines, format)` resolves to. */
  function ParseLines(lines: seq<string>, format: Format): seq<Transaction> {
    if format == New then ParseNew(lines) else ParseOld(lines, NoSection)
  }

  /** One more line read by the new line loop. */
  lemma ParseEachSnoc(parse: string -> Option<Transaction>, lines: seq<string>, i: nat)
    requires i < |lines|
    ensures ParseEach(parse, lines[..i + 1]) == ParseEach(parse, lines[..i]) + RowsOf(parse(lines[i]))
  {
    assert lines[..i + 1][..i] == lines[..i];
  }

  /** One more line read by the old line loop: a header switches the section, other lines inside a section add their row. */
  lemma ParseSectionsStep(parse: (string, Section) -> Option<Transaction>, lines: seq<string>, i: nat, section: Section,
                          rows: seq<Transaction>, total: seq<Transaction>)
    requires i < |lines| && rows + ParseSections(parse, lines[i..], section) == total
    ensures HeaderSection(lines[i]).Some? ==>
      rows + ParseSections(parse, lines[i + 1..], HeaderSection(lines[i]).value) == total
    ensures HeaderSection(lines[i]).None? && section == NoSection ==>
      rows + ParseSections(parse, lines[i + 1..], section) == total
    ensures HeaderSection(lines[i]).None? && section != NoSection ==>
      (rows + RowsOf(parse(lines[i], section))) + ParseSections(parse, lines[i + 1..], section) == total
  {
    ParseSectionsUnfold(parse, lines, i, section);
    var line := lines[i];
    var step := SectionRows(parse, line, section);
    var next := SectionStep(line, section);
    var after := ParseSections(parse, lines[i + 1..], next);
    if HeaderSection(line).Some? || section == NoSection {
      assert step == [] && step + after == after;
    } else {
      assert step == RowsOf(parse(line, section)) && next == section;
      assert rows + (step + after) == (rows + step) + after;
    }
  }

  /** The line at `i` is read, then the lines after it, in the section it leaves. */
  lemma ParseSectionsUnfold(parse: (string, Section) -> Option<Transaction>, lines: seq<string>, i: nat, section: Section)
    requires i < |lines|
    ensures ParseSections(parse, lines[i..], section)
         == SectionRows(parse, lines[i], section) + ParseSections(parse, lines[i + 1..], SectionStep(lines[i], section))
  {
    assert lines[i..][0] == lines[i] && lines[i..][1..] == lines[i + 1..];
  }

  /**
   * `parseWithFormat(lines, format)`. In the new layout every line goes to
   * `parseNewLine`. In the old one a header line switches the section and is
   * skipped, a line before any header is skipped, and every other line goes
   * to `parseOldLine` with the section in force.
   */
  method ParseWithFormat(lines: seq<string>, format: Format) returns (rows: seq<Transaction>)
    ensures rows == ParseLines(lines, format)
  {
    rows := [];
    if format == New {
      for i := 0 to |lines|
        invariant rows == ParseEach(ParseNewLine, lines[..i])
      {
        ParseEachSnoc(ParseNewLine, lines, i);
        rows := rows + RowsOf(ParseNewLine(lines[i]));
      }
      assert lines[..|lines|] == lines;
    } else {
      var section := NoSection;
      assert lines[0..] == lines;
      for i := 0 to |lines|
        invariant rows + ParseSections(ParseOldLine, lines[i..], section) == ParseOld(lines, NoSection)
      {
        var line := lines[i];
        ParseSectionsStep(ParseOldLine, lines, i, section, rows, ParseOld(lines, NoSection));
        if ContainsIgnoreCase(line, DomesticHeader) {
          section := Domestic;
        } else if ContainsIgnoreCase(line, InternationalHeader) {
          section := International;
        } else if section != NoSection {
          rows := rows + RowsOf(ParseOldLine(line, section));
        }
      }
    }
  }

  /** Reading `a + b` reads `a`, then `b` in the section `a` leaves: rows keep the order of their lines. */
  lemma {:induction false} ParseSectionsAppend(parse: (string, Section) -> Option<Transaction>, a: seq<string>, b: seq<string>, section: Section)
    ensures ParseSections(parse, a + b, section) == ParseSections(parse, a, section) + ParseSections(parse, b, SectionAfter(a, section))
    decreases |a|
  {
    if a != [] {
      assert (a + b)[0] == a[0] && (a + b)[1..] == a[1..] + b;
      ParseSectionsAppend(parse, a[1..], b, SectionStep(a[0], section));
    } else {
      assert a + b == b;
    }
  }

  lemma ParseOldAppend(a: seq<string>, b: seq<string>, section: Section)
    ensures ParseOld(a + b, section) == ParseOld(a, section) + ParseOld(b, SectionAfter(a, section))
  {
    ParseSectionsAppend(ParseOldLine, a, b, section);
  }

  /** Lines before the first header yield no rows and leave no section open. */
  lemma {:induction false} ParseSectionsPreamble(parse: (string, Section) -> Option<Transaction>, a: seq<string>)
    requires forall k :: 0 <= k < |a| ==> HeaderSection(a[k]).None?
    ensures ParseSections(parse, a, NoSection) == [] && SectionAfter(a, NoSection) == NoSection
    decreases |a|
  {
    if a != [] {
      assert forall k :: 0 <= k < |a[1..]| ==> HeaderSection(a[1..][k]).None? by {
        forall k | 0 <= k < |a[1..]| ensures HeaderSection(a[1..][k]).None? { assert a[1..][k] == a[k + 1]; }
      }
      ParseSectionsPreamble(parse, a[1..]);
    }
  }

  /** A statement without a header line has no rows in the old layout. */
  lemma ParseOldNoHeader(lines: seq<string>)
    requires forall k :: 0 <= k < |lines| ==> HeaderSection(lines[k]).None?
    ensures ParseOld(lines, NoSection) == []
  {
    ParseSectionsPreamble(ParseOldLine, lines);
  }

  /** So whatever precedes the first header does not change what the rest yields. */
  lemma ParseOldSkipsPreamble(a: seq<string>, b: seq<string>)
    requires forall k :: 0 <= k < |a| ==> HeaderSection(a[k]).None?
    ensures ParseOld(a + b, NoSection) == ParseOld(b, NoSection)
  {
    ParseSectionsAppend(ParseOldLine, a, b, NoSection);
    ParseSectionsPreamble(ParseOldLine, a);
  }

  /** Every line contributes at most one row. */
  lemma {:induction false} ParseSectionsLength(parse: (string, Section) -> Option<Transaction>, lines: seq<string>, section: Section)
    ensures |ParseSections(parse, lines, section)| <= |lines|
    decreases |lines|
  {
    if lines != [] {
      ParseSectionsLength(parse, lines[1..], SectionStep(lines[0], section));
    }
  }

  lemma ParseOldLength(lines: seq<string>, section: Section)
    ensures |ParseOld(lines, section)| <= |lines|
  {
    ParseSectionsLength(ParseOldLine, lines, section);
  }

  /** A header line yields no row and opens its section for the lines after it. */
  lemma ParseOldHeader(line: string, b: seq<string>, section: Section)
    requires HeaderSection(line).Some?
    ensures ParseOld([line] + b, section) == ParseOld(b, HeaderSection(line).value)
  {
    assert ([line] + b)[0] == line && ([line] + b)[1..] == b;
  }

  /** A line that is not a header, read inside a section, yields exactly what `parseOldLine` gives. */
  lemma ParseOldBody(line: string, b: seq<string>, section: Section)
    requires HeaderSection(line).None? && section != NoSection
    ensures ParseOld([line] + b, section) == RowsOf(ParseOldLine(line, section)) + ParseOld(b, section)
  {
    assert ([line] + b)[0] == line && ([line] + b)[1..] == b;
  }

  /** The new line loop reads `a + b` as `a` followed by `b`. */
  lemma {:induction false} ParseEachAppend(parse: string -> Option<Transaction>, a: seq<string>, b: seq<string>)
    ensures ParseEach(parse, a + b) == ParseEach(parse, a) + ParseEach(parse, b)
    decreases |b|
  {
    if b == [] {
      assert a + b == a;
    } else {
      var b' := b[..|b| - 1];
      assert (a + b)[..|a + b| - 1] == a + b' && (a + b)[|a + b| - 1] == b[|b| - 1];
      ParseEachAppend(parse, a, b');
    }
  }

  lemma ParseNewAppend(a: seq<string>, b: seq<string>)
    ensures ParseNew(a + b) == ParseNew(a) + ParseNew(b)
  {
    ParseEachAppend(ParseNewLine, a, b);
  }

  /** Every line contributes at most one row, and there are no rows exactly when the parser accepts no line. */
  lemma {:induction false} ParseEachEmpty(parse: string -> Option<Transaction>, lines: seq<string>)
    ensures |ParseEach(parse, lines)| <= |lines|
    ensures ParseEach(parse, lines) == [] <==> forall k :: 0 <= k < |lines| ==> parse(lines[k]).None?
    decreases |lines|
  {
    if lines != [] {
      var init := lines[..|lines| - 1];
      ParseEachEmpty(parse, init);
      assert forall k :: 0 <= k < |init| ==> init[k] == lines[k];
    }
  }

  lemma ParseNewEmpty(lines: seq<string>)
    ensures |ParseNew(lines)| <= |lines|
    ensures ParseNew(lines) == [] <==> forall k :: 0 <= k < |lines| ==> ParseNewLine(lines[k]).None?
  {
    ParseEachEmpty(ParseNewLine, lines);
  }

  // ---- a printed statement reads back as its rows ----

  /** When the parser reads every line as the row beside it, the new line loop yields exactly those rows. */
  lemma {:induction false} ParseEachAll(parse: string -> Option<Transaction>, lines: seq<string>, rows: seq<Transaction>)
    requires |lines| == |rows|
    requires forall k :: 0 <= k < |lines| ==> parse(lines[k]) == Some(rows[k])
    ensures ParseEach(parse, lines) == rows
    decreases |lines|
  {
    if lines != [] {
      var n := |lines| - 1;
      assert forall k :: 0 <= k < n ==> lines[..n][k] == lines[k] && rows[..n][k] == rows[k];
      ParseEachAll(parse, lines[..n], rows[..n]);
      assert rows == rows[..n] + [rows[n]];
    }
  }

  /** Inside a section, when no line is a header and every line reads as the row beside it, the old line loop yields exactly those rows. */
  lemma {:induction false} ParseSectionsAll(parse: (string, Section) -> Option<Transaction>, lines: seq<string>,
                                            rows: seq<Transaction>, section: Section)
    requires section != NoSection && |lines| == |rows|
    requires forall k :: 0 <= k < |lines| ==> HeaderSection(lines[k]).None? && parse(lines[k], section) == Some(rows[k])
    ensures ParseSections(parse, lines, section) == rows
    decreases |lines|
  {
    if lines != [] {
      assert forall k :: 0 <= k < |lines| - 1 ==> lines[1..][k] == lines[k + 1] && rows[1..][k] == rows[k + 1];
      ParseSectionsAll(parse, lines[1..], rows[1..], section);
      assert rows == [rows[0]] + rows[1..];
    }
  }

  /** Rows printed in the new layout, one line each. */
  function NewStatement(rows: seq<Transaction>): (lines: seq<string>)
    requires forall k :: 0 <= k < |rows| ==> rows[k].amount.Some?
    ensures |lines| == |rows|
  {
    seq(|rows|, k requires 0 <= k < |rows| => NewLine(rows[k]))
  }

  /** The new line loop reads a statement printed in the new layout back as its rows, in order. */
  lemma NewStatementRoundTrip(rows: seq<Transaction>)
    requires forall k :: 0 <= k < |rows| ==> rows[k].amount.Some? && NewPrintable(rows[k])
    ensures ParseNew(NewStatement(rows)) == rows
  {
    var lines := NewStatement(rows);
    forall k | 0 <= k < |rows| ensures ParseNewLine(lines[k]) == Some(rows[k]) {
      ParseNewLineRoundTrip(rows[k]);
    }
    ParseEachAll(ParseNewLine, lines, rows);
  }

  /** Rows printed in the old layout, one line each. */
  function OldStatement(rows: seq<Transaction>): (lines: seq<string>)
    requires forall k :: 0 <= k < |rows| ==> rows[k].amount.Some?
    ensures |lines| == |rows|
  {
    seq(|rows|, k requires 0 <= k < |rows| => OldLine(rows[k]))
  }

  /**
   * The old line loop reads a section header followed by rows printed in the
   * old layout back as those rows, in order, when no printed row reads as a
   * header itself.
   */
  lemma OldStatementRoundTrip(header: string, rows: seq<Transaction>, section: Section)
    requires HeaderSection(header) == Some(section)
    requires forall k :: 0 <= k < |rows| ==> OldPrintable(rows[k], section)
    requires forall k :: 0 <= k < |rows| ==> rows[k].amount.Some? && HeaderSection(OldLine(rows[k])).None?
    ensures ParseOld([header] + OldStatement(rows), NoSection) == rows
  {
    var lines := OldStatement(rows);
    ParseOldHeader(header, lines, NoSection);
    forall k | 0 <= k < |rows| ensures HeaderSection(lines[k]).None? && ParseOldLine(lines[k], section) == Some(rows[k]) {
      ParseOldLineRoundTrip(rows[k], section);
    }
    ParseSectionsAll(ParseOldLine, lines, rows, section);
  }

  /** What `runParse` ends with: no transactions, or the rows and the parser that found them. */
  datatype Outcome = NoTransactions | Parsed(rows: seq<Transaction>, format: Format)

  /**
   * The dispatcher: the old layout first; the new layout only when the old one
   * finds nothing; no transactions when neither finds any.
   */
  method Dispatch(lines: seq<string>) returns (o: Outcome)
    ensures o.NoTransactions? <==> ParseOld(lines, NoSection) == [] && ParseNew(lines) == []
    ensures ParseOld(lines, NoSection) != [] ==> o == Parsed(ParseOld(lines, NoSection), Old)
    ensures ParseOld(lines, NoSection) == [] && ParseNew(lines) != [] ==> o == Parsed(ParseNew(lines), New)
  {
    var rows := ParseWithFormat(lines, Old);
    var used := Old;
    if |rows| == 0 {
      rows := ParseWithFormat(lines, New);
      used := New;
    }
    if |rows| == 0 {
      return NoTransactions;
    }
    return Parsed(rows, used);
  }
}
