/**
 * The CSV encoder `rowsToCsv` / `getColumnsForFormat` (app.js:139-161): one
 * header line and one line per row, joined by `"\n"`; every cell is quoted
 * and its quotes doubled, as rules 5 to 7 of section 2 of RFC 4180 describe.
 * A reader of such text (`DecodeCsv`) gets the cells back.
 */
module Csv {
  import opened Options
  import opened Text
  import opened Amount
  import opened Transactions
  import opened Statement

  /** The columns a row is written with, in their order. */
  datatype Column = DateCol | TimeCol | CurrencyCol | DescriptionCol | ForexAmountCol | ForexRateCol | AmountCol | TypeCol

  /** The columns of a statement read with the old parser. */
  const OldColumns: seq<Column> := [DateCol, CurrencyCol, DescriptionCol, ForexAmountCol, ForexRateCol, AmountCol, TypeCol]

  /**
   * `getColumnsForFormat(format)`: the new layout has the time column after
   * the date, eight columns in all; any other format has the other seven.
   */
  function ColumnsFor(format: Format): (cols: seq<Column>)
    ensures |cols| == if format == New then 8 else 7
    ensures TimeCol in cols <==> format == New
    ensures format == New ==> cols == [OldColumns[0], TimeCol] + OldColumns[1..]
    ensures format == Old ==> cols == OldColumns
  {
    if format == New then [DateCol, TimeCol, CurrencyCol, DescriptionCol, ForexAmountCol, ForexRateCol, AmountCol, TypeCol]
    else OldColumns
  }

  /** The header text of a column: the key of the row object it is read from. */
  function ColumnName(c: Column): (name: string)
    ensures name != []
  {
    match c
    case DateCol => "date"
    case TimeCol => "time"
    case CurrencyCol => "currency"
    case DescriptionCol => "description"
    case ForexAmountCol => "forex_amount"
    case ForexRateCol => "forex_rate"
    case AmountCol => "amount"
    case TypeCol => "type"
  }

  /** `String(value)` for an amount cell, or `""` where the row holds no amount. */
  function AmountCell(v: Option<nat>): (cell: string)
    ensures cell == [] <==> v.None?
    ensures v.Some? ==> cell == ShowDecimal(v.value) && IsShownDecimal(cell) && CleanAmount(cell) == v
  {
    match v
    case None => ""
    case Some(x) =>
      ShowDecimalRoundTrip(x);
      ShowDecimalChars(x);
      ShowDecimal(x)
  }

  /** The text of a row's cell in a column, as `String(row[col] ?? "")` gives it. */
  function CellText(t: Transaction, c: Column): (cell: string)
    ensures c == DateCol ==> cell == t.date
    ensures c == TimeCol ==> cell == t.time
    ensures c == CurrencyCol ==> cell == t.currency
    ensures c == DescriptionCol ==> cell == t.description
    ensures c == ForexRateCol ==> cell == t.forexRate
    ensures c == AmountCol ==> cell == AmountCell(t.amount)
    ensures c == ForexAmountCol ==> cell == AmountCell(t.forexAmount)
    ensures c == TypeCol ==> (t.txnType == Cr ==> cell == "Cr") && (t.txnType == Dr ==> cell == "Dr")
  {
    match c
    case DateCol => t.date
    case TimeCol => t.time
    case CurrencyCol => t.currency
    case DescriptionCol => t.description
    case ForexAmountCol => AmountCell(t.forexAmount)
    case ForexRateCol => t.forexRate
    case AmountCol => AmountCell(t.amount)
    case TypeCol => if t.txnType == Cr then "Cr" else "Dr"
  }

  /** `cell.replace(/"/g, '""')`. */
  function DoubleQuotes(s: string): (r: string)
    ensures |r| >= |s|
    decreases |s|
  {
    if s == [] then []
    else (if s[0] == '"' then "\"\"" else [s[0]]) + DoubleQuotes(s[1..])
  }

  /** Doubling quotes adds no newline. */
  lemma {:induction false} DoubleQuotesNewline(s: string)
    requires '\n' !in s
    ensures '\n' !in DoubleQuotes(s)
    decreases |s|
  {
    if s != [] {
      assert s[0] in s;
      assert forall c :: c in s[1..] ==> c in s;
      DoubleQuotesNewline(s[1..]);
    }
  }

  /** `escapeCell`: the cell text between quotes, its own quotes doubled. */
  function EscapeCell(cell: string): (e: string)
    ensures |e| >= 2 && e[0] == '"' && e[|e| - 1] == '"'
  {
    "\"" + DoubleQuotes(cell) + "\""
  }

  /** A cell with two quotes in it is written with each of them doubled, between quotes. */
  lemma EscapeTwoQuotes(a: string, b: string, c: string)
    requires '"' !in a && '"' !in b && '"' !in c
    ensures EscapeCell(a + ['"'] + b + ['"'] + c) == ['"'] + a + ['"', '"'] + b + ['"', '"'] + c + ['"']
  {
    DoubleQuotesTwo(a, b, c);
  }

  lemma DoubleQuotesTwo(a: string, b: string, c: string)
    requires '"' !in a && '"' !in b && '"' !in c
    ensures DoubleQuotes(a + ['"'] + b + ['"'] + c) == a + ['"', '"'] + b + ['"', '"'] + c
  {
    var q: string := ['"'];
    DoubleQuotesPlain(b);
    DoubleQuotesPlain(c);
    DoubleQuotesOne(a);
    var x := a + q;
    var y := x + b;
    DoubleQuotesAppend(x, b);
    var z := y + q;
    DoubleQuotesAppend(y, q);
    DoubleQuotesAppend(z, c);
  }

  /** Text without quotes followed by one quote. */
  lemma DoubleQuotesOne(a: string)
    requires '"' !in a
    ensures DoubleQuotes(a + ['"']) == a + ['"', '"'] && DoubleQuotes(['"']) == ['"', '"']
  {
    var q: string := ['"'];
    assert q[1..] == [];
    DoubleQuotesPlain(a);
    DoubleQuotesAppend(a, q);
  }

  /** One character: a quote is written twice, any other character once. */
  lemma DoubleQuotesChar(c: char)
    ensures DoubleQuotes([c]) == if c == '"' then "\"\"" else [c]
  {
    assert [c][1..] == [];
  }

  /** Text without quotes is left as it is. */
  lemma {:induction false} DoubleQuotesPlain(s: string)
    requires '"' !in s
    ensures DoubleQuotes(s) == s
    decreases |s|
  {
    if s != [] {
      assert s[1..][..] == s[1..] && forall k :: 0 <= k < |s[1..]| ==> s[1..][k] == s[k + 1];
      assert '"' !in s[1..];
      DoubleQuotesPlain(s[1..]);
      assert s == [s[0]] + s[1..];
    }
  }

  /** Quotes are doubled piece by piece. */
  lemma {:induction false} DoubleQuotesAppend(a: string, b: string)
    ensures DoubleQuotes(a + b) == DoubleQuotes(a) + DoubleQuotes(b)
    decreases |a|
  {
    if a == [] {
      assert a + b == b;
    } else {
      assert (a + b)[0] == a[0] && (a + b)[1..] == a[1..] + b;
      DoubleQuotesAppend(a[1..], b);
    }
  }

  /** Every cell escaped, in order. */
  function EscapeAll(cells: seq<string>): (es: seq<string>)
    ensures |es| == |cells|
    decreases |cells|
  {
    if cells == [] then [] else [EscapeCell(cells[0])] + EscapeAll(cells[1..])
  }

  /** `parts.join(sep)`. */
  function Join(parts: seq<string>, sep: char): string
    decreases |parts|
  {
    if parts == [] then []
    else if |parts| == 1 then parts[0]
    else parts[0] + [sep] + Join(parts[1..], sep)
  }

  /** One line of the file: the cells escaped and joined by commas. */
  function RecordLine(cells: seq<string>): string {
    Join(EscapeAll(cells), ',')
  }

  /** The header cells: the column names. */
  function HeaderCells(format: Format): (cells: seq<string>)
    ensures |cells| == |ColumnsFor(format)|
    ensures forall k :: 0 <= k < |cells| ==> cells[k] == ColumnName(ColumnsFor(format)[k])
  {
    var cols := ColumnsFor(format);
    seq(|cols|, k requires 0 <= k < |cols| => ColumnName(cols[k]))
  }

  /** The cells of one row, one per column. */
  function RowCells(t: Transaction, format: Format): (cells: seq<string>)
    ensures |cells| == |ColumnsFor(format)|
    ensures forall k :: 0 <= k < |cells| ==> cells[k] == CellText(t, ColumnsFor(format)[k])
  {
    var cols := ColumnsFor(format);
    seq(|cols|, k requires 0 <= k < |cols| => CellText(t, cols[k]))
  }

  /** The cells of the whole file: the header, then one record per row. */
  function Table(rows: seq<Transaction>, format: Format): (table: seq<seq<string>>)
    ensures |table| == |rows| + 1 && table[0] == HeaderCells(format)
    ensures forall k :: 0 <= k < |rows| ==> table[k + 1] == RowCells(rows[k], format)
  {
    [HeaderCells(format)] + seq(|rows|, k requires 0 <= k < |rows| => RowCells(rows[k], format))
  }

  /** The lines of the file: each record of the table, escaped and joined. */
  function CsvLines(table: seq<seq<string>>): (lines: seq<string>)
    ensures |lines| == |table|
    ensures forall k :: 0 <= k < |lines| ==> lines[k] == RecordLine(table[k])
  {
    seq(|table|, k requires 0 <= k < |table| => RecordLine(table[k]))
  }

  /** The text `rowsToCsv(rows, format)` returns. */
  function CsvText(rows: seq<Transaction>, format: Format): string {
    Join(CsvLines(Table(rows, format)), '\n')
  }

  /** `rowsToCsv(rows, format)`: the header line, then a line per row, joined by newlines. */
  method RowsToCsv(rows: seq<Transaction>, format: Format) returns (csv: string)
    ensures csv == CsvText(rows, format)
  {
    var cols := ColumnsFor(format);
    var lines := [RecordLine(HeaderCells(format))];
    for i := 0 to |rows|
      invariant |lines| == i + 1 && lines[0] == RecordLine(HeaderCells(format))
      invariant forall k :: 0 <= k < i ==> lines[k + 1] == RecordLine(RowCells(rows[k], format))
    {
      var cells := seq(|cols|, k requires 0 <= k < |cols| => CellText(rows[i], cols[k]));
      assert cells == RowCells(rows[i], format);
      lines := lines + [RecordLine(cells)];
    }
    ghost var table := Table(rows, format);
    assert lines == CsvLines(table) by {
      forall k | 0 <= k < |lines| ensures lines[k] == CsvLines(table)[k] {
        if k > 0 {
          assert table[k] == RowCells(rows[k - 1], format);
        }
      }
    }
    csv := Join(lines, '\n');
  }

  // ---- reading the text back ----

  /** `s.split(sep)`: the text between separators, `[""]` for the empty text. */
  function Split(s: string, sep: char): (parts: seq<string>)
    ensures |parts| >= 1
    decreases |s|
  {
    if s == [] then [[]]
    else
      var rest := Split(s[1..], sep);
      if s[0] == sep then [[]] + rest else [[s[0]] + rest[0]] + rest[1..]
  }

  /** Text without the separator splits into itself alone. */
  lemma {:induction false} SplitNone(p: string, t: string, sep: char)
    requires sep !in p
    ensures Split(p + t, sep) == [p + Split(t, sep)[0]] + Split(t, sep)[1..]
    decreases |p|
  {
    if p == [] {
      assert p + t == t && p + Split(t, sep)[0] == Split(t, sep)[0];
      assert Split(t, sep) == [Split(t, sep)[0]] + Split(t, sep)[1..];
    } else {
      assert (p + t)[0] == p[0] && (p + t)[1..] == p[1..] + t;
      SplitNone(p[1..], t, sep);
      assert [p[0]] + (p[1..] + Split(t, sep)[0]) == p + Split(t, sep)[0];
    }
  }

  /** Splitting at the separator undoes joining parts that do not contain it. */
  lemma {:induction false} SplitJoin(parts: seq<string>, sep: char)
    requires |parts| >= 1
    requires forall k :: 0 <= k < |parts| ==> sep !in parts[k]
    ensures Split(Join(parts, sep), sep) == parts
    decreases |parts|
  {
    assert sep !in parts[0];
    if |parts| == 1 {
      SplitNone(parts[0], [], sep);
      assert parts[0] + [] == parts[0] && Split([], sep) == [[]];
      assert parts == [parts[0]];
    } else {
      var tail := Join(parts[1..], sep);
      SplitJoin(parts[1..], sep);
      assert Join(parts, sep) == parts[0] + ([sep] + tail);
      SplitNone(parts[0], [sep] + tail, sep);
      assert ([sep] + tail)[0] == sep && ([sep] + tail)[1..] == tail;
      assert Split([sep] + tail, sep) == [[]] + Split(tail, sep);
      assert parts[0] + [] == parts[0];
      assert parts == [parts[0]] + parts[1..];
    }
  }

  /** A cell read from quoted text, and the text after its closing quote. */
  datatype Field = Field(cell: string, rest: string)

  /** Reads quoted text after its opening quote: `""` stands for a quote, a lone `"` closes the cell. */
  function ReadQuoted(s: string): (r: Option<Field>)
    ensures r.Some? ==> |r.value.rest| < |s|
    decreases |s|
  {
    if s == [] then None
    else if s[0] == '"' then
      if |s| >= 2 && s[1] == '"' then
        match ReadQuoted(s[2..])
        case None => None
        case Some(f) => Some(Field("\"" + f.cell, f.rest))
      else Some(Field([], s[1..]))
    else
      match ReadQuoted(s[1..])
      case None => None
      case Some(f) => Some(Field([s[0]] + f.cell, f.rest))
  }

  /** One line of quoted cells separated by commas, or `None` where the line is not of that form. */
  function DecodeRecord(s: string): (r: Option<seq<string>>)
    ensures r.Some? ==> |r.value| >= 1
    decreases |s|
  {
    if s == [] || s[0] != '"' then None
    else
      match ReadQuoted(s[1..])
      case None => None
      case Some(f) =>
        if f.rest == [] then Some([f.cell])
        else if f.rest[0] != ',' then None
        else
          match DecodeRecord(f.rest[1..])
          case None => None
          case Some(cells) => Some([f.cell] + cells)
  }

  /** Reading an escaped cell gives the cell back and stops at its closing quote. */
  lemma {:induction false} ReadEscaped(cell: string, rest: string)
    requires rest == [] || rest[0] != '"'
    ensures var r := ReadQuoted(DoubleQuotes(cell) + "\"" + rest);
      r.Some? && r.value.cell == cell && r.value.rest == rest
    decreases |cell|
  {
    if cell == [] {
      var s := DoubleQuotes(cell) + "\"" + rest;
      assert s == "\"" + rest;
      assert s[1..] == rest;
    } else {
      ReadEscaped(cell[1..], rest);
      ReadEscapedStep(cell, rest);
    }
  }

  /** The first character of a cell is read back from its escaped form, ahead of the rest of the cell. */
  lemma ReadEscapedStep(cell: string, rest: string)
    requires cell != []
    requires var r := ReadQuoted(DoubleQuotes(cell[1..]) + "\"" + rest);
      r.Some? && r.value.cell == cell[1..] && r.value.rest == rest
    ensures var r := ReadQuoted(DoubleQuotes(cell) + "\"" + rest);
      r.Some? && r.value.cell == cell && r.value.rest == rest
  {
    var head := if cell[0] == '"' then "\"\"" else [cell[0]];
    var tail := DoubleQuotes(cell[1..]) + "\"" + rest;
    DoubleQuotesHead(cell);
    Regroup(head, DoubleQuotes(cell[1..]), "\"", rest);
    if cell[0] == '"' {
      ReadQuotedPair(head + tail, tail);
      assert "\"" + cell[1..] == cell;
    } else {
      assert (head + tail)[1..] == tail;
      ReadQuotedChar(head + tail, tail);
      assert [cell[0]] + cell[1..] == cell;
    }
  }

  /** The first character of a cell, doubled if it is a quote, then the rest of the cell escaped. */
  lemma DoubleQuotesHead(cell: string)
    requires cell != []
    ensures DoubleQuotes(cell) == (if cell[0] == '"' then "\"\"" else [cell[0]]) + DoubleQuotes(cell[1..])
  {
  }

  /** A doubled quote reads as one quote, then the rest is read. */
  lemma ReadQuotedPair(s: string, tail: string)
    requires s == "\"\"" + tail && ReadQuoted(tail).Some?
    ensures ReadQuoted(s).Some? && ReadQuoted(s).value.cell == "\"" + ReadQuoted(tail).value.cell
    ensures ReadQuoted(s).value.rest == ReadQuoted(tail).value.rest
  {
    assert s[2..] == tail;
  }

  /** Any other character is kept, then the rest is read. */
  lemma ReadQuotedChar(s: string, tail: string)
    requires s != [] && s[0] != '"' && s[1..] == tail && ReadQuoted(tail).Some?
    ensures ReadQuoted(s).Some? && ReadQuoted(s).value.cell == [s[0]] + ReadQuoted(tail).value.cell
    ensures ReadQuoted(s).value.rest == ReadQuoted(tail).value.rest
  {
  }

  /** Reading a line of escaped cells gives the cells back. */
  lemma {:induction false} DecodeRecordLine(cells: seq<string>)
    requires |cells| >= 1
    ensures DecodeRecord(RecordLine(cells)).Some? && DecodeRecord(RecordLine(cells)).value == cells
    decreases |cells|
  {
    var line := RecordLine(cells);
    if |cells| == 1 {
      RecordLineOne(cells);
      ReadEscaped(cells[0], []);
      DecodeRecordLast(line, cells[0]);
      assert cells == [cells[0]];
    } else {
      var tail := RecordLine(cells[1..]);
      RecordLineMore(cells);
      ReadEscaped(cells[0], [','] + tail);
      DecodeRecordLine(cells[1..]);
      DecodeRecordMore(line, cells[0], tail, cells[1..]);
      assert cells == [cells[0]] + cells[1..];
    }
  }

  lemma RecordLineOne(cells: seq<string>)
    requires |cells| == 1
    ensures RecordLine(cells) != [] && RecordLine(cells)[0] == '"'
    ensures RecordLine(cells)[1..] == DoubleQuotes(cells[0]) + "\"" + []
  {
    assert EscapeAll(cells) == [EscapeCell(cells[0])];
  }

  lemma RecordLineMore(cells: seq<string>)
    requires |cells| >= 2
    ensures RecordLine(cells) != [] && RecordLine(cells)[0] == '"'
    ensures RecordLine(cells)[1..] == DoubleQuotes(cells[0]) + "\"" + ([','] + RecordLine(cells[1..]))
  {
    var es := EscapeAll(cells);
    assert es == [EscapeCell(cells[0])] + EscapeAll(cells[1..]);
    assert |EscapeAll(cells[1..])| >= 1;
    assert Join(es, ',') == es[0] + [','] + Join(es[1..], ',');
  }

  /** The last cell of a record: a quoted field that ends the line. */
  lemma DecodeRecordLast(s: string, cell: string)
    requires s != [] && s[0] == '"'
    requires var r := ReadQuoted(s[1..]); r.Some? && r.value.cell == cell && r.value.rest == []
    ensures DecodeRecord(s).Some? && DecodeRecord(s).value == [cell]
  {
  }

  /** A quoted field followed by a comma and the rest of the record. */
  lemma DecodeRecordMore(s: string, cell: string, tail: string, cells: seq<string>)
    requires s != [] && s[0] == '"'
    requires var r := ReadQuoted(s[1..]); r.Some? && r.value.cell == cell && r.value.rest == [','] + tail
    requires DecodeRecord(tail).Some? && DecodeRecord(tail).value == cells
    ensures DecodeRecord(s).Some? && DecodeRecord(s).value == [cell] + cells
  {
    assert ([','] + tail)[1..] == tail;
  }

  /** A line of escaped cells contains a newline only where one of the cells does. */
  lemma {:induction false} RecordLineNewline(cells: seq<string>)
    requires forall k :: 0 <= k < |cells| ==> '\n' !in cells[k]
    ensures '\n' !in RecordLine(cells)
    decreases |cells|
  {
    if |cells| > 0 {
      DoubleQuotesNewline(cells[0]);
      assert '\n' !in EscapeCell(cells[0]);
    }
    if |cells| > 1 {
      RecordLineNewline(cells[1..]);
      assert EscapeAll(cells) == [EscapeCell(cells[0])] + EscapeAll(cells[1..]);
    } else if |cells| == 1 {
      assert EscapeAll(cells) == [EscapeCell(cells[0])];
    }
  }

  /** `csv.split("\n")` with every line read as a record. */
  function DecodeCsv(csv: string): Option<seq<seq<string>>> {
    DecodeLines(Split(csv, '\n'))
  }

  /** Every line read as a record, or `None` if one of them is not a record. */
  function DecodeLines(lines: seq<string>): (r: Option<seq<seq<string>>>)
    ensures r.Some? ==> |r.value| == |lines|
    decreases |lines|
  {
    if lines == [] then Some([])
    else
      match DecodeRecord(lines[0])
      case None => None
      case Some(cells) =>
        match DecodeLines(lines[1..])
        case None => None
        case Some(rest) => Some([cells] + rest)
  }

  lemma {:induction false} DecodeCsvLines(table: seq<seq<string>>)
    requires forall k :: 0 <= k < |table| ==> |table[k]| >= 1
    ensures DecodeLines(CsvLines(table)).Some? && DecodeLines(CsvLines(table)).value == table
    decreases |table|
  {
    if table != [] {
      DecodeRecordLine(table[0]);
      DecodeCsvLines(table[1..]);
      assert CsvLines(table)[1..] == CsvLines(table[1..]);
      assert table == [table[0]] + table[1..];
    }
  }

  /** A row none of whose text fields holds a newline. */
  predicate NoNewline(t: Transaction) {
    '\n' !in t.date && '\n' !in t.time && '\n' !in t.currency && '\n' !in t.description && '\n' !in t.forexRate
  }

  lemma CellNoNewline(t: Transaction, c: Column)
    requires NoNewline(t)
    ensures '\n' !in CellText(t, c)
  {
    if c == AmountCol {
      AmountCellNoNewline(t.amount);
    } else if c == ForexAmountCol {
      AmountCellNoNewline(t.forexAmount);
    } else if c == TypeCol {
      assert CellText(t, c) == "Cr" || CellText(t, c) == "Dr";
    }
  }

  lemma ColumnNameNoNewline(c: Column)
    ensures '\n' !in ColumnName(c)
  {
  }

  /** No cell of the table holds a newline when no field of a row does. */
  lemma TableNoNewline(rows: seq<Transaction>, format: Format)
    requires forall k :: 0 <= k < |rows| ==> NoNewline(rows[k])
    ensures forall k, j :: 0 <= k < |Table(rows, format)| && 0 <= j < |Table(rows, format)[k]| ==> '\n' !in Table(rows, format)[k][j]
  {
    var table := Table(rows, format);
    forall k, j | 0 <= k < |table| && 0 <= j < |table[k]| ensures '\n' !in table[k][j] {
      var c := ColumnsFor(format)[j];
      if k > 0 {
        assert table[k][j] == CellText(rows[k - 1], c);
        CellNoNewline(rows[k - 1], c);
      } else {
        assert table[k][j] == ColumnName(c);
        ColumnNameNoNewline(c);
      }
    }
  }

  lemma AmountCellNoNewline(v: Option<nat>)
    ensures '\n' !in AmountCell(v)
  {
    if v.Some? {
      ShowDecimalChars(v.value);
    }
  }

  /**
   * When no field holds a newline the file has a header line and one line per
   * row, and reading it back (splitting at newlines, then each line at its
   * quoted cells) gives the column names and every row's cells.
   */
  lemma CsvRoundTrip(rows: seq<Transaction>, format: Format)
    requires forall k :: 0 <= k < |rows| ==> NoNewline(rows[k])
    ensures |Split(CsvText(rows, format), '\n')| == |rows| + 1
    ensures DecodeCsv(CsvText(rows, format)).Some? && DecodeCsv(CsvText(rows, format)).value == Table(rows, format)
  {
    var table := Table(rows, format);
    var lines := CsvLines(table);
    TableNoNewline(rows, format);
    forall k | 0 <= k < |lines| ensures '\n' !in lines[k] {
      RecordLineNewline(table[k]);
    }
    SplitJoin(lines, '\n');
    DecodeCsvLines(table);
  }
}
