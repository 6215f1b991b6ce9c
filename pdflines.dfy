/**
 * The line assembly of `extractLinesFromPdf` (app.js:173-185): the text items
 * of each page are appended to a buffer, an item that ends a line pushes the
 * trimmed buffer, and what is left at the end of a page is pushed when it is
 * not blank. Loading the document and reading its items is not part of this
 * model; the items of every page are the input.
 */
module PdfLines {
  import opened Text

  /** A text item of a page: its string and whether a line ends after it. */
  datatype TextItem = TextItem(str: string, hasEOL: bool)

  /** What is left in the buffer at the end of a page: pushed, trimmed, unless blank. */
  function Flush(buffer: string): (lines: seq<string>)
    ensures |lines| <= 1
    ensures forall k :: 0 <= k < |lines| ==> lines[k] != [] && IsTrimmed(lines[k])
  {
    if Trim(buffer) != [] then [Trim(buffer)] else []
  }

  /** The lines the rest `items` of a page yields when the buffer holds `buffer`. */
  function PageLines(items: seq<TextItem>, buffer: string): seq<string>
    decreases |items|
  {
    if items == [] then Flush(buffer)
    else
      var b := buffer + items[0].str;
      if items[0].hasEOL then [Trim(b)] + PageLines(items[1..], "")
      else PageLines(items[1..], b + " ")
  }

  /** The lines of all pages, page after page. */
  function AllLines(pages: seq<seq<TextItem>>): seq<string>
    decreases |pages|
  {
    if pages == [] then [] else AllLines(pages[..|pages| - 1]) + PageLines(pages[|pages| - 1], "")
  }

  /** One more item read. */
  lemma PageLinesStep(items: seq<TextItem>, i: nat, buffer: string)
    requires i < |items|
    ensures var b := buffer + items[i].str;
      PageLines(items[i..], buffer)
      == if items[i].hasEOL then [Trim(b)] + PageLines(items[i + 1..], "") else PageLines(items[i + 1..], b + " ")
  {
    assert items[i..][0] == items[i] && items[i..][1..] == items[i + 1..];
  }

  /** The loops of `extractLinesFromPdf` over the pages and their items. */
  method AssembleLines(pages: seq<seq<TextItem>>) returns (lines: seq<string>)
    ensures lines == AllLines(pages)
  {
    lines := [];
    for p := 0 to |pages|
      invariant lines == AllLines(pages[..p])
    {
      var items := pages[p];
      var buffer := "";
      assert items[0..] == items;
      for i := 0 to |items|
        invariant lines + PageLines(items[i..], buffer) == AllLines(pages[..p]) + PageLines(items, "")
      {
        PageLinesStep(items, i, buffer);
        buffer := buffer + items[i].str;
        if items[i].hasEOL {
          lines := lines + [Trim(buffer)];
          buffer := "";
        } else {
          buffer := buffer + " ";
        }
      }
      assert items[|items|..] == [];
      if Trim(buffer) != [] {
        lines := lines + [Trim(buffer)];
      }
      assert pages[..p + 1][..p] == pages[..p];
    }
    assert pages[..|pages|] == pages;
  }

  /** The number of items after which a line ends. */
  function CountEOL(items: seq<TextItem>): (n: nat)
    ensures n <= |items|
    decreases |items|
  {
    if items == [] then 0 else (if items[0].hasEOL then 1 else 0) + CountEOL(items[1..])
  }

  /**
   * Every line is trimmed, and a page gives one line per line end, plus one
   * more only when text follows the last line end; when the last item ends a
   * line there is exactly one line per line end.
   */
  lemma {:induction false} PageLinesShape(items: seq<TextItem>, buffer: string)
    ensures forall k :: 0 <= k < |PageLines(items, buffer)| ==> IsTrimmed(PageLines(items, buffer)[k])
    ensures CountEOL(items) <= |PageLines(items, buffer)| <= CountEOL(items) + 1
    ensures items != [] && items[|items| - 1].hasEOL ==> |PageLines(items, buffer)| == CountEOL(items)
    decreases |items|
  {
    if items != [] {
      var b := buffer + items[0].str;
      if items[0].hasEOL {
        PageLinesShape(items[1..], "");
        assert forall k :: 0 < k < |PageLines(items, buffer)| ==>
          PageLines(items, buffer)[k] == PageLines(items[1..], "")[k - 1];
      } else {
        PageLinesShape(items[1..], b + " ");
      }
      if |items| == 1 {
        assert items[1..] == [];
      } else {
        assert items[1..][|items[1..]| - 1] == items[|items| - 1];
      }
    }
  }

  /** The text of items joined as the buffer accumulates it: each string followed by a space. */
  function Spaced(items: seq<TextItem>): string
    decreases |items|
  {
    if items == [] then [] else items[0].str + " " + Spaced(items[1..])
  }

  lemma SpacedStep(items: seq<TextItem>, buffer: string)
    requires items != []
    ensures buffer + items[0].str + " " + Spaced(items[1..]) == buffer + Spaced(items)
  {
    Regroup(buffer, items[0].str, " ", Spaced(items[1..]));
  }

  /** Without line ends a page is one line: all its strings, spaced and trimmed, unless that is blank. */
  lemma {:induction false} NoEOLOneLine(items: seq<TextItem>, buffer: string)
    requires forall k :: 0 <= k < |items| ==> !items[k].hasEOL
    ensures PageLines(items, buffer) == Flush(buffer + Spaced(items))
    decreases |items|
  {
    if items == [] {
      assert buffer + [] == buffer;
    } else {
      var b := buffer + items[0].str + " ";
      SpacedStep(items, buffer);
      assert forall k :: 0 <= k < |items[1..]| ==> !items[1..][k].hasEOL by {
        forall k | 0 <= k < |items[1..]| ensures !items[1..][k].hasEOL { assert items[1..][k] == items[k + 1]; }
      }
      NoEOLOneLine(items[1..], b);
    }
  }
}
