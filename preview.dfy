/**
 * The paginated CSV preview of a file tile (app.js:309-345, 390): twenty rows
 * a page, the current page clamped into range at every render, and the
 * Previous / Next buttons that step it.
 */
module Preview {
  import opened Options
  import opened Transactions
  import opened Statement

  /** `PAGE_SIZE` */
  const PageSize: nat := 20

  /** `Math.max(1, Math.ceil(n / PAGE_SIZE))`: the fewest pages of twenty that hold `n` rows, and at least one. */
  function TotalPages(n: nat): (p: nat)
    ensures p >= 1 && n <= p * PageSize
    ensures n > 0 ==> (p - 1) * PageSize < n
    ensures n == 0 ==> p == 1
  {
    if n == 0 then 1 else (n + PageSize - 1) / PageSize
  }

  /** `Math.min(Math.max(1, page), totalPages)`. */
  function ClampPage(page: int, total: nat): (p: nat)
    requires total >= 1
    ensures 1 <= p <= total
    ensures 1 <= page <= total ==> p == page
    ensures page < 1 ==> p == 1
    ensures page > total ==> p == total
  {
    if page < 1 then 1 else if page > total then total else page
  }

  /** The rows `[start, end)` a page shows. */
  datatype Window = Window(start: nat, end: nat)

  /** `start = (page - 1) * PAGE_SIZE` and `end = Math.min(start + PAGE_SIZE, n)`. */
  function PageWindow(n: nat, page: nat): (w: Window)
    requires 1 <= page <= TotalPages(n)
    ensures w.start == (page - 1) * PageSize
    ensures w.start <= w.end <= n && w.end - w.start <= PageSize
    ensures page < TotalPages(n) ==> w.end - w.start == PageSize
    ensures n > 0 ==> w.start < w.end
  {
    var start := (page - 1) * PageSize;
    Window(start, if start + PageSize <= n then start + PageSize else n)
  }

  /** `parsedRows.slice(start, end)` for a page. */
  function PageRows(rows: seq<Transaction>, page: nat): (shown: seq<Transaction>)
    requires 1 <= page <= TotalPages(|rows|)
    ensures 1 <= |shown| <= PageSize || (rows == [] && shown == [])
  {
    var w := PageWindow(|rows|, page);
    rows[w.start..w.end]
  }

  /** Pages `1` to `k`, one after the other. */
  function PagesUpTo(rows: seq<Transaction>, k: nat): seq<Transaction>
    requires k <= TotalPages(|rows|)
  {
    if k == 0 then [] else PagesUpTo(rows, k - 1) + PageRows(rows, k)
  }

  /** The first `k` pages are the first `20 k` rows, or all of them. */
  lemma {:induction false} PagesUpToPrefix(rows: seq<Transaction>, k: nat)
    requires k <= TotalPages(|rows|)
    ensures PagesUpTo(rows, k) == rows[..if k * PageSize <= |rows| then k * PageSize else |rows|]
  {
    if k > 0 {
      PagesUpToPrefix(rows, k - 1);
      var w := PageWindow(|rows|, k);
      assert rows[..w.start] + rows[w.start..w.end] == rows[..w.end];
    }
  }

  /** The pages, read in order, are all the rows, each once. */
  lemma PagesCoverRows(rows: seq<Transaction>)
    ensures PagesUpTo(rows, TotalPages(|rows|)) == rows
  {
    PagesUpToPrefix(rows, TotalPages(|rows|));
    assert rows[..|rows|] == rows;
  }

  /** Forty-five rows make three pages; page three, and a request for page four, show rows 41 to 45. */
  lemma FortyFiveRows()
    ensures TotalPages(45) == 3
    ensures PageWindow(45, ClampPage(3, TotalPages(45))) == Window(40, 45)
    ensures PageWindow(45, ClampPage(4, TotalPages(45))) == Window(40, 45)
  {
  }

  /** The Previous button: one page back, not below the first. */
  function PrevPage(page: int): (p: int)
    ensures page >= 1 ==> p >= 1
    ensures page == 1 ==> p == page
    ensures page > 1 ==> p == page - 1
  {
    if page - 1 < 1 then 1 else page - 1
  }

  /** The Next button: one page on, not beyond the page count the last render showed. */
  function NextPage(page: int, total: nat): (p: int)
    ensures page <= total ==> p <= total
    ensures page == total ==> p == page
    ensures page < total ==> p == page + 1
  {
    if total < page + 1 then total else page + 1
  }

  /** The rows of the last successful parse and the parser that read them (`parsedRows`, `parsedFormat`). */
  datatype Loaded = Loaded(rows: seq<Transaction>, format: Format)

  /** What a render shows: the note that nothing is parsed yet, or one page and its navigation. */
  datatype View =
    | NotParsed
    | PageView(rows: seq<Transaction>, format: Format, page: nat, totalPages: nat,
               first: nat, last: nat, count: nat, prevDisabled: bool, nextDisabled: bool)

  /** A tile's preview: the parsed rows and the page the buttons move through. */
  class CsvPreview {
    var parsed: Option<Loaded>
    var currentPage: int
    /** The page count of the last render, which its Next button uses. */
    var shownTotal: nat

    predicate Valid()
      reads this
    {
      shownTotal >= 1
    }

    /** A new tile: nothing parsed, page one. */
    constructor ()
      ensures Valid() && parsed.None? && currentPage == 1
    {
      parsed := None;
      currentPage := 1;
      shownTotal := 1;
    }

    /** A parse that found rows: they and their parser are kept, and the page goes back to one (app.js:388-390). */
    method Load(rows: seq<Transaction>, format: Format)
      modifies this
      requires Valid()
      ensures Valid() && parsed == Some(Loaded(rows, format)) && currentPage == 1
      ensures shownTotal == old(shownTotal)
    {
      parsed := Some(Loaded(rows, format));
      currentPage := 1;
    }

    /**
     * `renderCsvPreviewIfReady`: with nothing parsed, the note and no change;
     * otherwise the page is clamped into range and its rows are shown, with
     * Previous disabled on the first page and Next on the last.
     */
    method Render() returns (v: View)
      modifies this
      requires Valid()
      ensures Valid() && parsed == old(parsed)
      ensures parsed.None? ==> v == NotParsed && currentPage == old(currentPage) && shownTotal == old(shownTotal)
      ensures parsed.Some? ==>
        var rows := parsed.value.rows;
        var total := TotalPages(|rows|);
        && shownTotal == total
        && currentPage == ClampPage(old(currentPage), total)
        && v.PageView? && v.rows == PageRows(rows, currentPage) && v.format == parsed.value.format
        && v.page == currentPage && v.totalPages == total && v.count == |rows|
        && v.first == PageWindow(|rows|, currentPage).start + 1 && v.last == PageWindow(|rows|, currentPage).end
        && (v.prevDisabled <==> currentPage == 1) && (v.nextDisabled <==> currentPage == total)
    {
      if parsed.None? {
        return NotParsed;
      }
      var rows := parsed.value.rows;
      var total := TotalPages(|rows|);
      currentPage := ClampPage(currentPage, total);
      var w := PageWindow(|rows|, currentPage);
      shownTotal := total;
      v := PageView(rows[w.start..w.end], parsed.value.format, currentPage, total,
                    w.start + 1, w.end, |rows|, currentPage == 1, currentPage == total);
    }

    /** What a render of the parsed rows leaves: the page count it showed, and the current page's rows and buttons. */
    ghost predicate RenderedPage(v: View)
      reads this
      requires parsed.Some?
    {
      var rows := parsed.value.rows;
      && shownTotal == TotalPages(|rows|) && 1 <= currentPage <= shownTotal
      && v.PageView? && v.page == currentPage && v.rows == PageRows(rows, currentPage)
      && v.totalPages == shownTotal && v.count == |rows|
      && (v.prevDisabled <==> currentPage == 1) && (v.nextDisabled <==> currentPage == shownTotal)
    }

    /** The Previous button: one page back, then render. */
    method Prev() returns (v: View)
      modifies this
      requires Valid() && parsed.Some?
      ensures Valid() && parsed == old(parsed)
      ensures currentPage == ClampPage(PrevPage(old(currentPage)), TotalPages(|parsed.value.rows|))
      ensures old(currentPage) == 1 ==> currentPage == 1
      ensures RenderedPage(v)
    {
      currentPage := PrevPage(currentPage);
      v := Render();
    }

    /** The Next button: one page on, within the page count of the last render, then render. */
    method Next() returns (v: View)
      modifies this
      requires Valid() && parsed.Some?
      ensures Valid() && parsed == old(parsed)
      ensures currentPage == ClampPage(NextPage(old(currentPage), old(shownTotal)), TotalPages(|parsed.value.rows|))
      ensures old(shownTotal) == TotalPages(|parsed.value.rows|) && 1 <= old(currentPage) == old(shownTotal) ==>
        currentPage == old(currentPage)
      ensures RenderedPage(v)
    {
      currentPage := NextPage(currentPage, shownTotal);
      v := Render();
    }
  }

  /** Forty-five rows loaded, rendered, then Next clicked twice: the preview is on page three, the last, with rows 41 to 45. */
  method NextTwiceOnFortyFive(p: CsvPreview, rows: seq<Transaction>, format: Format) returns (v: View)
    modifies p
    requires p.Valid() && |rows| == 45
    ensures p.currentPage == 3 && v.PageView? && v.rows == rows[40..45] && v.nextDisabled
  {
    p.Load(rows, format);
    v := p.Render();
    v := p.Next();
    v := p.Next();
  }
}
