/**
 * The two file-name rules of the page: which dropped or chosen files are
 * taken up (app.js:432-440) and the name the CSV download gets (app.js:385).
 */
module Files {
  import opened Options
  import opened Text

  /** `s` ends with `suffix` (written in lower case) when ASCII letters are compared without case. */
  predicate EndsWithIgnoreCase(s: string, suffix: string) {
    |s| >= |suffix| && forall j :: 0 <= j < |suffix| ==> LowerAscii(s[|s| - |suffix| + j]) == suffix[j]
  }

  /** `name.toLowerCase().endsWith(".pdf")`, and equally `/\.pdf$/i.test(name)`. */
  predicate IsPdfName(name: string) {
    EndsWithIgnoreCase(name, ".pdf")
  }

  /** `name.replace(/\.pdf$/i, "") + ".csv"`: a final `.pdf` in any case is swapped for `.csv`, any other name gets `.csv` added. */
  function CsvFileName(name: string): (r: string)
    ensures |r| >= 4 && r[|r| - 4..] == ".csv"
    ensures IsPdfName(name) ==> r[..|r| - 4] == name[..|name| - 4]
    ensures !IsPdfName(name) ==> r[..|r| - 4] == name
  {
    if IsPdfName(name) then name[..|name| - 4] + ".csv" else name + ".csv"
  }

  /** A base name with a `.pdf` extension, in any case, downloads as that base name with `.csv`. */
  lemma CsvNameOfPdf(base: string, ext: string)
    requires |ext| == 4 && EndsWithIgnoreCase(ext, ".pdf")
    ensures CsvFileName(base + ext) == base + ".csv"
  {
    var name := base + ext;
    assert forall j :: 0 <= j < 4 ==> name[|name| - 4 + j] == ext[j];
    assert name[..|name| - 4] == base;
  }

  /** The CSV name is never itself taken for a PDF. */
  lemma CsvNameIsNotPdf(name: string)
    ensures !IsPdfName(CsvFileName(name))
  {
    var r := CsvFileName(name);
    assert r[|r| - 3] == r[|r| - 4..][1] == ".csv"[1] == 'c';
    assert LowerAscii(r[|r| - 4 + 1]) != ".pdf"[1];
  }

  /** The names of the entries taken up, in order: every entry that is present and named like a PDF. */
  function AcceptedNames(files: seq<Option<string>>): seq<string>
    decreases |files|
  {
    if files == [] then []
    else
      var last := files[|files| - 1];
      AcceptedNames(files[..|files| - 1]) + (if last.Some? && IsPdfName(last.value) then [last.value] else [])
  }

  /** `acceptFiles(fileListLike)`: the entries a tile is created for, in order; absent entries and other files are skipped. */
  method AcceptFiles(files: seq<Option<string>>) returns (tiles: seq<string>)
    ensures tiles == AcceptedNames(files)
  {
    tiles := [];
    for i := 0 to |files|
      invariant tiles == AcceptedNames(files[..i])
    {
      assert files[..i + 1][..i] == files[..i];
      var file := files[i];
      if file.None? || !IsPdfName(file.value) {
        continue;
      }
      tiles := tiles + [file.value];
    }
    assert files[..|files|] == files;
  }

  /** A name is taken up exactly when some present entry has it and it is named like a PDF. */
  lemma {:induction false} AcceptedNamesExactly(files: seq<Option<string>>, name: string)
    ensures name in AcceptedNames(files) <==> IsPdfName(name) && exists k :: 0 <= k < |files| && files[k] == Some(name)
    decreases |files|
  {
    if files != [] {
      var init := files[..|files| - 1];
      AcceptedNamesExactly(init, name);
      if exists k :: 0 <= k < |init| && init[k] == Some(name) {
        var k :| 0 <= k < |init| && init[k] == Some(name);
        assert files[k] == Some(name);
      }
      if exists k :: 0 <= k < |files| && files[k] == Some(name) {
        var k :| 0 <= k < |files| && files[k] == Some(name);
        if k < |init| {
          assert init[k] == Some(name);
        }
      }
    }
  }

  /** At most one tile per entry. */
  lemma {:induction false} AcceptedNamesLength(files: seq<Option<string>>)
    ensures |AcceptedNames(files)| <= |files|
    decreases |files|
  {
    if files != [] {
      AcceptedNamesLength(files[..|files| - 1]);
    }
  }
}
