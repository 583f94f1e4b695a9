/** What `pdf_to_csv` promises, proved about the specification functions of `DocParser`
    (and so, through `DocParser.PdfToCsv`'s postcondition, about the procedure). */
module DocParserProperties {
  import opened PyStr
  import opened DocParser

  // ---------------------------------------------------------------- one page at a time

  /** The rows of a document are those of the pages before a page, that page's, and those
      of the pages after it. */
  lemma RowsAround(pre: seq<Page>, p: Page, post: seq<Page>)
    ensures Rows(pre + [p] + post) == Rows(pre) + PageRows(p) + Rows(post)
  {
    assert Rows([p]) == PageRows(p) by {
      assert [p][..0] == [];
    }
    calc {
      Rows(pre + [p] + post);
      { RowsAppend(pre + [p], post); }
      Rows(pre + [p]) + Rows(post);
      { RowsAppend(pre, [p]); }
      Rows(pre) + PageRows(p) + Rows(post);
    }
  }

  /** The same for the OCR fragments. */
  lemma FragmentsAround(pre: seq<Page>, p: Page, post: seq<Page>)
    ensures Fragments(pre + [p] + post) == Fragments(pre) + PageFragments(p) + Fragments(post)
  {
    assert Fragments([p]) == PageFragments(p) by {
      assert [p][..0] == [];
    }
    calc {
      Fragments(pre + [p] + post);
      { FragmentsAppend(pre + [p], post); }
      Fragments(pre + [p]) + Fragments(post);
      { FragmentsAppend(pre, [p]); }
      Fragments(pre) + PageFragments(p) + Fragments(post);
    }
  }

  /** A page whose processing raises adds nothing, and the pages after it are processed
      as if it were not there. Processing raises either in table extraction or, when no
      table was found, in rendering or OCR. */
  lemma ErrorPageSkipped(pre: seq<Page>, p: Page, post: seq<Page>)
    requires p.table.Raised? || (p.table == Returned([]) && p.ocr.Raised?)
    ensures Rows(pre + [p] + post) == Rows(pre + post)
    ensures Fragments(pre + [p] + post) == Fragments(pre + post)
  {
    assert PageRows(p) == [] && PageFragments(p) == [];
    calc {
      Rows(pre + [p] + post);
      { RowsAround(pre, p, post); }
      Rows(pre) + [] + Rows(post);
      { RowsAppend(pre, post); }
      Rows(pre + post);
    }
    calc {
      Fragments(pre + [p] + post);
      { FragmentsAround(pre, p, post); }
      Fragments(pre) + [] + Fragments(post);
      { FragmentsAppend(pre, post); }
      Fragments(pre + post);
    }
  }

  /** A page with a non-empty table adds all its rows, in order, after those of the
      earlier pages, and no OCR fragment, whatever OCR would have done on it. */
  lemma TablePageContributes(pre: seq<Page>, p: Page, post: seq<Page>)
    requires TableFound(p)
    ensures Rows(pre + [p] + post) == Rows(pre) + p.table.value + Rows(post)
    ensures Fragments(pre + [p] + post) == Fragments(pre + post)
  {
    RowsAround(pre, p, post);
    FragmentsAround(pre, p, post);
    FragmentsAppend(pre, post);
  }

  /** A page without a table adds no rows; it adds its OCR text as one fragment exactly when
      OCR returned text that is not blank. */
  lemma TextPageContributes(pre: seq<Page>, p: Page, post: seq<Page>)
    requires !TableFound(p)
    ensures Rows(pre + [p] + post) == Rows(pre + post)
    ensures Fragments(pre + [p] + post) ==
      Fragments(pre) + (if p.table.Returned? && p.ocr.Returned? && !IsBlank(p.ocr.value)
                        then [p.ocr.value] else []) + Fragments(post)
  {
    RowsAround(pre, p, post);
    FragmentsAround(pre, p, post);
    RowsAppend(pre, post);
  }

  // ---------------------------------------------------------------- when nothing is found

  lemma {:induction false} RowsEmpty(pages: seq<Page>)
    ensures Rows(pages) == [] <==> forall i :: 0 <= i < |pages| ==> !TableFound(pages[i])
    decreases |pages|
  {
    if pages != [] {
      var init := pages[..|pages| - 1];
      RowsEmpty(init);
      assert forall i :: 0 <= i < |init| ==> init[i] == pages[i];
    }
  }

  lemma {:induction false} FragmentsEmpty(pages: seq<Page>)
    ensures Fragments(pages) == [] <==> forall i :: 0 <= i < |pages| ==> !TextFound(pages[i])
    decreases |pages|
  {
    if pages != [] {
      var init := pages[..|pages| - 1];
      FragmentsEmpty(init);
      assert forall i :: 0 <= i < |init| ==> init[i] == pages[i];
    }
  }

  /** The conversion fails with "no data extracted" exactly when, on a readable document,
      no page has a table and no page has non-blank OCR text. */
  lemma NoDataFails(pages: seq<Page>, outputCsv: string, env: Environment)
    ensures (Rows(pages) == [] && Fragments(pages) == []) <==>
            forall i :: 0 <= i < |pages| ==> !TableFound(pages[i]) && !TextFound(pages[i])
    ensures (forall i :: 0 <= i < |pages| ==> !TableFound(pages[i]) && !TextFound(pages[i])) ==>
            Convert(Readable(pages), outputCsv, env) == Fail
  {
    RowsEmpty(pages);
    FragmentsEmpty(pages);
  }

  // ---------------------------------------------------------------- tables take priority

  /** The rows collected depend only on what table extraction does on each page. */
  lemma {:induction false} RowsIgnoreOcr(pages: seq<Page>, other: seq<Page>)
    requires |pages| == |other|
    requires forall i :: 0 <= i < |pages| ==> pages[i].table == other[i].table
    ensures Rows(pages) == Rows(other)
    decreases |pages|
  {
    if pages != [] {
      var n := |pages| - 1;
      RowsIgnoreOcr(pages[..n], other[..n]);
    }
  }

  /** Once any page yields table rows, OCR is ignored: the result is not the OCR lines, and
      changing what OCR does on any page does not change it. */
  lemma TablesWin(pages: seq<Page>, other: seq<Page>, outputCsv: string, env: Environment)
    requires |pages| == |other|
    requires forall i :: 0 <= i < |pages| ==> pages[i].table == other[i].table
    requires exists i :: 0 <= i < |pages| && TableFound(pages[i])
    ensures !Convert(Readable(pages), outputCsv, env).LinesOut?
    ensures Convert(Readable(pages), outputCsv, env) == Convert(Readable(other), outputCsv, env)
  {
    RowsEmpty(pages);
    RowsIgnoreOcr(pages, other);
  }

  // ---------------------------------------------------------------- the table artifact

  /** Total number of rows over the pages' tables. */
  function TableRowCount(pages: seq<Page>): nat {
    if pages == [] then 0 else TableRowCount(pages[..|pages| - 1]) + |PageRows(pages[|pages| - 1])|
  }

  lemma {:induction false} RowsCount(pages: seq<Page>)
    ensures |Rows(pages)| == TableRowCount(pages)
    decreases |pages|
  {
    if pages != [] {
      RowsCount(pages[..|pages| - 1]);
    }
  }

  /** The first row of every page's table is among the rows collected. */
  lemma FirstRowCollected(pages: seq<Page>, k: nat)
    requires k < |pages| && TableFound(pages[k])
    ensures pages[k].table.value[0] in Rows(pages)
  {
    var p := pages[k];
    assert pages == pages[..k] + [p] + pages[k + 1..];
    TablePageContributes(pages[..k], p, pages[k + 1..]);
    assert Rows(pages)[|Rows(pages[..k])|] == p.table.value[0];
  }

  /** The rows of a document whose first page has a table: that table's first row, then
      the rest of that table and the rows of the later pages. */
  lemma FirstTableRows(first: Page, rest: seq<Page>)
    requires TableFound(first)
    ensures var t := first.table.value;
      Rows([first] + rest) == [t[0]] + (t[1..] + Rows(rest))
  {
    var t := first.table.value;
    calc {
      Rows([first] + rest);
      { assert [first] + rest == [] + [first] + rest; }
      Rows([] + [first] + rest);
      { TablePageContributes([], first, rest); }
      Rows([]) + t + Rows(rest);
      { assert Rows([]) + t == t; }
      t + Rows(rest);
      { assert t == [t[0]] + t[1..]; }
      [t[0]] + t[1..] + Rows(rest);
      [t[0]] + (t[1..] + Rows(rest));
    }
  }

  /** When every page has a table: the header is the first row of the first page's table;
      the body is the rest of that table followed by every later page's rows, their own
      header rows included, so there are N - 1 body rows for N rows in all. */
  lemma MultiPageTable(first: Page, rest: seq<Page>, outputCsv: string, env: Environment)
    requires TableFound(first)
    requires forall i :: 0 <= i < |rest| ==> TableFound(rest[i])
    ensures var t := first.table.value;
      var body := t[1..] + Rows(rest);
      && Convert(Readable([first] + rest), outputCsv, env) ==
           (if env.frameBuilds(t[0], body) && env.fileWritable
            then TableOut(outputCsv, t[0], body) else Fail)
      && |body| + 1 == TableRowCount([first] + rest)
      && forall k :: 0 <= k < |rest| ==> TableFound(rest[k]) && rest[k].table.value[0] in body
  {
    var t := first.table.value;
    var pages := [first] + rest;
    var body := t[1..] + Rows(rest);
    FirstTableRows(first, rest);
    assert Rows(pages)[0] == t[0];
    RowsCount(pages);
    assert Rows(pages)[1..] == body;
    forall k | 0 <= k < |rest|
      ensures TableFound(rest[k]) && rest[k].table.value[0] in body
    {
      FirstRowCollected(rest, k);
    }
  }

  // ---------------------------------------------------------------- the OCR artifact

  lemma OcrOutputAppend(a: seq<string>, b: seq<string>)
    ensures OcrOutput(a + b) == OcrOutput(a) + OcrOutput(b)
  {
    AllLinesAppend(a, b);
    NonBlankAppend(AllLines(a), AllLines(b));
    WrittenAppend(NonBlank(AllLines(a)), NonBlank(AllLines(b)));
  }

  /** Pages are written in page order: the OCR lines of a document are those of its first
      pages followed by those of the remaining pages. */
  lemma OcrPageOrder(pre: seq<Page>, post: seq<Page>)
    ensures OcrOutput(Fragments(pre + post)) == OcrOutput(Fragments(pre)) + OcrOutput(Fragments(post))
  {
    FragmentsAppend(pre, post);
    OcrOutputAppend(Fragments(pre), Fragments(post));
  }

  lemma {:induction false} NonBlankKeepsOnlyNonBlank(lines: seq<string>)
    ensures forall x :: x in NonBlank(lines) ==> x in lines && !IsBlank(x)
    decreases |lines|
  {
    if lines != [] {
      var init := lines[..|lines| - 1];
      NonBlankKeepsOnlyNonBlank(init);
      assert forall x :: x in init ==> x in lines;
    }
  }

  /** Every non-blank line of the input is kept. */
  lemma {:induction false} NonBlankKeepsNonBlank(lines: seq<string>, k: nat)
    requires k < |lines| && !IsBlank(lines[k])
    ensures lines[k] in NonBlank(lines)
    decreases |lines|
  {
    var n := |lines| - 1;
    if k < n {
      assert lines[..n][k] == lines[k];
      NonBlankKeepsNonBlank(lines[..n], k);
    }
  }

  lemma {:induction false} AllLinesHaveNoBreak(frags: seq<string>)
    ensures forall x :: x in AllLines(frags) ==> NoBreak(x)
    decreases |frags|
  {
    if frags != [] {
      AllLinesHaveNoBreak(frags[..|frags| - 1]);
      SplitLinesNoBreak(frags[|frags| - 1]);
    }
  }

  lemma {:induction false} WrittenAt(lines: seq<string>, k: nat)
    requires k < |lines|
    ensures |Written(lines)| == |lines| && Written(lines)[k] == ReplaceTabs(lines[k]) + "\n"
    decreases |lines|
  {
    var n := |lines| - 1;
    WrittenLength(lines[..n]);
    if k < n {
      WrittenAt(lines[..n], k);
    }
  }

  lemma {:induction false} WrittenLength(lines: seq<string>)
    ensures |Written(lines)| == |lines|
    decreases |lines|
  {
    if lines != [] {
      WrittenLength(lines[..|lines| - 1]);
    }
  }

  /** Every line written on the OCR path is a non-blank line of some fragment with its tabs
      turned into commas, followed by one newline: it holds no tab and no other line
      boundary, and it has a visible character. */
  lemma OcrLineShape(frags: seq<string>, k: nat)
    requires k < |OcrOutput(frags)|
    ensures var w := OcrOutput(frags)[k];
      && |w| > 0 && w[|w| - 1] == '\n'
      && (forall j :: 0 <= j < |w| - 1 ==> w[j] != '\t' && !IsLineBreak(w[j]))
      && !IsBlank(w[..|w| - 1])
  {
    var kept := NonBlank(AllLines(frags));
    WrittenLength(kept);
    WrittenAt(kept, k);
    var line := kept[k];
    var w := OcrOutput(frags)[k];
    NonBlankKeepsOnlyNonBlank(AllLines(frags));
    AllLinesHaveNoBreak(frags);
    assert line in kept;
    assert w[..|w| - 1] == ReplaceTabs(line);
    var v :| 0 <= v < |line| && !IsSpace(line[v]);
    assert ReplaceTabs(line)[v] == line[v];
    NotBlankAt(ReplaceTabs(line), v);
  }

  /** Each fragment kept is non-blank, so it yields at least one written line: the OCR
      artifact has at least as many lines as there are fragments. */
  lemma {:induction false} OcrOutputCoversFragments(frags: seq<string>)
    requires forall i :: 0 <= i < |frags| ==> !IsBlank(frags[i])
    ensures |OcrOutput(frags)| >= |frags|
    decreases |frags|
  {
    if frags != [] {
      var n := |frags| - 1;
      var init, last := frags[..n], frags[n];
      assert frags == init + [last];
      assert forall i :: 0 <= i < |init| ==> init[i] == frags[i];
      OcrOutputCoversFragments(init);
      OcrOutputAppend(init, [last]);
      var k := NonBlankHasNonBlankLine(last);
      assert AllLines([last]) == SplitLines(last) by {
        assert [last][..0] == [];
      }
      NonBlankKeepsNonBlank(SplitLines(last), k);
      WrittenLength(NonBlank(SplitLines(last)));
      assert |OcrOutput([last])| >= 1;
    }
  }

  lemma {:induction false} FragmentsAreNonBlank(pages: seq<Page>)
    ensures forall i :: 0 <= i < |Fragments(pages)| ==> !IsBlank(Fragments(pages)[i])
    decreases |pages|
  {
    if pages != [] {
      FragmentsAreNonBlank(pages[..|pages| - 1]);
    }
  }

  /** With no table rows and some OCR text, a writable output gets the OCR lines, and
      there is at least one line per page that gave text. */
  lemma OcrFallback(pages: seq<Page>, outputCsv: string, env: Environment)
    requires forall i :: 0 <= i < |pages| ==> !TableFound(pages[i])
    requires exists i :: 0 <= i < |pages| && TextFound(pages[i])
    requires env.fileWritable
    ensures Convert(Readable(pages), outputCsv, env) == LinesOut(outputCsv, OcrOutput(Fragments(pages)))
    ensures |OcrOutput(Fragments(pages))| >= |Fragments(pages)| > 0
  {
    RowsEmpty(pages);
    FragmentsEmpty(pages);
    FragmentsAreNonBlank(pages);
    OcrOutputCoversFragments(Fragments(pages));
  }

  // ---------------------------------------------------------------- no text lost

  lemma {:induction false} VisibleDropsBlankLines(lines: seq<string>)
    ensures Visible(Concat(NonBlank(lines))) == Visible(Concat(lines))
    decreases |lines|
  {
    if lines != [] {
      var n := |lines| - 1;
      var init, last := lines[..n], lines[n];
      assert lines == init + [last];
      assert Concat([last]) == last by {
        assert [last][1..] == [];
      }
      calc {
        Visible(Concat(lines));
        { ConcatAppend(init, [last]); }
        Visible(Concat(init) + last);
        { VisibleAppend(Concat(init), last); }
        Visible(Concat(init)) + Visible(last);
        { VisibleDropsBlankLines(init); }
        Visible(Concat(NonBlank(init))) + Visible(last);
      }
      if IsBlank(last) {
        VisibleOfBlank(last);
        assert NonBlank(lines) == NonBlank(init);
      } else {
        calc {
          Visible(Concat(NonBlank(lines)));
          Visible(Concat(NonBlank(init) + [last]));
          { ConcatAppend(NonBlank(init), [last]); }
          Visible(Concat(NonBlank(init)) + last);
          { VisibleAppend(Concat(NonBlank(init)), last); }
          Visible(Concat(NonBlank(init))) + Visible(last);
        }
      }
    }
  }

  /** The same for the lines of one fragment: they keep its visible characters. */
  lemma SplitLinesKeepVisibleText(text: string)
    ensures Visible(Concat(NonBlank(SplitLines(text)))) == Visible(text)
  {
    VisibleDropsBlankLines(SplitLines(text));
    SplitLinesConcat(text);
    VisibleRemoveBreaks(text);
  }

  /** Dropping blank lines and line boundaries loses no visible character: the kept lines,
      joined, have exactly the visible characters of the fragments, in order. Each written
      line is such a kept line with its tabs turned into commas (OcrLineShape). */
  lemma {:induction false} OcrKeepsVisibleText(frags: seq<string>)
    ensures Visible(Concat(NonBlank(AllLines(frags)))) == Visible(Concat(frags))
    decreases |frags|
  {
    if frags != [] {
      var n := |frags| - 1;
      var init, last := frags[..n], frags[n];
      assert frags == init + [last];
      assert Concat([last]) == last by {
        assert [last][1..] == [];
      }
      var before := NonBlank(AllLines(init));
      var now := NonBlank(SplitLines(last));
      calc {
        Visible(Concat(NonBlank(AllLines(frags))));
        { NonBlankAppend(AllLines(init), SplitLines(last)); }
        Visible(Concat(before + now));
        { ConcatAppend(before, now); }
        Visible(Concat(before) + Concat(now));
        { VisibleAppend(Concat(before), Concat(now)); }
        Visible(Concat(before)) + Visible(Concat(now));
        { OcrKeepsVisibleText(init); SplitLinesKeepVisibleText(last); }
        Visible(Concat(init)) + Visible(last);
        { VisibleAppend(Concat(init), last); }
        Visible(Concat(init) + last);
        { ConcatAppend(init, [last]); }
        Visible(Concat(frags));
      }
    }
  }
}
