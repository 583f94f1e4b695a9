/** `pdf_to_csv`: turn a PDF bank statement into a CSV artifact, preferring the tables a
    PDF table extractor finds on the pages and falling back, page by page, to OCR text.

    The PDF library, the OCR engine, pandas and the file system are foreign. A document is
    given by what those calls do on it: whether it opens, and for each page what table
    extraction and OCR of the rendered page return or whether they raise. Building the data
    frame, writing the CSV and opening the output file are given by an `Environment`. */
module DocParser {
  import opened PyStr

  datatype Option<+T> = None | Some(value: T)

  /** A table cell as the extractor yields it: its text, or `None` for an empty cell. */
  type Cell = Option<string>
  type Row = seq<Cell>

  /** The outcome of a foreign call: it raised an exception or returned a value. */
  datatype Attempt<+T> = Raised | Returned(value: T)

  /** One page, given by what `page.extract_table()` does on it (a page without a table
      returns the empty table; `None` and `[]` are both false to Python) and what OCR of
      the page rendered at 300 DPI does, should it be attempted. */
  datatype Page = Page(table: Attempt<seq<Row>>, ocr: Attempt<string>)

  /** `pdfplumber.open` either fails or yields the pages in order. */
  datatype Document = Unreadable | Readable(pages: seq<Page>)

  /** What the foreign output side does: whether pandas builds a data frame from a header
      and a body, and whether the output file can be opened and written. */
  datatype Environment = Environment(frameBuilds: (Row, seq<Row>) -> bool, fileWritable: bool)

  /** The outcome of a conversion: the returned path with what was written there, or
      failure (`None` in Python). `lines` are the successive `f.write` arguments. */
  datatype Conversion =
    | TableOut(path: string, header: Row, body: seq<Row>)
    | LinesOut(path: string, lines: seq<string>)
    | Fail

  // ---------------------------------------------------------------- per page

  /** The extractor returned a non-empty table (`if table:`). */
  predicate TableFound(p: Page) {
    p.table.Returned? && |p.table.value| > 0
  }

  /** No table was found and OCR returned text with a non-whitespace character. */
  predicate TextFound(p: Page) {
    p.table.Returned? && |p.table.value| == 0 && p.ocr.Returned? && !IsBlank(p.ocr.value)
  }

  /** The rows a page adds to `all_data`. */
  function PageRows(p: Page): seq<Row> {
    if TableFound(p) then p.table.value else []
  }

  /** The fragments a page adds to `ocr_texts`. */
  function PageFragments(p: Page): seq<string> {
    if TextFound(p) then [p.ocr.value] else []
  }

  // ---------------------------------------------------------------- whole document

  /** `all_data` once the given pages have been processed. */
  function Rows(pages: seq<Page>): seq<Row> {
    if pages == [] then [] else Rows(pages[..|pages| - 1]) + PageRows(pages[|pages| - 1])
  }

  /** `ocr_texts` once the given pages have been processed. */
  function Fragments(pages: seq<Page>): seq<string> {
    if pages == [] then [] else Fragments(pages[..|pages| - 1]) + PageFragments(pages[|pages| - 1])
  }

  /** Every line of every fragment, in fragment order and then line order. */
  function AllLines(frags: seq<string>): seq<string> {
    if frags == [] then [] else AllLines(frags[..|frags| - 1]) + SplitLines(frags[|frags| - 1])
  }

  /** The lines that are not blank, in order. */
  function NonBlank(lines: seq<string>): seq<string> {
    if lines == [] then []
    else NonBlank(lines[..|lines| - 1]) + (if IsBlank(lines[|lines| - 1]) then [] else [lines[|lines| - 1]])
  }

  /** What is written for each kept line: its tabs turned into commas, then a newline. */
  function Written(lines: seq<string>): seq<string> {
    if lines == [] then [] else Written(lines[..|lines| - 1]) + [ReplaceTabs(lines[|lines| - 1]) + "\n"]
  }

  /** The text written when the OCR fragments are saved line by line. */
  function OcrOutput(frags: seq<string>): seq<string> {
    Written(NonBlank(AllLines(frags)))
  }

  /** The result `pdf_to_csv(pdf_file, outputCsv)` returns, with the artifact it writes. */
  function Convert(doc: Document, outputCsv: string, env: Environment): (r: Conversion)
    ensures doc.Unreadable? ==> r == Fail
    ensures r.TableOut? ==> r.path == outputCsv && [r.header] + r.body == Rows(doc.pages)
    ensures r.LinesOut? ==>
      && r.path == outputCsv && Rows(doc.pages) == [] && Fragments(doc.pages) != []
      && r.lines == OcrOutput(Fragments(doc.pages))
    ensures r == Fail <==>
      || doc.Unreadable?
      || (Rows(doc.pages) != [] &&
          !(env.frameBuilds(Rows(doc.pages)[0], Rows(doc.pages)[1..]) && env.fileWritable))
      || (Rows(doc.pages) == [] && (Fragments(doc.pages) == [] || !env.fileWritable))
  {
    match doc
    case Unreadable => Fail
    case Readable(pages) =>
      var rows := Rows(pages);
      var frags := Fragments(pages);
      if |rows| > 0 then
        if env.frameBuilds(rows[0], rows[1..]) && env.fileWritable
        then TableOut(outputCsv, rows[0], rows[1..])
        else Fail
      else if |frags| > 0 then
        if env.fileWritable then LinesOut(outputCsv, OcrOutput(frags)) else Fail
      else Fail
  }

  // ---------------------------------------------------------------- the procedure

  /** The page loop (lines 17-30): each page adds its table's rows to `allData`, or else its
      non-blank OCR text to `ocrTexts`; a page that raises adds nothing. */
  method CollectPages(pages: seq<Page>) returns (allData: seq<Row>, ocrTexts: seq<string>)
    ensures allData == Rows(pages) && ocrTexts == Fragments(pages)
  {
    allData, ocrTexts := [], [];
    for i := 0 to |pages|
      invariant allData == Rows(pages[..i])
      invariant ocrTexts == Fragments(pages[..i])
    {
      assert pages[..i + 1][..i] == pages[..i];
      var page := pages[i];
      match page.table
      case Raised =>
        // the page's error is logged and the page contributes nothing
      case Returned(table) =>
        if |table| > 0 {
          allData := allData + table;
        } else {
          match page.ocr
          case Raised =>
          case Returned(text) =>
            if Strip(text) != [] {
              ocrTexts := ocrTexts + [text];
            }
        }
    }
    assert pages[..|pages|] == pages;
  }

  /** The inner write loop (lines 48-50) for one fragment: each non-blank line of it, tabs
      turned into commas, followed by a newline. */
  method WriteFragment(text: string) returns (chunk: seq<string>)
    ensures chunk == Written(NonBlank(SplitLines(text)))
  {
    var lines := SplitLines(text);
    chunk := [];
    for j := 0 to |lines|
      invariant chunk == Written(NonBlank(lines[..j]))
    {
      ghost var kept := NonBlank(lines[..j]);
      NonBlankSnoc(lines, j);
      if Strip(lines[j]) != [] {
        assert NonBlank(lines[..j + 1]) == kept + [lines[j]];
        WrittenAppend(kept, [lines[j]]);
        assert Written([lines[j]]) == [ReplaceTabs(lines[j]) + "\n"];
        chunk := chunk + [ReplaceTabs(lines[j]) + "\n"];
        assert chunk == Written(kept + [lines[j]]);
      } else {
        assert NonBlank(lines[..j + 1]) == kept;
      }
    }
    assert lines[..|lines|] == lines;
  }

  /** The outer write loop (line 47): the fragments' lines in fragment order. */
  method WriteOcrLines(ocrTexts: seq<string>) returns (written: seq<string>)
    ensures written == OcrOutput(ocrTexts)
  {
    written := [];
    for i := 0 to |ocrTexts|
      invariant written == OcrOutput(ocrTexts[..i])
    {
      var chunk := WriteFragment(ocrTexts[i]);
      OcrOutputSnoc(ocrTexts, i);
      written := written + chunk;
    }
    assert ocrTexts[..|ocrTexts|] == ocrTexts;
  }

  /** `pdf_to_csv`: open the document, collect rows and fragments page by page, then return
      the table, the OCR lines, or failure. */
  method PdfToCsv(doc: Document, outputCsv: string, env: Environment) returns (r: Conversion)
    ensures r == Convert(doc, outputCsv, env)
  {
    if doc.Unreadable? {
      return Fail;
    }
    var allData, ocrTexts := CollectPages(doc.pages);
    if |allData| > 0 {
      if env.frameBuilds(allData[0], allData[1..]) && env.fileWritable {
        return TableOut(outputCsv, allData[0], allData[1..]);
      }
      return Fail;
    } else if |ocrTexts| > 0 {
      if !env.fileWritable {
        return Fail;
      }
      var written := WriteOcrLines(ocrTexts);
      return LinesOut(outputCsv, written);
    } else {
      return Fail;
    }
  }

  // ---------------------------------------------------------------- list lemmas

  lemma {:induction false} RowsAppend(a: seq<Page>, b: seq<Page>)
    ensures Rows(a + b) == Rows(a) + Rows(b)
    decreases |b|
  {
    if b == [] {
      assert a + b == a;
    } else {
      var b' := b[..|b| - 1];
      assert (a + b)[..|a + b| - 1] == a + b';
      assert (a + b)[|a + b| - 1] == b[|b| - 1];
      RowsAppend(a, b');
    }
  }

  lemma {:induction false} FragmentsAppend(a: seq<Page>, b: seq<Page>)
    ensures Fragments(a + b) == Fragments(a) + Fragments(b)
    decreases |b|
  {
    if b == [] {
      assert a + b == a;
    } else {
      var b' := b[..|b| - 1];
      assert (a + b)[..|a + b| - 1] == a + b';
      assert (a + b)[|a + b| - 1] == b[|b| - 1];
      FragmentsAppend(a, b');
    }
  }

  lemma {:induction false} AllLinesAppend(a: seq<string>, b: seq<string>)
    ensures AllLines(a + b) == AllLines(a) + AllLines(b)
    decreases |b|
  {
    if b == [] {
      assert a + b == a;
    } else {
      var b' := b[..|b| - 1];
      var last := b[|b| - 1];
      assert (a + b)[..|a + b| - 1] == a + b';
      assert (a + b)[|a + b| - 1] == last;
      calc {
        AllLines(a + b);
        AllLines(a + b') + SplitLines(last);
        { AllLinesAppend(a, b'); }
        AllLines(a) + AllLines(b') + SplitLines(last);
        AllLines(a) + (AllLines(b') + SplitLines(last));
        AllLines(a) + AllLines(b);
      }
    }
  }

  lemma {:induction false} NonBlankAppend(a: seq<string>, b: seq<string>)
    ensures NonBlank(a + b) == NonBlank(a) + NonBlank(b)
    decreases |b|
  {
    if b == [] {
      assert a + b == a;
    } else {
      var b' := b[..|b| - 1];
      assert (a + b)[..|a + b| - 1] == a + b';
      assert (a + b)[|a + b| - 1] == b[|b| - 1];
      NonBlankAppend(a, b');
    }
  }

  lemma NonBlankSnoc(lines: seq<string>, j: nat)
    requires j < |lines|
    ensures NonBlank(lines[..j + 1]) == NonBlank(lines[..j]) + (if IsBlank(lines[j]) then [] else [lines[j]])
  {
    assert lines[..j + 1][..j] == lines[..j];
  }

  lemma AllLinesSnoc(frags: seq<string>, i: nat)
    requires i < |frags|
    ensures AllLines(frags[..i + 1]) == AllLines(frags[..i]) + SplitLines(frags[i])
  {
    assert frags[..i + 1][..i] == frags[..i];
  }

  lemma OcrOutputSnoc(frags: seq<string>, i: nat)
    requires i < |frags|
    ensures OcrOutput(frags[..i + 1]) == OcrOutput(frags[..i]) + Written(NonBlank(SplitLines(frags[i])))
  {
    AllLinesSnoc(frags, i);
    NonBlankAppend(AllLines(frags[..i]), SplitLines(frags[i]));
    WrittenAppend(NonBlank(AllLines(frags[..i])), NonBlank(SplitLines(frags[i])));
  }

  lemma {:induction false} WrittenAppend(a: seq<string>, b: seq<string>)
    ensures Written(a + b) == Written(a) + Written(b)
    decreases |b|
  {
    if b == [] {
      assert a + b == a;
    } else {
      var b' := b[..|b| - 1];
      assert (a + b)[..|a + b| - 1] == a + b';
      assert (a + b)[|a + b| - 1] == b[|b| - 1];
      WrittenAppend(a, b');
    }
  }
}
