# pdf_to_csv: tables first, OCR text as fallback

This project models `pdf_to_csv` from `docparser.py`, the one piece of the bank-statement
uploader that has logic of its own, and proves what it does. The function opens a PDF and
walks its pages in order. On each page it keeps the table the extractor finds. When there is
no table, or an empty one, it runs OCR on the rendered page and keeps the text if it is not
blank. A page whose processing raises is logged and skipped. Afterwards it produces one of
three results:

- a table whose header is the first row collected and whose body is every later row, from
  all pages;
- a line-per-row text file: every non-blank OCR line, tabs rewritten as commas, each ending
  in a newline;
- failure (`None`).

Files:

- `py_str.dfy` (module `PyStr`): the Python string operations the function relies on.
  These are `str.strip()` (only its emptiness is tested), `str.splitlines()` and
  `str.replace("\t", ",")`, with the whitespace and line-boundary characters of Python 3.
  It proves that `splitlines()` is undone by putting the boundaries back and that no
  other split has the same properties. It also proves that `splitlines` and dropping blank
  lines lose no visible character.
- `doc_parser.dfy` (module `DocParser`): the data model, the specification function
  `Convert`, and the procedure itself. The procedure is `PdfToCsv`, with its page loop
  `CollectPages` and its write loops `WriteOcrLines` and `WriteFragment`. Each is proved
  equal to the specification.
- `doc_parser_properties.dfy` (module `DocParserProperties`): the properties the function
  promises, stated over `Convert` and the functions it is built from.

The PDF library, the OCR engine, pandas and the file system are foreign calls, so they are
inputs to the model:

- A `Document` is `Unreadable` or `Readable(pages)`.
- Each `Page` records what `extract_table()` does on it and what OCR of the page would do.
  Each of the two is `Raised` or `Returned(value)`. An extractor that finds no table is
  `Returned([])`, since Python treats `None` and `[]` alike in `if table:`.
- An `Environment` says whether pandas builds the data frame from a given header and body
  (`frameBuilds`) and whether the output file can be written (`fileWritable`).
- The result is a `Conversion`: `TableOut(path, header, body)`,
  `LinesOut(path, lines)` or `Fail`. Here `lines` are the successive `f.write` arguments.

The page loop is written in `CollectPages` and the write loops in `WriteOcrLines` (over
fragments) and `WriteFragment` (over the lines of one fragment). In the source these are one
function with two nested `for` loops. Splitting the inner loop into its own method keeps
each proof small; the writes and their order are the same.

## Model

| member | source | states |
|---|---|---|
| `PyStr.Strip` | docparser.py:27 | `s.strip()` is empty exactly when every character of `s` is Python whitespace; otherwise it starts and ends with a non-whitespace character |
| `PyStr.StripStart` | docparser.py:27 | the left strip is a suffix of `s`, and what it removed is all whitespace; it starts with non-whitespace or is empty |
| `PyStr.StripEnd` | docparser.py:27 | the right strip is a prefix of `s`, and what it removed is all whitespace; it ends with non-whitespace or is empty |
| `PyStr.SplitLines` | docparser.py:48 | `splitlines()` yields no line exactly for the empty string |
| `PyStr.SplitLinesRoundTrip` | docparser.py:48 | putting the boundaries back after the lines of `splitlines()` gives the text again. Each boundary is "\r\n" or one boundary character, and there is one per line, or one fewer when the text does not end in a boundary. No line holds a boundary, a text not ending in a boundary ends in a non-empty line, and a lone "\r" is never directly followed by "\n" |
| `PyStr.SplitLinesUnique` | docparser.py:48 | any lines and boundaries with those properties are the `splitlines()` of the text they rejoin to, so the round trip fixes where the text is split |
| `PyStr.SplitLinesNoBreak` | docparser.py:48 | no line of `splitlines()` holds a line boundary |
| `PyStr.ReplaceTabs` | docparser.py:50 | `replace("\t", ",")` keeps the length and changes exactly the tabs, each into a comma |
| `PyStr.SplitLinesConcat` | docparser.py:48 | the lines of a text, joined, are the text with its line boundaries removed: `splitlines()` loses nothing else |
| `PyStr.NonBlankHasNonBlankLine` | docparser.py:27-28 | a text that is not blank after stripping has a line that is not blank after stripping |
| `PyStr.VisibleCharOnLine` | docparser.py:48-49 | every visible character of a text lies on one of its non-blank lines |
| `DocParser.CollectPages` | docparser.py:17-30 | the page loop leaves `all_data` equal to the rows of every page with a non-empty table, and `ocr_texts` equal to the non-blank OCR texts of the pages without one, both in page order |
| `DocParser.WriteFragment` | docparser.py:48-50 | the inner write loop writes each non-blank line of one fragment, tabs turned into commas, followed by a newline |
| `DocParser.WriteOcrLines` | docparser.py:47-50 | the outer write loop writes the lines of the fragments in fragment order |
| `DocParser.PdfToCsv` | docparser.py:10-57 | the procedure returns exactly the specified conversion: nothing from an unreadable document, then the table, the OCR lines or failure |
| `DocParser.Convert` | docparser.py:15-57 | an unreadable document fails; a table result sits at `output_csv` and its header followed by its body is every row collected; a lines result sits at `output_csv` and is the OCR output of the fragments, and only when no rows were collected; failure happens exactly in the three failure cases |
| `DocParserProperties.ErrorPageSkipped` | docparser.py:17-30 | a page whose processing raises, in table extraction or, with no table found, in rendering or OCR, adds neither rows nor text, and the later pages are processed as if it were absent |
| `DocParserProperties.TablePageContributes` | docparser.py:19-21 | a page with a non-empty table appends all its rows in order after the earlier pages' rows and adds no OCR fragment |
| `DocParserProperties.TextPageContributes` | docparser.py:20-28 | a page without a table adds no rows, and adds its OCR text as one fragment exactly when OCR returned text that is not blank |
| `DocParserProperties.RowsEmpty` | docparser.py:20-21 | no rows are collected exactly when no page has a non-empty table |
| `DocParserProperties.FragmentsEmpty` | docparser.py:27-28 | no fragment is collected exactly when no page yields non-blank OCR text |
| `DocParserProperties.NoDataFails` | docparser.py:55-57 | with no table on any page and no non-blank OCR text on any page, the conversion fails, and these are exactly the documents that collect nothing |
| `DocParserProperties.RowsIgnoreOcr` | docparser.py:19-21 | the rows collected depend only on what table extraction does on each page |
| `DocParserProperties.TablesWin` | docparser.py:35-43 | once any page has a table, the result is never the OCR lines, and changing what OCR does on any page does not change the result |
| `DocParserProperties.RowsCount` | docparser.py:21 | the number of rows collected is the sum of the sizes of the tables found |
| `DocParserProperties.FirstRowCollected` | docparser.py:21 | the first row of every page's table is among the rows collected |
| `DocParserProperties.MultiPageTable` | docparser.py:35-39 | when every page has a table, the header is the first row of the first table, the body is the rest of it followed by all later pages' rows (their own header rows included), and the body has N - 1 rows for N rows in all |
| `DocParserProperties.OcrOutputAppend` | docparser.py:47-50 | the output for two runs of fragments is the output for the first followed by the output for the second |
| `DocParserProperties.OcrPageOrder` | docparser.py:47-50 | OCR lines are written in page order: the output of a document is that of its first pages followed by that of the rest |
| `DocParserProperties.NonBlankKeepsOnlyNonBlank` | docparser.py:49 | the lines kept are lines of the input and none is blank |
| `DocParserProperties.NonBlankKeepsNonBlank` | docparser.py:49 | every non-blank line of the input is kept |
| `DocParserProperties.AllLinesHaveNoBreak` | docparser.py:48 | no line of any fragment holds a line boundary |
| `DocParserProperties.WrittenAt` | docparser.py:50 | the k-th written string is the k-th kept line with tabs turned into commas, followed by a newline |
| `DocParserProperties.WrittenLength` | docparser.py:50 | one string is written per kept line |
| `DocParserProperties.OcrLineShape` | docparser.py:47-50 | every written OCR line ends in one newline, holds no tab and no other line boundary before it, and is not blank |
| `DocParserProperties.OcrOutputCoversFragments` | docparser.py:27-28 | a run of non-blank fragments writes at least one line per fragment |
| `DocParserProperties.FragmentsAreNonBlank` | docparser.py:27-28 | every fragment collected is non-blank |
| `DocParserProperties.OcrFallback` | docparser.py:43-51 | with no table rows, some OCR text and a writable output, the result is the OCR lines at `output_csv`, with at least one line per page that gave text |
| `DocParserProperties.VisibleDropsBlankLines` | docparser.py:49 | dropping blank lines drops no visible character |
| `DocParserProperties.SplitLinesKeepVisibleText` | docparser.py:48-49 | the non-blank lines of a fragment, joined, hold exactly its visible characters in order |
| `DocParserProperties.OcrKeepsVisibleText` | docparser.py:47-49 | the kept lines of all fragments, joined, hold exactly the visible characters of the fragments in order, so OCR output loses no text other than whitespace |

## Left out

- `main` and the Streamlit interface (docparser.py:59-103): the radio button, the uploader,
  the extension checks, the data preview and the text area are presentation.
- Table detection, page rendering at 300 DPI and OCR (docparser.py:19, 25-26) are foreign
  libraries. Only their outcome on each page is modelled (`Page.table`, `Page.ocr`).
- Building the pandas data frame and writing it as CSV (docparser.py:37-38), including
  pandas' rules for ragged rows and CSV quoting and escaping. Whether this succeeds is the
  `Environment.frameBuilds` parameter, together with `fileWritable`.
- File I/O: opening and writing `output_csv` is reduced to `fileWritable`. A write that
  fails part-way through the OCR lines returns `None` in the source and `Fail` here. The
  partial file it leaves behind is not modelled. The fixed shared paths and the overwrite
  risk between concurrent requests are hosting concerns.
- An exception raised while opening the document or listing its pages, outside the
  per-page `try` (docparser.py:15-17, 31-33), is modelled as `Unreadable`.
- The `print` logging (docparser.py:23, 30, 32, 41, 53, 56).
- `PyStr.StripStart`, `PyStr.StripEnd`, `PyStr.Strip`: the whitespace set is written out as
  a fixed list of characters. Python 3 defines `str.isspace` by a rule over the Unicode
  database (general category Zs, or bidirectional class WS, B or S); the list is what that
  rule selects today, and a future Unicode revision could change it.
- Text is a sequence of Unicode code points. Decoding of the OCR output and the UTF-8
  encoding of the written file are not modelled.
