/** The browser-side file-to-text converter: the format is chosen from the
    lower-cased last `.`-separated segment of the file name, and the text is
    produced by a per-format handler. The parsing libraries (the PDF reader,
    the Word raw-text extractor, the spreadsheet reader) and `File.text()` are
    foreign code, given here as uninterpreted functions of the file's bytes. */
module FileConverter {
  import opened Wrappers
  import opened JsBuiltins

  type Bytes = seq<bv8>

  /** A file handed over by the browser's file picker. */
  datatype UploadedFile = UploadedFile(name: string, content: Bytes)

  /** A document opened by the PDF library: for each page, in order 1 to
      numPages, the strings of its text-content items, or the error that
      fetching the page or its text content throws. */
  datatype PdfDocument = PdfDocument(pages: seq<Result<seq<string>, string>>)

  /** A workbook read by the spreadsheet library: its sheet names in workbook
      order, and the CSV rendering of the sheet that carries a given name. */
  datatype Workbook = Workbook(sheetNames: seq<string>, sheetToCsv: string -> string)

  /** The foreign readers; each either returns its result or throws an error message. */
  datatype Parsers = Parsers(
    readText: Bytes -> Result<string, string>,
    openPdf: Bytes -> Result<PdfDocument, string>,
    extractRawText: Bytes -> Result<string, string>,
    readWorkbook: Bytes -> Result<Workbook, string>)

  const UnsupportedMessage := "Unsupported file type"
  const PowerPointMessage := "PowerPoint files are not supported in the browser. Please convert to PDF first."
  const SupportedKeys: set<string> := {"txt", "md", "rtf", "pdf", "doc", "docx", "xls", "xlsx", "ppt", "pptx"}

  // ---------------------------------------------------------------- format key

  /** `name.split('.').pop().toLowerCase()`: the part of the name after its last
      `.`, lower-cased, or the whole name lower-cased when it has no `.`. */
  function ExtensionKey(name: string): (key: string)
    ensures |key| <= |name| && key == ToLower(name[|name| - |key|..])
    ensures '.' !in key
    ensures '.' !in name ==> key == ToLower(name)
    ensures '.' in name ==> |key| < |name| && name[|name| - |key| - 1] == '.'
  {
    var segment := Last(Split(name, '.'));
    LastPart(name, '.');
    SplitPartsAreSeparatorFree(name, '.');
    assert forall c :: LowerChar(c) == '.' ==> c == '.';
    ToLower(segment)
  }

  lemma ExtensionKeyOfLowered(name: string)
    ensures ExtensionKey(name) == Last(Split(ToLower(name), '.'))
  {
    var parts := Split(name, '.');
    SplitToLower(name, '.');
    assert Last(LowerAll(parts)) == ToLower(Last(parts));
  }

  /** Names that differ only in the case of their letters take the same branch. */
  lemma ExtensionKeyIgnoresCase(a: string, b: string)
    requires ToLower(a) == ToLower(b)
    ensures ExtensionKey(a) == ExtensionKey(b)
  {
    ExtensionKeyOfLowered(a);
    ExtensionKeyOfLowered(b);
  }

  // ---------------------------------------------------------------- PDF

  /** One page of text: the page's items joined by single spaces, then a newline. */
  function PageLine(items: seq<string>): (line: string)
    ensures |line| > 0 && line[|line| - 1] == '\n'
  {
    Join(items, " ") + "\n"
  }

  /** What handlePDF yields for the pages of a document: the page lines in page
      order, or the error of the first page that could not be read. */
  function PdfText(pages: seq<Result<seq<string>, string>>): (r: Result<string, string>)
    ensures r.Success? ==> |r.value| >= |pages|
  {
    if |pages| == 0 then Success("")
    else match pages[0]
      case Failure(e) => Failure(e)
      case Success(items) =>
        match PdfText(pages[1..])
        case Failure(e) => Failure(e)
        case Success(rest) => Success(PageLine(items) + rest)
  }

  /** `text + r`, where a thrown error discards the text. */
  function Prepend(text: string, r: Result<string, string>): Result<string, string> {
    match r
    case Success(t) => Success(text + t)
    case Failure(e) => Failure(e)
  }

  /** Running one conversion after another: the first error wins, otherwise the texts are concatenated. */
  function Then(first: Result<string, string>, second: Result<string, string>): Result<string, string> {
    match first
    case Failure(_) => first
    case Success(t) => Prepend(t, second)
  }

  /** handlePDF's outcome: an error opening the document, or the text of its pages. */
  function PdfResult(parsed: Result<PdfDocument, string>): (r: Result<string, string>)
    ensures parsed.Failure? ==> r == Failure(parsed.error)
    ensures r.Success? <==> parsed.Success? && forall k :: 0 <= k < |parsed.value.pages| ==> parsed.value.pages[k].Success?
  {
    match parsed
    case Failure(e) => Failure(e)
    case Success(doc) =>
      PdfTextSucceedsIffEveryPageDoes(doc.pages);
      PdfText(doc.pages)
  }

  method HandlePdf(content: Bytes, parsers: Parsers) returns (r: Result<string, string>)
    ensures r == PdfResult(parsers.openPdf(content))
  {
    var parsed := parsers.openPdf(content);
    if parsed.Failure? {
      return Failure(parsed.error);
    }
    var pages := parsed.value.pages;
    var text := "";
    assert pages[0..] == pages;
    match PdfText(pages) {
      case Success(t) => assert "" + t == t;
      case Failure(_) =>
    }
    for i := 1 to |pages| + 1
      invariant PdfText(pages) == Prepend(text, PdfText(pages[i - 1..]))
    {
      var remaining := pages[i - 1..];
      assert remaining[0] == pages[i - 1] && remaining[1..] == pages[i..];
      match pages[i - 1] {
        case Failure(e) =>
          return Failure(e);
        case Success(items) =>
          match PdfText(pages[i..]) {
            case Success(t) => assert text + (PageLine(items) + t) == (text + PageLine(items)) + t;
            case Failure(_) =>
          }
          text := text + PageLine(items);
      }
    }
    assert text + "" == text;
    return Success(text);
  }

  /** Reading pages one after another: the pages of `a + b` give the text of `a` followed by that of `b`. */
  lemma {:induction false} PdfTextAppend(a: seq<Result<seq<string>, string>>, b: seq<Result<seq<string>, string>>)
    ensures PdfText(a + b) == Then(PdfText(a), PdfText(b))
  {
    if |a| == 0 {
      assert a + b == b;
      match PdfText(b) {
        case Success(t) => assert "" + t == t;
        case Failure(_) =>
      }
    } else {
      assert (a + b)[1..] == a[1..] + b;
      PdfTextAppend(a[1..], b);
      match PdfText(b) {
        case Success(t) =>
          match a[0] {
            case Success(items) =>
              match PdfText(a[1..]) {
                case Success(u) => assert PageLine(items) + (u + t) == (PageLine(items) + u) + t;
                case Failure(_) =>
              }
            case Failure(_) =>
          }
        case Failure(_) =>
      }
    }
  }

  /** All or nothing: the conversion succeeds exactly when every page could be read. */
  lemma {:induction false} PdfTextSucceedsIffEveryPageDoes(pages: seq<Result<seq<string>, string>>)
    ensures PdfText(pages).Success? <==> forall k :: 0 <= k < |pages| ==> pages[k].Success?
  {
    if |pages| > 0 {
      PdfTextSucceedsIffEveryPageDoes(pages[1..]);
      assert forall k :: 1 <= k < |pages| ==> pages[k] == pages[1..][k - 1];
    }
  }

  /** The error reported is the one thrown for the first page that could not be read. */
  lemma {:induction false} PdfTextFailsWithFirstPageError(pages: seq<Result<seq<string>, string>>, k: nat)
    requires k < |pages| && pages[k].Failure?
    requires forall j :: 0 <= j < k ==> pages[j].Success?
    ensures PdfText(pages) == Failure(pages[k].error)
  {
    if k > 0 {
      PdfTextFailsWithFirstPageError(pages[1..], k - 1);
    }
  }

  lemma {:induction false} JoinWithoutChar(items: seq<string>, sep: string, c: char)
    requires c !in sep
    requires forall i :: 0 <= i < |items| ==> c !in items[i]
    ensures c !in Join(items, sep)
  {
    if |items| > 1 {
      JoinWithoutChar(items[1..], sep, c);
    }
  }

  /** No page is omitted: when no item holds a line break, the text has exactly
      one line break per page, blank pages included. */
  lemma {:induction false} PdfTextLineBreakPerPage(pages: seq<Result<seq<string>, string>>)
    requires forall k :: 0 <= k < |pages| ==> pages[k].Success?
    requires forall k, i :: 0 <= k < |pages| && 0 <= i < |pages[k].value| ==> '\n' !in pages[k].value[i]
    ensures PdfText(pages).Success?
    ensures multiset(PdfText(pages).value)['\n'] == |pages|
  {
    if |pages| > 0 {
      var items := pages[0].value;
      PdfTextLineBreakPerPage(pages[1..]);
      JoinWithoutChar(items, " ", '\n');
      assert multiset(Join(items, " "))['\n'] == 0;
    }
  }

  // ---------------------------------------------------------------- spreadsheets

  /** The block written for one sheet: a `Sheet: <name>` line, the CSV text and a blank line. */
  function SheetBlock(name: string, csv: string): (block: string)
  {
    "Sheet: " + name + "\n" + csv + "\n\n"
  }

  /** A sheet's block starts with its `Sheet: <name>` line and ends with a blank line. */
  lemma SheetBlockShape(name: string, csv: string)
    ensures |SheetBlock(name, csv)| == |name| + |csv| + 10
    ensures SheetBlock(name, csv)[..8 + |name|] == "Sheet: " + name + "\n"
    ensures SheetBlock(name, csv)[|SheetBlock(name, csv)| - 2..] == "\n\n"
  {
  }

  /** What handleExcel yields for the given sheet names, in the given order. */
  function SheetsText(names: seq<string>, toCsv: string -> string): (text: string)
  {
    if |names| == 0 then ""
    else SheetBlock(names[0], toCsv(names[0])) + SheetsText(names[1..], toCsv)
  }

  /** handleExcel's outcome: an error reading the workbook, or the text of its sheets. */
  function ExcelResult(read: Result<Workbook, string>): (r: Result<string, string>)
    ensures r.Success? <==> read.Success?
    ensures read.Failure? ==> r.error == read.error
  {
    match read
    case Failure(e) => Failure(e)
    case Success(book) => Success(SheetsText(book.sheetNames, book.sheetToCsv))
  }

  /** One round of the sheet loop: appending sheet `i`'s header and CSV to any
      text, then the later sheets, is appending the sheets from `i` on. */
  lemma SheetsTextStep(names: seq<string>, i: nat, toCsv: string -> string, before: string)
    requires i < |names|
    ensures before + SheetsText(names[i..], toCsv) ==
      before + "Sheet: " + names[i] + "\n" + toCsv(names[i]) + "\n\n" + SheetsText(names[i + 1..], toCsv)
  {
    assert names[i..][0] == names[i] && names[i..][1..] == names[i + 1..];
  }

  method HandleExcel(content: Bytes, parsers: Parsers) returns (r: Result<string, string>)
    ensures r == ExcelResult(parsers.readWorkbook(content))
  {
    var read := parsers.readWorkbook(content);
    if read.Failure? {
      return Failure(read.error);
    }
    var book := read.value;
    var names := book.sheetNames;
    var text := "";
    assert names[0..] == names;
    for i := 0 to |names|
      invariant SheetsText(names, book.sheetToCsv) == text + SheetsText(names[i..], book.sheetToCsv)
    {
      var name := names[i];
      SheetsTextStep(names, i, book.sheetToCsv, text);
      text := text + "Sheet: " + name + "\n";
      text := text + book.sheetToCsv(name) + "\n\n";
    }
    assert text + "" == text;
    return Success(text);
  }

  /** Sheets are written in workbook order: the sheets of `a + b` give the blocks of `a`, then those of `b`. */
  lemma {:induction false} SheetsTextAppend(a: seq<string>, b: seq<string>, toCsv: string -> string)
    ensures SheetsText(a + b, toCsv) == SheetsText(a, toCsv) + SheetsText(b, toCsv)
  {
    if |a| == 0 {
      assert a + b == b;
    } else {
      assert (a + b)[1..] == a[1..] + b;
      SheetsTextAppend(a[1..], b, toCsv);
    }
  }

  /** The block of sheet `k` sits between the blocks of the sheets before it and those after it. */
  lemma SheetBlockInPlace(names: seq<string>, k: nat, toCsv: string -> string)
    requires k < |names|
    ensures SheetsText(names, toCsv) ==
      SheetsText(names[..k], toCsv) + SheetBlock(names[k], toCsv(names[k])) + SheetsText(names[k + 1..], toCsv)
  {
    var tail := names[k..];
    assert names == names[..k] + tail;
    SheetsTextAppend(names[..k], tail, toCsv);
    assert tail[0] == names[k] && tail[1..] == names[k + 1..];
  }

  /** One sheet `Q1` whose rows are `A,B` and `1,2`. */
  lemma SingleSheetExample(toCsv: string -> string)
    requires toCsv("Q1") == Join([Join(["A", "B"], ","), Join(["1", "2"], ",")], "\n")
    ensures SheetsText(["Q1"], toCsv) == "Sheet: Q1\nA,B\n1,2\n\n"
  {
    assert toCsv("Q1") == "A,B\n1,2";
  }

  // ---------------------------------------------------------------- dispatch

  /** handleWord: the extractor's raw text, or the error it throws. */
  function HandleWord(content: Bytes, parsers: Parsers): Result<string, string> {
    parsers.extractRawText(content)
  }

  /** handlePowerPoint always throws, whatever the file holds. */
  function HandlePowerPoint(): (r: Result<string, string>)
    ensures r.Failure? && r.error == PowerPointMessage
  {
    Failure(PowerPointMessage)
  }

  /** fileToText: the file's format key chooses the handler; plain text comes
      back unchanged, parser errors propagate with no partial text, PowerPoint
      and every unknown key fail with fixed messages. */
  method FileToText(file: UploadedFile, parsers: Parsers) returns (r: Result<string, string>)
    ensures var key := ExtensionKey(file.name);
      && (key in {"txt", "md", "rtf"} ==> r == parsers.readText(file.content))
      && (key == "pdf" ==> r == PdfResult(parsers.openPdf(file.content)))
      && (key in {"doc", "docx"} ==> r == parsers.extractRawText(file.content))
      && (key in {"xls", "xlsx"} ==> r == ExcelResult(parsers.readWorkbook(file.content)))
      && (key in {"ppt", "pptx"} ==> r == Failure(PowerPointMessage))
      && (key !in SupportedKeys ==> r == Failure(UnsupportedMessage))
  {
    var extension := ExtensionKey(file.name);
    if extension == "txt" || extension == "md" || extension == "rtf" {
      r := parsers.readText(file.content);
    } else if extension == "pdf" {
      r := HandlePdf(file.content, parsers);
    } else if extension == "doc" || extension == "docx" {
      r := HandleWord(file.content, parsers);
    } else if extension == "xls" || extension == "xlsx" {
      r := HandleExcel(file.content, parsers);
    } else if extension == "ppt" || extension == "pptx" {
      r := HandlePowerPoint();
    } else {
      r := Failure(UnsupportedMessage);
    }
  }

  /** A name without a `.` is its own key: `README` is unsupported, while a
      file named `PDF` is read as a PDF. */
  lemma NameWithoutDotExamples()
    ensures ExtensionKey("README") == "readme" && "readme" !in SupportedKeys
    ensures ExtensionKey("PDF") == "pdf"
  {
    assert '.' !in "README" && '.' !in "PDF";
    assert ToLower("README") == "readme";
    assert ToLower("PDF") == "pdf";
  }
}
