# Briefly: file conversion and chat persistence, modelled in Dafny

This project models two pieces of the Briefly web application.

- **The file converter.** It turns an uploaded file into plain text.
  - The extension is taken from the file name: the part after the last
    `.`, lower-cased.
  - The extension selects a handler. Text files pass through unchanged.
  - PDF pages become one line each, with the page's text items joined by
    spaces.
  - Word documents go through a raw-text extractor.
  - Each spreadsheet sheet becomes a `Sheet: <name>` header followed by its
    CSV and a blank line.
  - PowerPoint files and every other extension are refused, each with its
    own error message.
- **The chat page.** It keeps the transcript, the input, the selected image,
  the loading flag and the error text. It also:
  - rewrites line breaks as `<br />`;
  - refuses a blank submission and a submission made while a request is in
    flight;
  - sends the last five messages as the history of a request;
  - stores the transcript in the browser's localStorage. The whole list goes
    under `chatMessages`. When that write exceeds the quota, the list is
    split into chunks stored under `chatMessages_0`, `chatMessages_1`, …,
    with their number under `chatMessages_chunks`;
  - reassembles those chunks when it mounts;
  - removes all of these keys when the history is cleared.

The modules are:

- `Wrappers` (`wrappers.dfy`): `Option` and `Result`. `None` stands for
  `null` and `NaN`; `Failure` stands for a thrown error.
- `JsBuiltins` (`js_builtins.dfy`): the JavaScript built-ins the code relies
  on: `split`, `join`, `toLowerCase`, `trim`, `slice`, `String(n)` and
  `parseInt`.
- `FileConverter` (`file_converter.dfy`): `fileToText` and its handlers.
  - The third-party parsers (pdf.js, mammoth, SheetJS) and `File.text()`
    are the fields of a `Parsers` value, supplied by the caller.
  - A PDF document is its sequence of pages. Each page either yields its
    text items or fails with an error.
  - A workbook is its sheet names plus a function from sheet name to CSV.
  - The loops of `handlePDF` and `handleExcel` are methods, proved equal to
    recursive functions. The properties are then proved about those
    functions.
- `ChatStorage` (`chat_storage.dfy`) holds the storage side:
  - `Store`, a class that models localStorage as a map from key to `Entry`;
  - the chunking of a list;
  - the store after the quota fallback, after a reload and after
    clearHistory, as functions, with the round trips between them.
- `ChatPage` (`chat_page.dfy`): `markdownToHtml`, the submit guard, the
  history window, and the `ChatPage` class. Its methods perform the page's
  effects on its fields and on the `Store`. Each method's postcondition ties
  the new state to the `ChatStorage` functions.

The JSON layer is abstract. A stored value is either `Serialized(ms)`, the
serialization of a message list `ms`, or `Raw(text)`, any other text.
`JSON.parse` of a `Serialized` value gives the list back. `JSON.parse` of a
non-empty `Raw` value throws.

## Model

| member | source | states |
|---|---|---|
| JsBuiltins.Split | src/utils/fileConverter.ts:7 | `split('.')` gives at least one part, so `pop()` always has a part to return. |
| JsBuiltins.SplitPartsAreSeparatorFree | src/utils/fileConverter.ts:7 | No part contains the separator. There is exactly one part iff the separator does not occur. |
| JsBuiltins.JoinSplit | src/utils/fileConverter.ts:7 | Joining the parts of a split with the separator gives back the original string. |
| JsBuiltins.SplitJoin | src/utils/fileConverter.ts:7 | Splitting the join of separator-free parts gives back the parts. |
| JsBuiltins.LastPart | src/utils/fileConverter.ts:7 | `pop()` of a split is the suffix after the last separator, or the whole string when there is none. |
| JsBuiltins.LastPartIsSuffix | src/utils/fileConverter.ts:7 | The last part of a split is a suffix of the string. |
| JsBuiltins.LastPartWithoutSeparator | src/utils/fileConverter.ts:7 | Without a separator, the last part is the whole string. |
| JsBuiltins.LastPartAfterSeparator | src/utils/fileConverter.ts:7 | With a separator, the last part is shorter than the string and directly follows a separator. |
| JsBuiltins.LastOfSplit | src/utils/fileConverter.ts:7 | The first character belongs to the last part only when it is not a separator and the rest has none. |
| JsBuiltins.SplitToLower | src/utils/fileConverter.ts:7 | Splitting on a non-letter commutes with `toLowerCase`. |
| JsBuiltins.ToLowerCons | src/utils/fileConverter.ts:7 | `toLowerCase` maps the first character and then the rest. |
| JsBuiltins.LowerAllCons | src/utils/fileConverter.ts:7 | Lower-casing every part maps the first part and then the rest. |
| JsBuiltins.TrimStartDropsLeadingWhitespace | src/app/chat/page.tsx:113 | Trimming the start keeps a suffix. Everything removed is white space. The result starts with a non-white-space character or is empty. |
| JsBuiltins.TrimEndDropsTrailingWhitespace | src/app/chat/page.tsx:113 | Trimming the end keeps a prefix. Everything removed is white space. The result ends with a non-white-space character or is empty. |
| JsBuiltins.TrimKeepsInnerText | src/app/chat/page.tsx:113 | `trim()` never lengthens. A non-empty result starts and ends with a non-white-space character. |
| JsBuiltins.TrimEmptyIff | src/app/chat/page.tsx:113 | `trim()` is empty iff every character is ECMAScript white space. |
| JsBuiltins.RelativeIndex | src/app/chat/page.tsx:132 | A `slice` argument in `0..len` is used as is. One in `-len..-1` counts from the end, giving `len + i`. One below `-len` clamps to 0 and one above `len` to `len`. |
| JsBuiltins.SliceOfRange | src/app/chat/page.tsx:132 | A slice is never longer than the list. An in-range `slice(start, end)` is that subsequence. `slice(-k)` is the last `k` elements, or the whole list when it has fewer. |
| JsBuiltins.ParseInt | src/app/chat/page.tsx:72 | A string that starts with a character other than white space, a sign or a digit parses as `NaN`. |
| JsBuiltins.NatToString | src/app/chat/page.tsx:58 | `String(n)` is a non-empty run of decimal digits. |
| JsBuiltins.LeadingDigits | src/app/chat/page.tsx:72 | The longest all-digit prefix: the next character, if any, is not a digit. |
| JsBuiltins.DecimalValueOfNatToString | src/app/chat/page.tsx:58 | The digits of `String(n)` denote `n`. |
| JsBuiltins.ParseIntOfNatToString | src/app/chat/page.tsx:58 | `parseInt(String(n))` is `n`, so the stored chunk count is read back exactly. |
| JsBuiltins.NatToStringInjective | src/app/chat/page.tsx:54 | Distinct numbers give distinct decimal strings. |
| JsBuiltins.DigitChar | src/app/chat/page.tsx:58 | The digit character for `d < 10` is a digit with value `d`. |
| FileConverter.ExtensionKey | src/utils/fileConverter.ts:7 | The key is the lower-cased suffix of the name after its last `.`, and contains no `.`. It is the whole name lower-cased when there is no `.`. |
| FileConverter.ExtensionKeyOfLowered | src/utils/fileConverter.ts:7 | Lower-casing before or after the split gives the same key. |
| FileConverter.ExtensionKeyIgnoresCase | src/utils/fileConverter.ts:7 | Names equal up to ASCII case select the same handler. |
| FileConverter.NameWithoutDotExamples | src/utils/fileConverter.ts:7-31 | A name without a dot is its own key: `README` is refused as unsupported, `PDF` is read as a PDF. |
| FileConverter.FileToText | src/utils/fileConverter.ts:6-73 | txt/md/rtf return the file's text. pdf gives the PDF handler's result. doc/docx give the extractor's raw text or its error, which is all handleWord does. xls/xlsx give the spreadsheet handler's result. ppt/pptx fail with the PowerPoint message. Every other key fails with "Unsupported file type". |
| FileConverter.HandlePowerPoint | src/utils/fileConverter.ts:69-73 | handlePowerPoint always fails, with the message asking for a PDF. |
| FileConverter.HandlePdf | src/utils/fileConverter.ts:35-47 | The page loop yields the text of the recursive definition, or the first error: of opening the document, or of the first page that fails. |
| FileConverter.PageLine | src/utils/fileConverter.ts:43 | A page's line is non-empty and ends with a line break. |
| FileConverter.PdfResult | src/utils/fileConverter.ts:35-47 | An error opening the document is returned as is. The result is a success iff the document opens and every page's content can be read. |
| FileConverter.PdfText | src/utils/fileConverter.ts:40-44 | Successful text has at least one character per page. |
| FileConverter.PdfTextAppend | src/utils/fileConverter.ts:40-44 | The text of two runs of pages is the first text followed by the second. An error in the first run stops the second. |
| FileConverter.PdfTextSucceedsIffEveryPageDoes | src/utils/fileConverter.ts:41-43 | The conversion succeeds iff every page's content can be read. |
| FileConverter.PdfTextFailsWithFirstPageError | src/utils/fileConverter.ts:41-43 | A failing conversion reports the error of the first failing page. |
| FileConverter.JoinWithoutChar | src/utils/fileConverter.ts:43 | Joining items that lack a character, with a separator that lacks it, gives a string without it. |
| FileConverter.PdfTextLineBreakPerPage | src/utils/fileConverter.ts:43 | When every page reads and no text item contains a newline, the conversion succeeds with exactly one line break per page. |
| FileConverter.HandleExcel | src/utils/fileConverter.ts:55-67 | The sheet loop yields the concatenated sheet blocks in workbook order, or the workbook's read error. |
| FileConverter.ExcelResult | src/utils/fileConverter.ts:55-67 | The result is a success iff the workbook is read. A read error is returned as is. |
| FileConverter.SheetBlockShape | src/utils/fileConverter.ts:62-63 | A sheet's block is its `Sheet: <name>` line, then the CSV, then a blank line: ten characters more than the name and the CSV. |
| FileConverter.SheetsTextAppend | src/utils/fileConverter.ts:60-64 | The text of two runs of sheets is the first text followed by the second. |
| FileConverter.SheetBlockInPlace | src/utils/fileConverter.ts:60-64 | Sheet `k`'s block, `Sheet: <name>\n<csv>\n\n`, sits between the blocks of the sheets before and after it. |
| FileConverter.SingleSheetExample | src/utils/fileConverter.ts:62-63 | A one-sheet workbook `Q1` whose CSV is `A,B\n1,2` gives `Sheet: Q1\nA,B\n1,2\n\n`. |
| ChatStorage.ChunkKey | src/app/chat/page.tsx:54 | A chunk key is neither the primary key nor the count key. |
| ChatStorage.ChunkKeyInjective | src/app/chat/page.tsx:54 | Distinct chunk indices have distinct keys. |
| ChatStorage.Store.SetItem | src/app/chat/page.tsx:54 | `setItem` maps the key to the value and keeps every other key. |
| ChatStorage.Store.RemoveItem | src/app/chat/page.tsx:173 | `removeItem` drops the key and keeps every other key. |
| ChatStorage.SourceLoopNeverExitsOnOneMessage | src/app/chat/page.tsx:46-51 | With one message the step `Math.floor(1 / 2)` is 0. The index stays 0 after any number of rounds, so `i < 1` never fails. |
| ChatStorage.SourceLoopPushesEmptySlices | src/app/chat/page.tsx:46-51 | With one message, after `r` rounds the loop is still running and has pushed `r` empty slices. |
| ChatStorage.ChunkSize | src/app/chat/page.tsx:46 | The step is at least 1. It equals `Math.floor(n / 2)` for every list of two or more messages. |
| ChatStorage.FlattenSnoc | src/app/chat/page.tsx:75 | Appending a chunk to the reassembly appends its messages. |
| ChatStorage.Chunks | src/app/chat/page.tsx:49-51 | The chunks concatenate back to the list. None is empty. Every chunk holds at most `size` messages, and all but the last hold exactly `size`. |
| ChatStorage.ChunksOfShort | src/app/chat/page.tsx:49-51 | A non-empty list no longer than the step is one chunk. |
| ChatStorage.EvenHalves | src/app/chat/page.tsx:46-51 | A list of `2m` messages becomes its two halves. |
| ChatStorage.OddHalves | src/app/chat/page.tsx:46-51 | A list of `2m + 1` messages becomes two chunks of `m` and a last chunk of one message. |
| ChatStorage.ChunkCountOfTwoOrMore | src/app/chat/page.tsx:46-58 | The stored count is 2 for an even list of two or more messages and 3 for an odd one. |
| ChatStorage.NoChunksForNoMessages | src/app/chat/page.tsx:49-51 | An empty list makes no chunks. |
| ChatStorage.SliceFrom | src/app/chat/page.tsx:50 | `slice(i, i + size)` from inside the list takes `size` messages, or the rest of the list when fewer remain. |
| ChatStorage.ChunksFromIsChunks | src/app/chat/page.tsx:49-51 | The loop's slices from position `start` are the chunks of the rest of the list. |
| ChatStorage.WriteChunks | src/app/chat/page.tsx:53-55 | After the `forEach`, chunk key `j` holds chunk `j`. Every key that is not a written chunk key is unchanged. |
| ChatStorage.ChunkedSaveLoads | src/app/chat/page.tsx:46-58 | Round trip: after the quota fallback, the chunk loader returns exactly the saved list. |
| ChatStorage.ChunkedSaveKeepsMainKey | src/app/chat/page.tsx:53-58 | The quota fallback leaves the value under `chatMessages` as it was. |
| ChatStorage.ChunkCount | src/app/chat/page.tsx:68-72 | The count is absent iff the count value is missing or empty, both falsy. A serialized list parses as `NaN` and gives a loop of no rounds. |
| ChatStorage.InitialMessagesThrowsOnlyOnText | src/app/chat/page.tsx:25-31 | The initializer throws iff `chatMessages` holds non-empty text that is not a list. A missing value starts an empty transcript. |
| ChatStorage.MountPrefersChunks | src/app/chat/page.tsx:66-84 | A mount fails only when the initializer throws. Reassembled chunks replace the primary list. Without a count key, the primary list is shown. |
| ChatStorage.LoadChunksOfWritten | src/app/chat/page.tsx:72-77 | Reading the first `count` written chunks gives their concatenation. |
| ChatStorage.LoadChunksReadsOnlyCountedKeys | src/app/chat/page.tsx:72-77 | The reassembly depends only on chunk keys below the count. |
| ChatStorage.LoadedChunksReadsOnlyCountedKeys | src/app/chat/page.tsx:68-78 | The loader depends only on the count key and the chunk keys below its count. |
| ChatStorage.MissingChunkIsSkipped | src/app/chat/page.tsx:73-76 | A missing chunk key reads like an empty chunk. |
| ChatStorage.LoadChunksStaysAbandoned | src/app/chat/page.tsx:70-81 | Once a chunk fails to parse, the load is abandoned whatever the later chunks hold. |
| ChatStorage.ChunkedSaveThenMount | src/app/chat/page.tsx:25-84 | After the quota fallback, a fresh mount shows exactly the saved list. |
| ChatStorage.PrimarySaveThenMount | src/app/chat/page.tsx:38-84 | After a primary save, a fresh mount shows the saved list unless the chunks stored earlier load (a count is stored and every counted chunk parses); then those chunks win. |
| ChatStorage.ClearedRemovesExactly | src/app/chat/page.tsx:167-178 | After clearing, the primary key, the count key and the chunk keys below the stored count are gone. Every other key is kept. |
| ChatStorage.RemoveNextChunkKey | src/app/chat/page.tsx:172-174 | Removing chunk key `i` after keys `0..i-1` removes keys `0..i`. |
| ChatStorage.ClearedMountsEmpty | src/app/chat/page.tsx:167-178 | After clearHistory, a reload shows an empty transcript. |
| ChatStorage.ClearRemovesSavedChunks | src/app/chat/page.tsx:53-58 | clearHistory removes every chunk the quota fallback wrote. |
| ChatPage.MarkdownToHtml | src/app/chat/page.tsx:18-21 | The output has no line break. |
| ChatPage.MarkdownToHtmlLength | src/app/chat/page.tsx:20 | Each line break grows the text by five characters; nothing else changes the length. |
| ChatPage.MarkdownToHtmlAppend | src/app/chat/page.tsx:20 | The rewrite of a concatenation is the concatenation of the rewrites. |
| ChatPage.MarkdownToHtmlKeepsOtherText | src/app/chat/page.tsx:20 | Text without line breaks is returned unchanged. |
| ChatPage.MarkdownToHtmlIdempotent | src/app/chat/page.tsx:20 | Rewriting twice is the same as rewriting once. |
| ChatPage.OtherPrefix | src/app/chat/page.tsx:20 | The inverse rewrite keeps a leading character other than `<`. |
| ChatPage.BreaksToNewlinesUndoesRewrite | src/app/chat/page.tsx:20 | On text without `<`, turning `<br />` back into line breaks recovers the input. |
| ChatPage.CanSubmitIff | src/app/chat/page.tsx:113 | A submission goes ahead iff no request is in flight and either an image is selected or the input has a non-white-space character. |
| ChatPage.RecentHistoryIsLastFive | src/app/chat/page.tsx:132-135 | The history has `min(5, n)` entries: the last messages in order, each reduced to role and content. |
| ChatPage.UserMessageAttachesPreview | src/app/chat/page.tsx:115-122 | The user's message has the user role, the input and the time. It carries the preview exactly when the preview is non-empty. |
| ChatPage.ChatPage.constructor | src/app/chat/page.tsx:24-36 | The page starts from the parsed `chatMessages` list (empty when absent), with empty input, no error, no image and no request in flight. |
| ChatPage.ChatPage.SaveMessages | src/app/chat/page.tsx:38-64 | The store afterwards is the list under `chatMessages`, or, on a quota failure, the chunked save. |
| ChatPage.ChatPage.SplitIntoChunks | src/app/chat/page.tsx:46-51 | The loop's chunks are the chunks of the list for the corrected step. |
| ChatPage.ChatPage.ReadChunkedMessages | src/app/chat/page.tsx:68-81 | The loop returns the loader's reassembly: `None` without a count or on a parse failure. |
| ChatPage.ChatPage.LoadChunkedMessages | src/app/chat/page.tsx:66-84 | The transcript becomes the reassembled list when there is one, and is unchanged otherwise. Nothing else changes. |
| ChatPage.ChatPage.ClearHistory | src/app/chat/page.tsx:167-178 | The transcript is empty and the store is the cleared store. Nothing else changes. |
| ChatPage.ChatPage.Submit | src/app/chat/page.tsx:111-147 | A refused submission changes nothing. Otherwise the request carries the input, the preview and the last five earlier messages. The user's message is appended with its image only when the preview is non-empty. Input and image are cleared, the error is reset, and loading starts. |
| ChatPage.ChatPage.ReceiveReply | src/app/chat/page.tsx:149-164 | A reply is appended as the assistant's message. A failure sets the error text, "Failed to get response" when it has none. Loading stops either way. |

## Left out

- JSON serialization is abstract (`Serialized`/`Raw`). `JSON.parse` of a
  non-empty `Raw` value is taken to throw. The model does not cover a stored
  JSON string, whose characters the spread would append, nor a primary value
  that parses to something other than a list.
- Quota detection is an input: `SaveMessages(quotaExceeded)` says whether
  the primary `setItem` threw `QuotaExceededError`. Other exceptions, and
  quota failures during the chunk writes, are not modelled; those writes are
  assumed to succeed.
- ChatPage.ChatPage.constructor: requires the stored `chatMessages` value
  to parse. When it does not, the source's initializer throws and the page
  is not constructed. At the function level that case is
  `InitialMessages(items) == None`, and so `MountedMessages(items) == None`.
- ChatPage.ChatPage.SaveMessages: splits with the corrected step (see
  Findings). For a single message the source does not terminate.
- JsBuiltins.LowerChar: lower-cases only ASCII letters, not the full Unicode
  case mapping of `toLowerCase`.
- JsBuiltins.ParseInt: reads decimal digits only. The `0x` prefix and
  values beyond the safe-integer range are not modelled; the page only
  parses what `String(n)` wrote.
- The `typeof window` checks at src/app/chat/page.tsx:26 and :67 are
  assumed true: the model is the browser side.
- React's state scheduling is not modelled. Each method applies its
  updates at once, and the save effect is a separate call rather than a
  reaction to every change of `messages`.
- The network call is not modelled. `fetch`, `response.json()` and the
  server route are replaced by the `reply` argument of `ReceiveReply`. A
  missing `data.result` is not represented.
- `Date.now()` is the `now` argument.
- The file reads (`File.text()`, `arrayBuffer()`) and the parsers (pdf.js,
  mammoth, SheetJS) are the `Parsers` inputs. Their own behaviour is not
  modelled. A PDF's pages are given as a sequence, so `numPages` is that
  sequence's length.
- Reading an image into a data URL (`FileReader`, src/app/chat/page.tsx:94-104)
  is not modelled. The selected image and its preview are fields set by the
  caller.
- Scrolling, exporting and importing the history, rendering, and the
  Markdown renderer are not modelled. The page's own display does not
  call `markdownToHtml`; it is modelled as the function it defines.
- The other pages, authentication and the server route are not part of
  this model.

## Findings

| source | as written | input that shows it | evidently intended | confidence | as-written member | corrected member |
|---|---|---|---|---|---|---|
| src/app/chat/page.tsx:46-51 | The step is `Math.floor(messages.length / 2)`, which is 0 for one message, so `i += chunkSize` never advances. | A transcript of one message whose primary `setItem` throws `QuotaExceededError`, for example one holding a large image. | A step of at least 1, so that one message is stored as one chunk. | not executed; high | ChatStorage.SourceLoopNeverExitsOnOneMessage | ChatPage.ChatPage.SplitIntoChunks |
