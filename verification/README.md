# Family-card extraction: a Dafny model

This project models the logic of a browser application that turns scans of
Indonesian family cards (Kartu Keluarga, "KK") into a spreadsheet of the
children listed on them. The user picks PDF files or ZIP archives of PDFs.
The picker checks their size and type. The pipeline then:

- expands the archives into a flat list of PDF documents;
- sends each document to an AI extraction service through a retry wrapper
  that backs off on rate limits;
- runs at most five extractions at a time, in consecutive waves, and reports
  progress after every settled extraction;
- puts the outcomes back into document order through a name-to-index map.

The application splits the outcomes into successes and failures, composes
the failure message, and exports the successes to a workbook with one sheet
per document.

The network service, the JSON parser, the ZIP reader and the order in which
concurrent calls complete are parameters of the model:

- a `Service` value gives the file reader's success, the `k`-th response or
  thrown error of the service, and the parser;
- an `Archive` value is either the entry list of a readable ZIP or the
  reader's error;
- one permutation per wave (`orders`) gives the order in which that wave's
  extractions settle.

Every property below is therefore proved for every service behaviour and
every completion order.

Modules, one per file, follow the source's structure:

- `Wrappers`: `Option` and `Result`.
- `Text`: the JavaScript string operations used (`endsWith`, `toLowerCase`
  on ASCII, `lastIndexOf`, `trim`, `split`, `join`).
- `Types`: the record type, its 17 columns and the other shared records.
- `Errors`: thrown errors and the rate-limit test.
- `Retry`: the retry wrapper.
- `Naming`: extension stripping and base names.
- `Extractor`: the outcome of one document.
- `Expander`: archive expansion.
- `Chunking`: the waves of at most five.
- `Schedule`: launch and settle events under arbitrary completion orders.
- `Ordering`: the name-to-index map and the stable sort.
- `Pipeline`: the whole batch, its progress trace and its result order.
- `Upload`: the picker's validation.
- `Excel`: the export.
- `App`: the application's handlers.

## Model

| member | source | states |
|---|---|---|
| Types.FromRow | types.ts:2-20 | a row of 17 strings read back into a record gives back that row: every field is a plain string and nothing else |
| Types.ColumnsShape | types.ts:22-40 | there are exactly 17 columns, pairwise distinct, from "No." to "No. KK" |
| Types.RowFollowsColumns | types.ts:2-40 | the i-th cell of a record's row is the field named by the i-th column; a name that is not a column has no field |
| Types.RowRoundTrip | types.ts:2-40 | writing a record as a row in column order and reading it back gives the same record |
| Types.RequiredAreColumns | services/geminiService.ts:35-36 | every field the response schema requires is one of the 17 ordered columns |
| Errors.LocalFailuresNotRateLimited | services/geminiService.ts:102-106 | neither a failed file read nor the error from an absent response text is taken for a rate limit |
| Errors.IsRateLimited | services/geminiService.ts:44-105 | the one rate-limit test, shared by the retry wrapper and the per-file reason: the message contains "RESOURCE_EXHAUSTED" or "429"; its consequences are stated by Retry.StopsAtFirstNonRetryable, Errors.LocalFailuresNotRateLimited and Extractor.Reason |
| Retry.RetryFrom | services/geminiService.ts:40-51 | calls continue only while the error is a rate limit and retries remain; the result is the last call's, unchanged; wait i is delay times 2^i |
| Retry.WithRetry | services/geminiService.ts:40-51 | at most retries + 1 calls; every call before the last threw a rate-limit error; the last result is returned or rethrown as it was; waits double from the initial delay |
| Retry.StopsAtFirstNonRetryable | services/geminiService.ts:41-49 | the first success, or the first error that is not a rate limit, ends the retries and is the result |
| Retry.GivesUpWhenExhausted | services/geminiService.ts:44-49 | after the budget of retries is spent, the last rate-limit error is rethrown |
| Retry.DefaultSchedule | services/geminiService.ts:40-47 | with the defaults there are at most 4 calls and the waits are a prefix of 1000, 2000, 4000 |
| Retry.SucceedsAfterRateLimits | services/geminiService.ts:40-47 | k rate-limit errors (k at most 3) followed by a response yield that response after waits 1000, 2000, 4000 cut to k |
| Naming.StripExtension | services/geminiService.ts:95 | the result is a prefix of the name; it cuts at a position that starts `.ext` with a non-empty `ext` free of '/' and '.'; with no such position the name is unchanged |
| Naming.ExtensionAtUnique | services/geminiService.ts:95 | at most one position starts such a suffix, so the replacement is determined |
| Naming.StripShortensIff | services/geminiService.ts:95-110 | stripping shortens a name if and only if it ends in such a suffix |
| Naming.StripExamples | services/geminiService.ts:95 | "KK_001.pdf" and "a.b.pdf" lose their last extension; "a.", "noext" and "v1.0/scan" are unchanged |
| Naming.BaseName | services/geminiService.ts:129-130 | the base name has no '/', ends the path, and is preceded in the path by a '/' when it is shorter |
| Naming.BaseNameSplitsPath | services/geminiService.ts:129-130 | every path is a directory prefix (empty or ending in '/') followed by its base name |
| Naming.BaseNameAfterSlash | services/geminiService.ts:129-130 | the base name of `dir/n` is `n` when `n` has no '/' |
| Text.TrimEmptyIff | services/geminiService.ts:92-93 | a trimmed text is empty exactly when every character is JavaScript white space |
| Text.Trim | services/geminiService.ts:92 | a trimmed text is no longer than the input and neither starts nor ends with white space |
| Text.TrimIsSlice | services/geminiService.ts:92 | trimming removes white space and nothing else: the result is a slice of the input with only white space around it |
| Text.SplitJoin | App.tsx:45 | lines joined with '\n' split back into the same lines when none contains '\n' |
| Extractor.ExtractOne | services/geminiService.ts:68-112 | the outcome always carries the stripped name; a failed outcome has no records and one of the three user-facing reasons |
| Extractor.Reason | services/geminiService.ts:104-109 | the rate-limit reason exactly for a rate-limit message; otherwise the parse reason exactly for a SyntaxError, and the generic reason for everything else |
| Extractor.Attempted | services/geminiService.ts:68-110 | the attempt behind one outcome: a failed read, the retried call's error, the missing-text error, the empty success of a blank response, or the parser's result; stated case by case by Extractor.BlankResponseIsEmptySuccess, ParsedResponseIsSuccess, SyntaxErrorIsParseFailure, ServiceSyntaxErrorIsParseFailure, ServiceRateLimitIsRateLimit and OtherFailuresAreGeneric |
| Extractor.BlankResponseIsEmptySuccess | services/geminiService.ts:92-96 | a response that is blank after trimming, on whichever call the retries end, gives zero records and no error |
| Extractor.ParsedResponseIsSuccess | services/geminiService.ts:98-100 | a parsed response, on whichever call the retries end, gives exactly the parsed records and no error |
| Extractor.SyntaxErrorIsParseFailure | services/geminiService.ts:98-110 | a parse failure of the final response gives no records and the parse reason, unless its message looks like a rate limit |
| Extractor.ServiceSyntaxErrorIsParseFailure | services/geminiService.ts:102-108 | a SyntaxError thrown by the service call itself, when the retries end on it and it carries no rate-limit marker, gives no records and the parse reason |
| Extractor.ServiceRateLimitIsRateLimit | services/geminiService.ts:102-106 | a rate-limit error the retries end on gives no records and the rate-limit reason, even when it is a SyntaxError |
| Extractor.RateLimitCheckedBeforeSyntax | services/geminiService.ts:105-108 | a SyntaxError whose message contains "429" is reported as a rate limit |
| Extractor.ExhaustedRetriesAreRateLimit | services/geminiService.ts:83-106 | four rate-limit errors in a row give the rate-limit reason |
| Extractor.OtherFailuresAreGeneric | services/geminiService.ts:92-104 | a failed read, a final response without text, or a final error that is neither a rate limit nor a SyntaxError gives the generic reason |
| Expander.PdfEntries | services/geminiService.ts:125-133 | an archive yields at most one document per entry, each typed as a PDF and named without directories |
| Expander.PdfEntriesAppend | services/geminiService.ts:125-133 | entry order is kept: the documents of two runs of entries are those of each run in turn |
| Expander.PdfEntriesMembership | services/geminiService.ts:127-132 | a document comes out of an archive exactly when a non-directory entry with a lower-cased ".pdf" name produces it |
| Expander.IsZip | services/geminiService.ts:123 | the expansion's ZIP test: type "application/zip" or a name ending in ".zip", case-sensitively; Expander.UpperCaseZipDropped and Upload.ExpandedFilesWereSupported state how it differs from the picker's |
| Expander.ExpandOne | services/geminiService.ts:123-137 | one file fails exactly when it is a ZIP whose archive cannot be read; a file that is not a ZIP contributes at most one document |
| Expander.Expand | services/geminiService.ts:122-138 | the whole selection expanded in order; stated by Expander.ExpandSucceedsIffReadable, ExpandFailsAtFirstUnreadable and ExpandAppend |
| Expander.ExpandSucceedsIffReadable | services/geminiService.ts:122-124 | the expansion succeeds exactly when no selected ZIP is unreadable |
| Expander.ExpandFailsAtFirstUnreadable | services/geminiService.ts:122-124 | when it fails, the error is that of the first unreadable ZIP |
| Expander.ExpandAppend | services/geminiService.ts:122-138 | top-level order is kept: expanding a + b gives the documents of a, then those of b |
| Expander.StandaloneKeptIffPdf | services/geminiService.ts:135-137 | a file that is not a ZIP is kept, unchanged, exactly when its declared type is "application/pdf" |
| Expander.ZipKeepsPdfEntries | services/geminiService.ts:123-134 | a readable ZIP contributes exactly the documents of its PDF entries |
| Expander.UpperCaseZipDropped | services/geminiService.ts:123-135 | "ARSIP.ZIP" with a type other than the ZIP or PDF type is neither opened nor kept |
| Expander.ThreePdfArchive | services/geminiService.ts:125-133 | an archive with a folder, a nested PDF, an upper-case ".PDF", a text file and a PDF yields the three PDFs in entry order under their base names |
| Chunking.Chunks | services/geminiService.ts:140-153 | the waves concatenate to the input; each holds 1 to 5 items and all but the last hold exactly 5 |
| Chunking.ChunkCount | services/geminiService.ts:152 | there are ceil(n / 5) waves |
| Chunking.ChunkIsSlice | services/geminiService.ts:152-153 | wave k is the slice from 5k to min(5k + 5, n) |
| Chunking.TwelveMakeThreeWaves | services/geminiService.ts:152-153 | twelve documents make waves of 5, 5 and 2 |
| Schedule.CompletionIsPermutation | services/geminiService.ts:155-167 | whatever the completion order, a wave settles each of its documents exactly once |
| Schedule.LaunchAndSettleOnce | services/geminiService.ts:152-169 | documents are launched in list order and every one settles exactly once |
| Schedule.InFlightBound | services/geminiService.ts:140-167 | at every moment at most 5 extractions are launched and not yet settled |
| Schedule.Barrier | services/geminiService.ts:152-169 | when a document is launched, exactly the documents of all earlier waves have settled |
| Ordering.OrderMap | services/geminiService.ts:174-176 | the map holds exactly the listed names, each mapped to a position where it occurs |
| Ordering.OrderMapIsLast | services/geminiService.ts:174-176 | a name maps to its last occurrence: no later position holds it |
| Ordering.OrderMapLastIndex | services/geminiService.ts:174-176 | every name's index is at least any of its positions, and is its position when names are distinct |
| Ordering.SortByKey | services/geminiService.ts:178-180 | the sort returns a key-ordered permutation of its input |
| Ordering.SortIsStable | services/geminiService.ts:178-180 | entries with equal keys keep their relative order |
| Ordering.SortKeepsIncreasing | services/geminiService.ts:178-180 | a list already in strictly increasing key order is left as it is |
| Ordering.SortKeepsItems | services/geminiService.ts:178-180 | sorting neither loses nor invents an outcome |
| Pipeline.Outcomes | services/geminiService.ts:155-165 | one outcome per document, named after that document without its extension |
| Pipeline.WavesShape | services/geminiService.ts:152-153 | the waves of positions cover 0 .. n - 1 in order, each of at most 5 |
| Pipeline.CollectedIsSelect | services/geminiService.ts:167-168 | collecting the waves' results appends the outcomes at the flattened positions |
| Pipeline.CollectedInOrder | services/geminiService.ts:167-168 | before sorting, the outcomes are in document order whatever the completion order |
| Pipeline.OrderMapKeysAreOutcomeNames | services/geminiService.ts:174-176 | the order map's keys are exactly the outcomes' names, and each key points at an outcome carrying that name |
| Pipeline.AllNamesFound | services/geminiService.ts:175-179 | every outcome's name is in the map, so the missing-name fallback never applies |
| Pipeline.SortKey | services/geminiService.ts:178-179 | a name in the map sorts by its index and any other name after every index; Pipeline.AllNamesFound shows the fallback is never used |
| Pipeline.Reorder | services/geminiService.ts:174-180 | the final sort of the outcomes by their map index; stated by Pipeline.ReorderIsPermutation, DistinctNamesKeepDocumentOrder and DuplicateNamesReordered |
| Pipeline.Snapshots | services/geminiService.ts:156-162 | the c-th settled extraction reports c + 1 processed, the fixed total and that document's name |
| Pipeline.SettleOrder | services/geminiService.ts:152-167 | the order in which documents settle across all waves is a permutation of the documents |
| Pipeline.ExtractAll | services/geminiService.ts:140-180 | one result per document; progress starts at 0/n "Memulai ekstraksi..." and ends at n/n "Selesai" |
| Pipeline.Run | services/geminiService.ts:115-180 | progress opens with 0 of the top-level count "Membuka file zip..."; an unreadable ZIP fails the run after that one snapshot; otherwise the run is the extraction of the expanded documents |
| Pipeline.NothingToExtract | services/geminiService.ts:145-150 | with no documents the progress is 0/0 "Memulai ekstraksi...", then 0/0 "Selesai", and the result is empty |
| Pipeline.ProgressUnfolds | services/geminiService.ts:145-171 | the progress trace is the start snapshot, one snapshot per settled document, then the final snapshot |
| Pipeline.ProgressCountsSettlements | services/geminiService.ts:156-163 | the completion snapshots report 1 .. n processed in increasing order, each naming a distinct document |
| Pipeline.ResultsAreReordered | services/geminiService.ts:167-180 | the result is the in-order outcomes sorted by their map index |
| Pipeline.ReorderIsPermutation | services/geminiService.ts:178-180 | reordering neither loses nor invents an outcome |
| Pipeline.KeepsEveryOutcome | services/geminiService.ts:155-180 | the batch returns exactly the per-document outcomes, as a multiset, for every completion order |
| Pipeline.DistinctNamesKeepDocumentOrder | services/geminiService.ts:173-180 | when the stripped names are pairwise distinct, the result is in document order |
| Pipeline.DuplicateNamesKeys | services/geminiService.ts:174-176 | for documents "a.pdf", "b.pdf", "a.pdf", the map sends "a" to 2 and "b" to 1 |
| Pipeline.DuplicateNamesReordered | services/geminiService.ts:173-180 | for those documents the sort moves the second outcome first, so the result is not in document order |
| Pipeline.ReorderByPosition | services/geminiService.ts:173-180 | the corrected ordering, by collection position; stated by Pipeline.ReorderByPositionKeepsOrder |
| Pipeline.ReorderByPositionKeepsOrder | services/geminiService.ts:173-180 | ordering by collection position keeps document order for every list, and agrees with the name map when names are distinct |
| Pipeline.CorrectedReorderKeepsDocumentOrder | services/geminiService.ts:167-180 | with the corrected ordering, the collected outcomes come back in document order for every completion order, even with repeated names |
| Upload.Rejection | components/FileUpload.tsx:27-39 | a file is refused if and only if it is larger than the limit or of no supported type; the size message wins |
| Upload.Extension | components/FileUpload.tsx:25 | the extension has no dot; it is the lower-cased text after the last dot, or the whole lower-cased name when there is no dot |
| Upload.SupportedType | components/FileUpload.tsx:33 | the picker's type test: declared as PDF or ZIP, or with extension "pdf" or "zip"; stated through Upload.Rejection and Upload.PickedFilesAreExpanded |
| Upload.FirstRejection | components/FileUpload.tsx:23-40 | the batch has a refusal exactly when some file is refused |
| Upload.FirstRefused | components/FileUpload.tsx:23-40 | a refusal is that of a refused file all of whose predecessors pass |
| Upload.FirstRejectionIsFirst | components/FileUpload.tsx:23-40 | the message names the first refused file |
| Upload.HandleFiles | components/FileUpload.tsx:16-49 | a missing list changes nothing; a refusal empties the selection and shows the first refusal; otherwise the whole list is selected in order |
| Upload.SizeLimitIsInclusive | components/FileUpload.tsx:8-27 | the limit is 52,428,800 bytes; a file of exactly that size passes and one byte more is refused |
| Upload.SizeCheckedBeforeType | components/FileUpload.tsx:27-39 | a file both too large and of the wrong type is refused for its size |
| Upload.StopsAtFirstRefusal | components/FileUpload.tsx:27-39 | files after the first refused one do not affect the outcome |
| Upload.DotlessNamePasses | components/FileUpload.tsx:25-33 | a file named "PDF" is its own extension and passes the type check whatever its declared type |
| Upload.ExpandedFilesWereSupported | components/FileUpload.tsx:33 | every file the expansion opens or keeps is one the picker accepts by type |
| Upload.PickedZipDropped | components/FileUpload.tsx:25-33 | "ARSIP.ZIP" declared "application/x-zip-compressed" passes the picker yet expands to nothing |
| Upload.PickedFilesAreExpanded | components/FileUpload.tsx:33 | with the picker's own test, a file is opened or kept if and only if the picker accepts it |
| Upload.AsPickedAppend | components/FileUpload.tsx:33 | with the picker's own test, expanding two runs of files is expanding each in turn |
| Upload.AcceptedFilesContributeInOrder | components/FileUpload.tsx:23-44 | with the picker's own test, every file of an accepted selection contributes in its place: each ZIP is opened and every other file is kept as a PDF |
| Excel.RemoveForbidden | services/excelService.ts:13 | the filtered name is no longer, holds none of `* ? : [ ] / \`, and keeps every other character |
| Excel.RemoveForbiddenAppend | services/excelService.ts:13 | the filter works character by character, so it distributes over concatenation |
| Excel.SheetName | services/excelService.ts:13 | a sheet name has at most 31 characters, none forbidden, and is a prefix of the filtered name, all of it when that fits |
| Excel.SheetNameIdempotent | services/excelService.ts:13 | sanitising a sanitised name changes nothing |
| Excel.ForbiddenCharactersIgnored | services/excelService.ts:13 | names that differ only by a forbidden character get the same sheet name |
| Excel.ToSheet | services/excelService.ts:11-14 | a sheet is headed by the 17 columns in order and has one full row per record |
| Excel.SheetRoundTrip | services/excelService.ts:11 | reading a sheet back gives its outcome's records in order |
| Excel.Sheets | services/excelService.ts:9-16 | there are no sheets exactly when no outcome has records |
| Excel.SheetsAppend | services/excelService.ts:9-16 | sheets are appended in outcome order |
| Excel.SheetOfOne | services/excelService.ts:10-15 | an outcome with records contributes one sheet and one without contributes none |
| Excel.ExportKeepsEveryRecord | services/excelService.ts:9-16 | reading all sheets back in order gives every outcome's records in order |
| Excel.FirstTakenIff | services/excelService.ts:9-16 | appending sheet after sheet stops exactly when a name would repeat in the workbook, and at a name it already holds |
| Excel.SheetsHaveName | services/excelService.ts:9-16 | a sheet name is used exactly when some outcome with records gets it |
| Excel.DistinctSheetsIffNoClash | services/excelService.ts:9-16 | the sheets' names are pairwise distinct exactly when no two outcomes with records clash |
| Excel.DownloadAsExcel | services/excelService.ts:6-23 | with no outcome holding records the alert is shown; when two outcomes with records share a sheet name the library stops at the repeated name; otherwise "HASIL_EKSTRAK_KK.xlsx" is written with one sheet per such outcome, holding all their records |
| App.Filter | App.tsx:37-38 | the filter keeps exactly the elements that satisfy the test |
| App.Succeeded | App.tsx:37 | the success test: no truthy error and at least one record; stated through App.ListsAreDisjoint and App.OutcomesArePartitioned |
| App.HasError | App.tsx:38 | the failure test: a truthy error; stated through App.ListsAreDisjoint and App.OutcomesArePartitioned |
| App.FilterAppend | App.tsx:37-38 | the filter keeps relative order |
| App.FilterCount | App.tsx:37-38 | each kept element occurs as often as in the input |
| App.ListsAreDisjoint | App.tsx:37-38 | no outcome is both successful and failed; an outcome with no error and no records is in neither list |
| App.OutcomesArePartitioned | App.tsx:37-38 | successes, failures and empty outcomes together are exactly the outcomes |
| App.EachFailureHasItsLine | App.tsx:45 | each failed outcome's name and reason can be read back from its own line of the message, and there is one line per failure |
| App.FailureMessage | App.tsx:44-46 | the heading and one line per failure; stated by App.FailureMessageLines and App.EachFailureHasItsLine |
| App.FailureMessageLines | App.tsx:44-46 | the message is the heading followed by the bullet lines, which split back out of it |
| App.FatalMessageCarriesError | App.tsx:51 | a non-empty thrown message appears in the fatal message, and two messages give the same text only when equal or when one is empty and the other the placeholder |
| App.Conclude | App.tsx:37-53 | the kept data are exactly the successful outcomes in order; an error is shown exactly when some outcome failed, and it is the failure message; loading is cleared |
| App.HandleExtraction | App.tsx:21-55 | no files: only the "Silakan pilih file" error, nothing runs; otherwise "Mempersiapkan..." is shown first; an unreadable ZIP becomes one fatal error with no data; loading always ends cleared |
| App.KeptDataIndependentOfOrder | App.tsx:33-41 | the kept data are the same multiset whatever the completion order |
| App.KeptDataInDocumentOrder | App.tsx:33-41 | with distinct stripped names, the kept data are the successful outcomes in document order |
| App.FilesChangeOverrides | App.tsx:15-19 | a new selection replaces the old outright: choosing a then b is choosing b, and only the loading state of the earlier state survives |
| App.ResetForgetsState | App.tsx:63-68 | a reset forgets everything: every state resets to the same state, the one an empty selection leaves after a reset |
| App.HandleDownload | App.tsx:57-61 | nothing happens without data; otherwise the export runs on the kept data |
| App.FreshStatesHaveNothingToDownload | App.tsx:15-68 | after a change of files or a reset there is nothing to download; reset is idempotent; extracting after a reset asks for files |
| App.DownloadWithRecords | App.tsx:57-61 | with records to export the alert cannot follow, and the workbook is written exactly when no two outcomes share a sheet name |
| App.DownloadAfterExtractionWrites | App.tsx:37-61 | once an extraction keeps data, a download never shows the alert; it writes the workbook, one sheet per kept outcome, exactly when no two kept outcomes share a sheet name |

## Left out

- The AI service client, the prompt text and the schema's field descriptions (services/geminiService.ts:10, 73-90). They are foreign code; the service is an oracle returning a response text or throwing.
- The module-level check for the API key (services/geminiService.ts:6-8). It is a load-time guard with no logic to model.
- Reading a file as base64 (services/geminiService.ts:53-66). This is browser I/O; only whether the read fails is modelled.
- ZIP decompression internals. An archive is its entry list, or the reader's error. Three behaviours of the library are not modelled: duplicate entry names, the enumeration order of integer-like keys, and a failure while reading one entry's contents.
- JSON parsing. The parser is an oracle that returns records or a SyntaxError. A parsed value that is not an array of records is not represented. A record always has all 17 fields present: a parsed object missing an optional field (the schema requires only 7, services/geminiService.ts:35), or carrying an extra key (which `json_to_sheet` would turn into an extra column), is not representable.
- Spreadsheet internals. These are sheet building, writing the file, and the library's character counting in UTF-16 units (the model counts characters).
- Excel.DownloadAsExcel: of the library's checks on a sheet name only the refusal of a repeated name is modelled; a name that sanitises to the empty string (which the library replaces by a generated one) is treated like any other name, and this also bounds App.DownloadAfterExtractionWrites.
- Real time and real concurrency. Waits are recorded as numbers and never spent. The interleaving inside a wave is one permutation per wave.
- Logging (`console.log`/`console.error`), all rendering, drag-and-drop and React hook machinery, and components/ResultsDisplay.tsx.
- Lower-casing covers ASCII letters only. The names it is compared against ("pdf", "zip", ".pdf") are ASCII.
- Extractor.ExtractOne: a response whose `text` is absent is modelled as the code behaves. Calling `.trim()` on it throws, so the outcome is the generic failure, not an empty success.
- Pipeline.Run: the model follows the code as written, including the duplicate-name reordering listed under Findings. The corrected ordering is `Pipeline.ReorderByPosition`, and `Pipeline.CorrectedReorderKeepsDocumentOrder` proves it on the pipeline's collected outcomes.

## Findings

| source | as written | input that shows it | evidently intended | confidence | as-written member | corrected member |
|---|---|---|---|---|---|---|
| services/geminiService.ts:174-180 | results are sorted by a map from stripped name to index, and the map keeps the last index of a name | documents "a.pdf", "b.pdf", "a.pdf": the sort puts the outcome of "b.pdf" before that of the first "a.pdf" | results come back in document order, which the pre-sort list already is | not executed | Pipeline.DuplicateNamesReordered | Pipeline.ReorderByPositionKeepsOrder |
| components/FileUpload.tsx:25-33 | the picker accepts a file by its lower-cased extension, but the expansion opens only "application/zip" or a case-sensitive ".zip" name and keeps only "application/pdf" | "ARSIP.ZIP" declared "application/x-zip-compressed" is accepted and then expands to no documents, silently | a file accepted as a PDF or ZIP is processed as one | not executed | Upload.PickedZipDropped | Upload.AcceptedFilesContributeInOrder |
