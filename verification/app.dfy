/** The application's decisions (`App.tsx`): starting an extraction, sorting
    its outcomes into the successful ones (kept for download) and the failed
    ones (listed in one message), turning a fatal error into a message, and
    the small handlers for a new selection, a reset and a download. The
    React state is one immutable record; each handler returns the next one. */
module App {
  import opened Wrappers
  import opened Text
  import opened Types
  import opened Naming
  import opened Extractor
  import opened Expander
  import opened Chunking
  import opened Schedule
  import opened Pipeline
  import opened Excel

  const SelectFilesFirst: string := "Silakan pilih file untuk diekstrak."
  const PreparingLabel: string := "Mempersiapkan..."
  const FailureHeading: string := "Gagal mengekstrak data dari beberapa file:\n"
  const FatalPrefix: string := "Terjadi kesalahan fatal saat ekstraksi: "
  const UnknownError: string := "Error tidak diketahui."

  /** The three characters the bullet of a failure line is written with in
      the source text (the UTF-8 bytes of U+2022 read as Windows-1252). */
  const Bullet: string := "\U{00E2}\U{20AC}\U{00A2}"

  /** `files`, `extractedData`, `loadingState` and `error`. */
  datatype AppState = AppState(
    files: seq<SourceFile>,
    extractedData: seq<ExtractedFile>,
    loading: Option<LoadingState>,
    error: Option<string>)

  /** JavaScript truthiness of an optional string. */
  predicate Truthy(s: Option<string>) {
    s.Some? && s.value != ""
  }

  /** `!result.error && result.data.length > 0` */
  predicate Succeeded(r: ExtractedFile) {
    !Truthy(r.error) && |r.data| > 0
  }

  /** `result.error` */
  predicate HasError(r: ExtractedFile) {
    Truthy(r.error)
  }

  /** Neither list: no error and no records. */
  predicate Empty(r: ExtractedFile) {
    !Truthy(r.error) && |r.data| == 0
  }

  /** `s.filter(p)` */
  function Filter<T(!new)>(s: seq<T>, p: T -> bool): (r: seq<T>)
    ensures |r| <= |s|
    ensures forall x :: x in r <==> x in s && p(x)
    decreases |s|
  {
    if s == [] then [] else (if p(s[0]) then [s[0]] else []) + Filter(s[1..], p)
  }

  /** Filtering keeps relative order: it distributes over concatenation. */
  lemma {:induction false} FilterAppend<T(!new)>(a: seq<T>, b: seq<T>, p: T -> bool)
    ensures Filter(a + b, p) == Filter(a, p) + Filter(b, p)
    decreases |a|
  {
    if a == [] {
      assert a + b == b;
    } else {
      assert (a + b)[1..] == a[1..] + b;
      FilterAppend(a[1..], b, p);
      var h := if p(a[0]) then [a[0]] else [];
      assert h + (Filter(a[1..], p) + Filter(b, p)) == (h + Filter(a[1..], p)) + Filter(b, p);
    }
  }

  /** Filtering keeps every copy of a wanted element and no copy of the
      others. */
  lemma {:induction false} FilterCount<T(!new)>(s: seq<T>, p: T -> bool, x: T)
    ensures multiset(Filter(s, p))[x] == if p(x) then multiset(s)[x] else 0
    decreases |s|
  {
    if s != [] {
      FilterCount(s[1..], p, x);
      assert s == [s[0]] + s[1..];
    }
  }

  /** Lists holding the same elements have filters holding the same
      elements. */
  lemma FilterRespectsMultiset<T(!new)>(a: seq<T>, b: seq<T>, p: T -> bool)
    requires multiset(a) == multiset(b)
    ensures multiset(Filter(a, p)) == multiset(Filter(b, p))
  {
    forall x ensures multiset(Filter(a, p))[x] == multiset(Filter(b, p))[x] {
      FilterCount(a, p, x);
      FilterCount(b, p, x);
    }
  }

  /** The successful and the failed lists never share an outcome; an outcome
      without records and without error is in neither. */
  lemma ListsAreDisjoint(results: seq<ExtractedFile>)
    ensures forall x | x in Filter(results, Succeeded) :: x !in Filter(results, HasError)
    ensures forall x | x in results && x.error.None? && x.data == [] ::
      x !in Filter(results, Succeeded) && x !in Filter(results, HasError)
  {
  }

  /** Every outcome lands in exactly one of the successful list, the failed
      list and the ignored ones, as often as it occurs. */
  lemma OutcomesArePartitioned(results: seq<ExtractedFile>)
    ensures multiset(results)
         == multiset(Filter(results, Succeeded)) + multiset(Filter(results, HasError)) + multiset(Filter(results, Empty))
  {
    forall x ensures multiset(results)[x]
      == (multiset(Filter(results, Succeeded)) + multiset(Filter(results, HasError)) + multiset(Filter(results, Empty)))[x]
    {
      FilterCount(results, Succeeded, x);
      FilterCount(results, HasError, x);
      FilterCount(results, Empty, x);
    }
  }

  /** `${f.error}` */
  function ErrorText(e: Option<string>): string {
    if e.Some? then e.value else "undefined"
  }

  /** `• ${f.fileName}: ${f.error}` for each failed outcome. */
  function Lines(failed: seq<ExtractedFile>): (r: seq<string>)
    ensures |r| == |failed|
    ensures forall k | 0 <= k < |failed| :: r[k] == Bullet + " " + failed[k].fileName + ": " + ErrorText(failed[k].error)
  {
    seq(|failed|, k requires 0 <= k < |failed| => Bullet + " " + failed[k].fileName + ": " + ErrorText(failed[k].error))
  }

  function FailureMessage(failed: seq<ExtractedFile>): string {
    FailureHeading + Join(Lines(failed), '\n')
  }

  /** The message is the heading followed by one line per failed outcome,
      in order: splitting what follows the heading at the line breaks gives
      back the lines (when no name or reason holds a line break). */
  lemma FailureMessageLines(failed: seq<ExtractedFile>)
    requires |failed| >= 1
    requires forall k | 0 <= k < |failed| :: '\n' !in failed[k].fileName && '\n' !in ErrorText(failed[k].error)
    ensures IsPrefix(FailureHeading, FailureMessage(failed))
    ensures Split(FailureMessage(failed)[|FailureHeading|..], '\n') == Lines(failed)
  {
    var lines := Lines(failed);
    var m := FailureMessage(failed);
    assert m[..|FailureHeading|] == FailureHeading && m[|FailureHeading|..] == Join(lines, '\n');
    forall k | 0 <= k < |lines| ensures '\n' !in lines[k] {
      assert lines[k] == Bullet + " " + failed[k].fileName + ": " + ErrorText(failed[k].error);
    }
    SplitJoin(lines, '\n');
  }

  /** Each failed outcome can be read back from the message: line `k` after
      the heading names outcome `k` and its reason. */
  lemma EachFailureHasItsLine(failed: seq<ExtractedFile>, k: nat)
    requires |failed| >= 1 && k < |failed|
    requires forall j | 0 <= j < |failed| :: '\n' !in failed[j].fileName && '\n' !in ErrorText(failed[j].error)
    ensures var parts := Split(FailureMessage(failed)[|FailureHeading|..], '\n');
      |parts| == |failed| && IsPrefix(Bullet + " " + failed[k].fileName + ": ", parts[k])
      && parts[k][|Bullet + " " + failed[k].fileName + ": "|..] == ErrorText(failed[k].error)
  {
    FailureMessageLines(failed);
    var line := Lines(failed)[k];
    assert line == (Bullet + " " + failed[k].fileName + ": ") + ErrorText(failed[k].error);
  }

  /** `e.message || 'Error tidak diketahui.'` after the fatal prefix. */
  function FatalMessage(message: string): (r: string)
    ensures IsPrefix(FatalPrefix, r)
    ensures r[|FatalPrefix|..] == if message == "" then UnknownError else message
  {
    FatalPrefix + (if message == "" then UnknownError else message)
  }

  /** The fatal message carries the thrown message, and two thrown messages
      give the same text only when they are equal or are the empty message
      and the placeholder for it. */
  lemma FatalMessageCarriesError(a: string, b: string)
    ensures a != "" ==> Contains(FatalMessage(a), a)
    ensures FatalMessage(a) == FatalMessage(b) ==> a == b || (a == "" && b == UnknownError) || (a == UnknownError && b == "")
  {
    if a != "" {
      assert OccursAt(FatalMessage(a), a, |FatalPrefix|);
    }
  }

  /** The pipeline's precondition on the completion orders, when it gets to
      schedule anything. */
  predicate Schedulable(files: seq<SourceFile>, orders: seq<seq<nat>>) {
    Expand(files).Success? ==> Ordered(Waves(|Expand(files).value|), orders)
  }

  /** The state after a handler, and the loading states it showed on the
      way (the last shown is cleared at the end). */
  datatype Step = Step(state: AppState, shown: seq<LoadingState>)

  /** The state once the pipeline has returned its outcomes: loading
      cleared, the successful outcomes kept for download (in their order),
      and the failed ones, if any, listed in the error message. */
  function Conclude(st: AppState, results: seq<ExtractedFile>): (s: AppState)
    ensures s.files == st.files && s.loading == None
    ensures s.extractedData == Filter(results, Succeeded)
    ensures forall x :: x in s.extractedData <==> x in results && Succeeded(x)
    ensures s.error.Some? <==> exists i | 0 <= i < |results| :: HasError(results[i])
    ensures s.error.Some? ==> s.error.value == FailureMessage(Filter(results, HasError))
  {
    var successful := Filter(results, Succeeded);
    var failed := Filter(results, HasError);
    assert |failed| > 0 <==> exists i | 0 <= i < |results| :: HasError(results[i]) by {
      if |failed| > 0 {
        assert failed[0] in failed;
      }
    }
    st.(extractedData := if |successful| > 0 then successful else [],
        loading := None,
        error := if |failed| > 0 then Some(FailureMessage(failed)) else None)
  }

  /** `handleExtraction`: nothing but a request for files when none are
      selected; otherwise the data and messages are reset, the preparation
      report is shown, the pipeline runs, and its outcomes, or its fatal
      error, decide the new state. */
  function HandleExtraction(st: AppState, services: nat -> Service, orders: seq<seq<nat>>): (r: Step)
    requires Schedulable(st.files, orders)
    ensures st.files == [] ==> r == Step(st.(error := Some(SelectFilesFirst)), [])
    ensures st.files != [] ==>
      |r.shown| >= 2 && r.shown[0] == LoadingState(0, |st.files|, PreparingLabel)
      && r.shown[1] == LoadingState(0, |st.files|, OpeningLabel)
    ensures st.files != [] && Expand(st.files).Failure? ==>
      r.state == st.(extractedData := [], loading := None, error := Some(FatalMessage(Expand(st.files).error)))
      && |r.shown| == 2
    ensures st.files != [] && Expand(st.files).Success? ==>
      r.state == Conclude(st, ExtractAll(Expand(st.files).value, services, orders).results)
  {
    if |st.files| == 0 then Step(st.(error := Some(SelectFilesFirst)), [])
    else
      var run := Run(st.files, services, orders);
      var shown := [LoadingState(0, |st.files|, PreparingLabel)] + run.progress;
      match run.outcome
      case Failure(e) => Step(st.(extractedData := [], loading := None, error := Some(FatalMessage(e))), shown)
      case Success(results) => Step(Conclude(st, results), shown)
  }

  /** Whatever order the documents complete in, the data kept for download
      holds the same outcomes: the successful ones among the documents'
      outcomes. */
  lemma KeptDataIndependentOfOrder(st: AppState, services: nat -> Service, orders: seq<seq<nat>>)
    requires st.files != [] && Expand(st.files).Success?
    requires Schedulable(st.files, orders)
    ensures multiset(HandleExtraction(st, services, orders).state.extractedData)
         == multiset(Filter(Outcomes(Expand(st.files).value, services), Succeeded))
  {
    var docs := Expand(st.files).value;
    var results := ExtractAll(docs, services, orders).results;
    KeepsEveryOutcome(docs, services, orders);
    FilterRespectsMultiset(results, Outcomes(docs, services), Succeeded);
  }

  /** With pairwise distinct correlation names the data kept for download is
      the successful outcomes in document order. */
  lemma KeptDataInDocumentOrder(st: AppState, services: nat -> Service, orders: seq<seq<nat>>)
    requires st.files != [] && Expand(st.files).Success?
    requires Schedulable(st.files, orders)
    requires var docs := Expand(st.files).value;
      forall a, b | 0 <= a < b < |docs| :: StripExtension(docs[a].name) != StripExtension(docs[b].name)
    ensures HandleExtraction(st, services, orders).state.extractedData
         == Filter(Outcomes(Expand(st.files).value, services), Succeeded)
  {
    DistinctNamesKeepDocumentOrder(Expand(st.files).value, services, orders);
  }

  /** `handleFilesChange` */
  function HandleFilesChange(st: AppState, files: seq<SourceFile>): (r: AppState)
    ensures r.files == files && r.extractedData == [] && r.error == None && r.loading == st.loading
  {
    st.(files := files, extractedData := [], error := None)
  }

  /** `handleReset` */
  function HandleReset(st: AppState): (r: AppState)
    ensures r.files == [] && r.extractedData == [] && r.loading == None && r.error == None
  {
    AppState([], [], None, None)
  }

  /** A new selection replaces the previous one outright: choosing `a` and
      then `b` is choosing `b`, and of the state before only the loading
      state survives. */
  lemma FilesChangeOverrides(st: AppState, other: AppState, a: seq<SourceFile>, b: seq<SourceFile>)
    requires other.loading == st.loading
    ensures HandleFilesChange(HandleFilesChange(st, a), b) == HandleFilesChange(st, b)
    ensures HandleFilesChange(other, b) == HandleFilesChange(st, b)
  {
  }

  /** A reset forgets everything: every state resets to the same state, and
      that state is the one an empty selection leaves after a reset. */
  lemma ResetForgetsState(st: AppState, other: AppState)
    ensures HandleReset(st) == HandleReset(other)
    ensures HandleFilesChange(HandleReset(other), []) == HandleReset(st)
  {
  }

  /** `handleDownload`: nothing without data. */
  function HandleDownload(st: AppState): (r: Option<Download>)
    ensures r.None? <==> st.extractedData == []
    ensures r.Some? ==> r.value == DownloadAsExcel(st.extractedData)
  {
    if |st.extractedData| > 0 then Some(DownloadAsExcel(st.extractedData)) else None
  }

  /** After a new selection or a reset there is nothing to download, and an
      extraction started right after a reset only asks for files. */
  lemma FreshStatesHaveNothingToDownload(st: AppState, files: seq<SourceFile>, services: nat -> Service)
    ensures HandleDownload(HandleFilesChange(st, files)) == None
    ensures HandleDownload(HandleReset(st)) == None
    ensures HandleReset(HandleReset(st)) == HandleReset(st)
    ensures Schedulable([], []) && HandleExtraction(HandleReset(st), services, []).state.error == Some(SelectFilesFirst)
  {
    assert Expand([]) == Success([]);
  }

  /** A download from a state whose first outcome has records. */
  lemma DownloadWithRecords(st: AppState)
    requires st.extractedData != [] && st.extractedData[0].data != []
    ensures var data := st.extractedData;
      && HandleDownload(st) == Some(DownloadAsExcel(data))
      && !DownloadAsExcel(data).Alert?
      && (DownloadAsExcel(data) == Written(WorkbookName, Sheets(data)) <==> !AnyClash(data))
  {
  }

  /** Data kept by an extraction never meets the "nothing to download"
      alert: every kept outcome has records. The workbook, one sheet per
      kept outcome, is written exactly when no two kept outcomes share a
      sheet name; otherwise the library stops at the repeated name. */
  lemma DownloadAfterExtractionWrites(st: AppState, services: nat -> Service, orders: seq<seq<nat>>)
    requires st.files != [] && Schedulable(st.files, orders)
    ensures var data := HandleExtraction(st, services, orders).state.extractedData;
      data == [] || (
        && HandleDownload(HandleExtraction(st, services, orders).state) == Some(DownloadAsExcel(data))
        && !DownloadAsExcel(data).Alert?
        && (DownloadAsExcel(data) == Written(WorkbookName, Sheets(data)) <==> !AnyClash(data)))
  {
    var after := HandleExtraction(st, services, orders).state;
    if after.extractedData != [] {
      assert after.extractedData[0] in after.extractedData;
      assert Succeeded(after.extractedData[0]);
      DownloadWithRecords(after);
    }
  }
}
