/** `extractDataFromFiles`: expand the selected files into documents, extract
    them in waves of at most `Limit`, report progress as each document
    settles, and reorder the outcomes by the position of their names in the
    expanded list. The services every extraction meets and the completion
    order of every wave are parameters. */
module Pipeline {
  import opened Wrappers
  import opened Types
  import opened Naming
  import opened Extractor
  import opened Expander
  import opened Chunking
  import opened Schedule
  import opened Ordering

  const OpeningLabel: string := "Membuka file zip..."
  const StartingLabel: string := "Memulai ekstraksi..."
  const DoneLabel: string := "Selesai"

  /** The outcome of every document, by position; `services(i)` is what the
      extraction of document `i` meets. */
  function Outcomes(docs: seq<Document>, services: nat -> Service): (r: seq<ExtractedFile>)
    ensures |r| == |docs|
    ensures forall i | 0 <= i < |docs| :: r[i].fileName == StripExtension(docs[i].name)
  {
    var r := seq(|docs|, i requires 0 <= i < |docs| => ExtractOne(docs[i], services(i)));
    assert forall i | 0 <= i < |docs| :: r[i] == ExtractOne(docs[i], services(i));
    r
  }

  /** The waves of `n` documents: the chunks of their positions. */
  function Waves(n: nat): seq<seq<nat>> {
    Chunks(Range(0, n))
  }

  lemma {:induction false} FlattenMember<T>(cs: seq<seq<T>>, k: nat, i: nat)
    requires k < |cs| && i < |cs[k]|
    ensures cs[k][i] in Flatten(cs)
    decreases k
  {
    if k > 0 {
      FlattenMember(cs[1..], k - 1, i);
    }
  }

  lemma WavesShape(n: nat)
    ensures Flatten(Waves(n)) == Range(0, n)
    ensures forall k | 0 <= k < |Waves(n)| :: 0 < |Waves(n)[k]| <= Limit
    ensures forall k, i | 0 <= k < |Waves(n)| && 0 <= i < |Waves(n)[k]| :: Waves(n)[k][i] < n
  {
    forall k, i | 0 <= k < |Waves(n)| && 0 <= i < |Waves(n)[k]| ensures Waves(n)[k][i] < n {
      FlattenMember(Waves(n), k, i);
    }
  }

  /** The elements of `xs` at the positions `idx`. */
  function Select<T>(xs: seq<T>, idx: seq<nat>): (r: seq<T>)
    requires forall i | 0 <= i < |idx| :: idx[i] < |xs|
    ensures |r| == |idx|
  {
    seq(|idx|, i requires 0 <= i < |idx| => xs[idx[i]])
  }

  /** `allResults`: each wave's results in the wave's own order (what
      `Promise.all` resolves to, whatever the completion order), the waves
      one after another. */
  function Collected(outs: seq<ExtractedFile>, waves: seq<seq<nat>>): seq<ExtractedFile>
    requires forall k, i | 0 <= k < |waves| && 0 <= i < |waves[k]| :: waves[k][i] < |outs|
    decreases |waves|
  {
    if waves == [] then []
    else
      assert forall k | 0 <= k < |waves| - 1 :: waves[1..][k] == waves[k + 1];
      Select(outs, waves[0]) + Collected(outs, waves[1..])
  }

  lemma {:induction false} FlattenBounded(waves: seq<seq<nat>>, n: nat)
    requires forall k, i | 0 <= k < |waves| && 0 <= i < |waves[k]| :: waves[k][i] < n
    ensures forall i | 0 <= i < |Flatten<nat>(waves)| :: Flatten<nat>(waves)[i] < n
    decreases |waves|
  {
    if waves != [] {
      assert forall k | 0 <= k < |waves| - 1 :: waves[1..][k] == waves[k + 1];
      FlattenBounded(waves[1..], n);
      var f, g := waves[0], Flatten<nat>(waves[1..]);
      assert Flatten<nat>(waves) == f + g;
      assert forall i | 0 <= i < |f| :: (f + g)[i] == f[i];
      assert forall i | |f| <= i < |f + g| :: (f + g)[i] == g[i - |f|];
    }
  }

  lemma SelectAppend<T>(xs: seq<T>, f: seq<nat>, g: seq<nat>)
    requires forall i | 0 <= i < |f| :: f[i] < |xs|
    requires forall i | 0 <= i < |g| :: g[i] < |xs|
    ensures forall i | 0 <= i < |f + g| :: (f + g)[i] < |xs|
    ensures Select(xs, f + g) == Select(xs, f) + Select(xs, g)
  {
  }

  lemma {:induction false} CollectedIsSelect(outs: seq<ExtractedFile>, waves: seq<seq<nat>>)
    requires forall k, i | 0 <= k < |waves| && 0 <= i < |waves[k]| :: waves[k][i] < |outs|
    ensures forall i | 0 <= i < |Flatten<nat>(waves)| :: Flatten<nat>(waves)[i] < |outs|
    ensures Collected(outs, waves) == Select(outs, Flatten<nat>(waves))
    decreases |waves|
  {
    FlattenBounded(waves, |outs|);
    if waves != [] {
      assert forall k | 0 <= k < |waves| - 1 :: waves[1..][k] == waves[k + 1];
      CollectedIsSelect(outs, waves[1..]);
      var f, g := waves[0], Flatten<nat>(waves[1..]);
      assert Flatten<nat>(waves) == f + g;
      SelectAppend(outs, f, g);
    }
  }

  /** `Promise.all` keeps each wave's order, so before the final sort the
      outcomes are already in document order. */
  lemma CollectedInOrder(docs: seq<Document>, services: nat -> Service)
    ensures forall k, i | 0 <= k < |Waves(|docs|)| && 0 <= i < |Waves(|docs|)[k]| :: Waves(|docs|)[k][i] < |docs|
    ensures Collected(Outcomes(docs, services), Waves(|docs|)) == Outcomes(docs, services)
  {
    WavesShape(|docs|);
    CollectedIsSelect(Outcomes(docs, services), Waves(|docs|));
  }

  /** The correlation names of the documents. */
  function StrippedNames(docs: seq<Document>): (r: seq<string>)
    ensures |r| == |docs|
    ensures forall i | 0 <= i < |docs| :: r[i] == StripExtension(docs[i].name)
  {
    seq(|docs|, i requires 0 <= i < |docs| => StripExtension(docs[i].name))
  }

  /** `fileOrderMap.get(name) ?? Infinity`: a name missing from the map sorts
      after every position; `n` plays the part of Infinity. */
  function SortKey(m: map<string, nat>, name: string, n: nat): nat {
    if name in m then m[name] else n
  }

  function KeyedResults(docs: seq<Document>, results: seq<ExtractedFile>): seq<Keyed<ExtractedFile>> {
    var m := OrderMap(StrippedNames(docs));
    seq(|results|, i requires 0 <= i < |results| => (SortKey(m, results[i].fileName, |docs|), results[i]))
  }

  /** The final `allResults.sort(...)`, a stable sort by the position the
      map gives each outcome's name. */
  function Reorder(docs: seq<Document>, results: seq<ExtractedFile>): seq<ExtractedFile> {
    Items(SortByKey(KeyedResults(docs, results)))
  }

  /** Every outcome's name is found in the order map: the map is built from
      the same stripped names the outcomes carry, so the Infinity fallback
      is never used. */
  lemma AllNamesFound(docs: seq<Document>, services: nat -> Service)
    ensures forall i | 0 <= i < |docs| ::
      Outcomes(docs, services)[i].fileName in OrderMap(StrippedNames(docs))
  {
  }

  /** The order map has exactly the outcomes' names as keys, and each key
      points at an outcome that carries it. */
  lemma OrderMapKeysAreOutcomeNames(docs: seq<Document>, services: nat -> Service)
    ensures var m, outs := OrderMap(StrippedNames(docs)), Outcomes(docs, services);
      && (forall k :: k in m <==> exists i | 0 <= i < |docs| :: outs[i].fileName == k)
      && (forall k | k in m :: outs[m[k]].fileName == k)
  {
    var names, m, outs := StrippedNames(docs), OrderMap(StrippedNames(docs)), Outcomes(docs, services);
    forall k ensures k in m <==> exists i | 0 <= i < |docs| :: outs[i].fileName == k {
      if k in m {
        assert outs[m[k]].fileName == names[m[k]];
      }
      if i :| 0 <= i < |docs| && outs[i].fileName == k {
        assert names[i] == k;
      }
    }
    forall k | k in m ensures outs[m[k]].fileName == k {
      assert names[m[k]] == k;
    }
  }

  /** The snapshots reported as documents settle: the `c`-th settled
      document (from 1) is reported with `processed == c` and its own name. */
  function Snapshots(names: seq<string>, n: nat, done: seq<nat>): (r: seq<LoadingState>)
    requires forall c | 0 <= c < |done| :: done[c] < |names|
    ensures |r| == |done|
    ensures forall c | 0 <= c < |done| :: r[c] == LoadingState(c + 1, n, names[done[c]])
    decreases |done|
  {
    if done == [] then []
    else Snapshots(names, n, done[..|done| - 1]) + [LoadingState(|done|, n, names[done[|done| - 1]])]
  }

  /** The order in which the documents settle. */
  function SettleOrder(n: nat, orders: seq<seq<nat>>): (q: seq<nat>)
    requires Ordered(Waves(n), orders)
    ensures IsOrder(q, n)
  {
    WavesShape(n);
    LaunchAndSettleOnce(Waves(n), orders);
    Settled(Events(Waves(n), orders))
  }

  function Names(docs: seq<Document>): (r: seq<string>)
    ensures |r| == |docs| && forall i | 0 <= i < |docs| :: r[i] == docs[i].name
  {
    seq(|docs|, i requires 0 <= i < |docs| => docs[i].name)
  }

  /** The outcomes and progress reports of the extraction phase. */
  datatype Extraction = Extraction(results: seq<ExtractedFile>, progress: seq<LoadingState>)

  /** The second half of `extractDataFromFiles`, from the report
      "Memulai ekstraksi..." on. */
  function ExtractAll(docs: seq<Document>, services: nat -> Service, orders: seq<seq<nat>>): (x: Extraction)
    requires Ordered(Waves(|docs|), orders)
    ensures |x.results| == |docs|
    ensures x.progress != [] && x.progress[0] == LoadingState(0, |docs|, StartingLabel)
    ensures x.progress[|x.progress| - 1] == LoadingState(|docs|, |docs|, DoneLabel)
  {
    var n := |docs|;
    var starting := LoadingState(0, n, StartingLabel);
    if n == 0 then Extraction([], [starting, LoadingState(0, 0, DoneLabel)])
    else
      CollectedInOrder(docs, services);
      var q := SettleOrder(n, orders);
      OrderFacts(q, n);
      Extraction(
        Reorder(docs, Collected(Outcomes(docs, services), Waves(n))),
        [starting] + Snapshots(Names(docs), n, q) + [LoadingState(n, n, DoneLabel)])
  }

  /** The progress reports and the outcome of one run. */
  datatype RunResult = RunResult(outcome: Result<seq<ExtractedFile>, string>, progress: seq<LoadingState>)

  /** `extractDataFromFiles(files, updateProgress)`: the first report counts
      the selected files; an unreadable archive then ends the run with the
      decompression error, and otherwise the expanded documents are
      extracted. */
  function Run(files: seq<SourceFile>, services: nat -> Service, orders: seq<seq<nat>>): (r: RunResult)
    requires Expand(files).Success? ==> Ordered(Waves(|Expand(files).value|), orders)
    ensures r.progress != [] && r.progress[0] == LoadingState(0, |files|, OpeningLabel)
    ensures Expand(files).Failure? <==> r.outcome.Failure?
    ensures Expand(files).Failure? ==> r == RunResult(Failure(Expand(files).error), [r.progress[0]])
    ensures Expand(files).Success? ==>
      var x := ExtractAll(Expand(files).value, services, orders);
      r.outcome == Success(x.results) && r.progress[1..] == x.progress
  {
    var opening := LoadingState(0, |files|, OpeningLabel);
    match Expand(files)
    case Failure(e) => RunResult(Failure(e), [opening])
    case Success(docs) =>
      var x := ExtractAll(docs, services, orders);
      RunResult(Success(x.results), [opening] + x.progress)
  }

  /** Nothing to extract: the reports 0/0 "Memulai ekstraksi..." and 0/0
      "Selesai", and no outcomes. */
  lemma NothingToExtract(services: nat -> Service, orders: seq<seq<nat>>)
    requires Ordered(Waves(0), orders)
    ensures ExtractAll([], services, orders)
         == Extraction([], [LoadingState(0, 0, StartingLabel), LoadingState(0, 0, DoneLabel)])
  {
  }

  /** The progress reports after the first, spelled out. */
  lemma ProgressUnfolds(docs: seq<Document>, services: nat -> Service, orders: seq<seq<nat>>)
    requires |docs| > 0 && Ordered(Waves(|docs|), orders)
    ensures forall c | 0 <= c < |SettleOrder(|docs|, orders)| :: SettleOrder(|docs|, orders)[c] < |docs|
    ensures ExtractAll(docs, services, orders).progress
         == [LoadingState(0, |docs|, StartingLabel)]
          + Snapshots(Names(docs), |docs|, SettleOrder(|docs|, orders))
          + [LoadingState(|docs|, |docs|, DoneLabel)]
  {
    CollectedInOrder(docs, services);
    OrderFacts(SettleOrder(|docs|, orders), |docs|);
  }

  /** A trace of `n + 2` reports whose reports 1..n count the settlements
      1, 2, ..., n, each naming a document, every document exactly once. */
  ghost predicate CountsSettlements(p: seq<LoadingState>, docs: seq<Document>) {
    |p| == |docs| + 2 && exists q :: CountsInOrder(p, docs, q)
  }

  /** ... the documents named being those at positions `q`, a completion
      order. */
  predicate CountsInOrder(p: seq<LoadingState>, docs: seq<Document>, q: seq<nat>) {
    && |p| == |docs| + 2
    && IsOrder(q, |docs|) && |q| == |docs|
    && forall c | 0 <= c < |docs| :: q[c] < |docs| && p[c + 1] == LoadingState(c + 1, |docs|, docs[q[c]].name)
  }

  /** The reports between the first and the last are the snapshots. */
  lemma SnapshotsBetween(docs: seq<Document>, q: seq<nat>, a: LoadingState, b: LoadingState)
    requires forall c | 0 <= c < |q| :: q[c] < |docs|
    ensures var p := [a] + Snapshots(Names(docs), |docs|, q) + [b];
      && |p| == |q| + 2
      && forall c | 0 <= c < |q| :: p[c + 1] == LoadingState(c + 1, |docs|, docs[q[c]].name)
  {
    var s := Snapshots(Names(docs), |docs|, q);
    var p := [a] + s + [b];
    forall c | 0 <= c < |q| ensures p[c + 1] == LoadingState(c + 1, |docs|, docs[q[c]].name) {
      assert p[c + 1] == s[c];
    }
  }

  /** Snapshots taken in a completion order, between two other reports,
      count the settlements. */
  lemma SnapshotsCount(docs: seq<Document>, q: seq<nat>, a: LoadingState, b: LoadingState)
    requires IsOrder(q, |docs|)
    ensures forall c | 0 <= c < |q| :: q[c] < |docs|
    ensures CountsSettlements([a] + Snapshots(Names(docs), |docs|, q) + [b], docs)
  {
    OrderFacts(q, |docs|);
    SnapshotsBetween(docs, q, a, b);
    assert CountsInOrder([a] + Snapshots(Names(docs), |docs|, q) + [b], docs, q);
  }

  /** The progress trace with `n > 0` documents: `0/n`, then one report per
      document in the order they settle, counting 1, 2, ..., n, each with
      that document's name, and finally `n/n` "Selesai". */
  lemma ProgressCountsSettlements(docs: seq<Document>, services: nat -> Service, orders: seq<seq<nat>>)
    requires |docs| > 0 && Ordered(Waves(|docs|), orders)
    ensures CountsSettlements(ExtractAll(docs, services, orders).progress, docs)
  {
    ProgressUnfolds(docs, services, orders);
    SnapshotsCount(docs, SettleOrder(|docs|, orders), LoadingState(0, |docs|, StartingLabel), LoadingState(|docs|, |docs|, DoneLabel));
  }

  /** The outcomes before the final sort, spelled out. */
  lemma ResultsAreReordered(docs: seq<Document>, services: nat -> Service, orders: seq<seq<nat>>)
    requires Ordered(Waves(|docs|), orders)
    ensures ExtractAll(docs, services, orders).results == Reorder(docs, Outcomes(docs, services))
  {
    CollectedInOrder(docs, services);
  }

  /** The reordering neither loses nor duplicates an outcome. */
  lemma ReorderIsPermutation(docs: seq<Document>, outs: seq<ExtractedFile>)
    ensures multiset(Reorder(docs, outs)) == multiset(outs)
  {
    SortKeepsItems(KeyedResults(docs, outs));
    assert Items(KeyedResults(docs, outs)) == outs;
  }

  /** Outcomes named after pairwise distinct correlation names, one per
      document in document order, are left in that order. */
  lemma ReorderKeepsDistinctNames(docs: seq<Document>, outs: seq<ExtractedFile>)
    requires |outs| == |docs|
    requires forall i | 0 <= i < |docs| :: outs[i].fileName == StripExtension(docs[i].name)
    requires forall a, b | 0 <= a < b < |docs| :: StripExtension(docs[a].name) != StripExtension(docs[b].name)
    ensures Reorder(docs, outs) == outs
  {
    var ks := KeyedResults(docs, outs);
    forall i | 0 <= i < |ks| ensures ks[i].0 == i {
      OrderMapLastIndex(StrippedNames(docs), i);
    }
    SortKeepsIncreasing(ks);
    assert Items(ks) == outs;
  }

  /** Exactly one outcome per document: the final list holds the documents'
      outcomes, each once, whatever the completion orders. */
  lemma KeepsEveryOutcome(docs: seq<Document>, services: nat -> Service, orders: seq<seq<nat>>)
    requires Ordered(Waves(|docs|), orders)
    ensures multiset(ExtractAll(docs, services, orders).results) == multiset(Outcomes(docs, services))
  {
    ResultsAreReordered(docs, services, orders);
    ReorderIsPermutation(docs, Outcomes(docs, services));
  }

  /** With pairwise distinct correlation names the final list is in
      document order. */
  lemma DistinctNamesKeepDocumentOrder(docs: seq<Document>, services: nat -> Service, orders: seq<seq<nat>>)
    requires Ordered(Waves(|docs|), orders)
    requires forall a, b | 0 <= a < b < |docs| :: StripExtension(docs[a].name) != StripExtension(docs[b].name)
    ensures ExtractAll(docs, services, orders).results == Outcomes(docs, services)
  {
    ResultsAreReordered(docs, services, orders);
    ReorderKeepsDistinctNames(docs, Outcomes(docs, services));
  }

  lemma StripSingleLetterPdf()
    ensures StripExtension("a.pdf") == "a" && StripExtension("b.pdf") == "b"
  {
    assert ExtensionAt("a.pdf", 1) && "a.pdf"[..1] == "a";
    assert ExtensionAt("b.pdf", 1) && "b.pdf"[..1] == "b";
  }

  lemma DuplicateNamesKeys(docs: seq<Document>)
    requires |docs| == 3 && docs[0].name == "a.pdf" && docs[1].name == "b.pdf" && docs[2].name == "a.pdf"
    ensures var m := OrderMap(StrippedNames(docs));
      "a" in m && "b" in m && m["a"] == 2 && m["b"] == 1
  {
    StripSingleLetterPdf();
    var names := StrippedNames(docs);
    assert names[0] == "a" && names[1] == "b" && names[2] == "a";
    var m := OrderMap(names);
    OrderMapLastIndex(names, 2);
    OrderMapLastIndex(names, 1);
    assert names[m["b"]] == "b";
  }

  lemma SortStep<T>(s: seq<Keyed<T>>, x: Keyed<T>)
    ensures SortByKey(s + [x]) == Insert(x, SortByKey(s))
  {
    assert (s + [x])[..|s|] == s;
  }

  lemma SortOne<T>(x: Keyed<T>)
    ensures SortByKey([x]) == [x]
  {
    SortStep([], x);
    assert [] + [x] == [x];
  }

  lemma InsertBefore<T>(x: Keyed<T>, s: seq<Keyed<T>>)
    requires SortedByKey(s) && s != [] && s[|s| - 1].0 > x.0
    ensures Insert(x, s) == Insert(x, s[..|s| - 1]) + [s[|s| - 1]]
  {
  }

  lemma SortTwoOne<T>(x: T, y: T)
    ensures SortByKey([(2, x), (1, y)]) == [(1, y), (2, x)]
  {
    var a: Keyed<T>, b: Keyed<T> := (2, x), (1, y);
    SortOne(a);
    SortStep([a], b);
    assert [a] + [b] == [a, b];
    InsertBeforeOne(b, a);
  }

  lemma InsertBeforeOne<T>(x: Keyed<T>, a: Keyed<T>)
    requires a.0 > x.0
    ensures Insert(x, [a]) == [x, a]
  {
    InsertBefore(x, [a]);
    assert [a][..0] == [];
    InsertIntoEmpty(x);
    assert [x] + [a] == [x, a];
  }

  lemma InsertIntoEmpty<T>(x: Keyed<T>)
    ensures Insert(x, []) == [x]
  {
  }

  lemma InsertAtEnd<T>(x: Keyed<T>, s: seq<Keyed<T>>)
    requires SortedByKey(s) && s != [] && s[|s| - 1].0 <= x.0
    ensures Insert(x, s) == s + [x]
  {
  }

  lemma SortTwoOneTwo<T>(x: T, y: T, z: T)
    ensures SortByKey([(2, x), (1, y), (2, z)]) == [(1, y), (2, x), (2, z)]
  {
    var s := [(2, x), (1, y)];
    assert [(2, x), (1, y), (2, z)] == s + [(2, z)];
    SortStep(s, (2, z));
    SortTwoOne(x, y);
    InsertAtEnd((2, z), [(1, y), (2, x)]);
  }

  lemma ItemsOfThree<T>(t: seq<Keyed<T>>)
    requires |t| == 3
    ensures Items(t) == [t[0].1, t[1].1, t[2].1]
  {
  }

  lemma ItemsTwoOneTwo<T>(x: T, y: T, z: T)
    ensures Items(SortByKey([(2, x), (1, y), (2, z)])) == [y, x, z]
  {
    SortTwoOneTwo(x, y, z);
    ItemsOfThree([(1, y), (2, x), (2, z)]);
  }

  lemma SortedTwoOneTwo<T>(ks: seq<Keyed<T>>, x: T, y: T, z: T)
    requires |ks| == 3 && ks[0] == (2, x) && ks[1] == (1, y) && ks[2] == (2, z)
    ensures Items(SortByKey(ks)) == [y, x, z]
  {
    assert ks == [(2, x), (1, y), (2, z)];
    ItemsTwoOneTwo(x, y, z);
  }

  lemma KeyOfB(docs: seq<Document>, outs: seq<ExtractedFile>, m: map<string, nat>)
    requires m == OrderMap(StrippedNames(docs))
    requires "b" in m && m["b"] == 1
    requires |outs| == 3 && outs[1].fileName == "b"
    ensures KeyedResults(docs, outs)[1] == (1, outs[1])
  {
  }

  lemma KeysOfA(docs: seq<Document>, outs: seq<ExtractedFile>, m: map<string, nat>)
    requires m == OrderMap(StrippedNames(docs))
    requires "a" in m && m["a"] == 2
    requires |outs| == 3 && outs[0].fileName == "a" && outs[2].fileName == "a"
    ensures KeyedResults(docs, outs)[0] == (2, outs[0])
    ensures KeyedResults(docs, outs)[2] == (2, outs[2])
  {
  }

  lemma ReorderedByKeys(docs: seq<Document>, outs: seq<ExtractedFile>)
    requires |outs| == 3
    requires KeyedResults(docs, outs)[0] == (2, outs[0])
    requires KeyedResults(docs, outs)[1] == (1, outs[1])
    requires KeyedResults(docs, outs)[2] == (2, outs[2])
    ensures Reorder(docs, outs) == [outs[1], outs[0], outs[2]]
  {
    SortedTwoOneTwo(KeyedResults(docs, outs), outs[0], outs[1], outs[2]);
  }

  /** Three documents where the first and the third share a correlation
      name: the map sends "a" to 2, its last position, so both "a" outcomes
      sort after "b" and the final list is b, a, a instead of a, b, a. */
  lemma DuplicateNamesReordered(docs: seq<Document>, outs: seq<ExtractedFile>)
    requires |docs| == 3 && docs[0].name == "a.pdf" && docs[1].name == "b.pdf" && docs[2].name == "a.pdf"
    requires |outs| == 3 && forall i | 0 <= i < 3 :: outs[i].fileName == StripExtension(docs[i].name)
    ensures Reorder(docs, outs) == [outs[1], outs[0], outs[2]]
    ensures Reorder(docs, outs) != outs
  {
    DuplicateNamesKeys(docs);
    StripSingleLetterPdf();
    assert outs[0].fileName == "a" && outs[1].fileName == "b" && outs[2].fileName == "a";
    KeyOfB(docs, outs, OrderMap(StrippedNames(docs)));
    KeysOfA(docs, outs, OrderMap(StrippedNames(docs)));
    ReorderedByKeys(docs, outs);
    assert outs[0] != outs[1];
  }

  /** The evidently intended reordering: sort by the position each outcome
      was produced for, carried along with it. */
  function ReorderByPosition(results: seq<ExtractedFile>): seq<ExtractedFile> {
    Items(SortByKey(seq(|results|, i requires 0 <= i < |results| => (i, results[i]))))
  }

  /** It leaves every list in document order, duplicate names or not, and
      agrees with the name-based reordering when names are distinct. */
  lemma ReorderByPositionKeepsOrder(docs: seq<Document>, outs: seq<ExtractedFile>)
    ensures ReorderByPosition(outs) == outs
    ensures |outs| == |docs|
         && (forall i | 0 <= i < |docs| :: outs[i].fileName == StripExtension(docs[i].name))
         && (forall a, b | 0 <= a < b < |docs| :: StripExtension(docs[a].name) != StripExtension(docs[b].name))
         ==> ReorderByPosition(outs) == Reorder(docs, outs)
  {
    var ks := seq(|outs|, i requires 0 <= i < |outs| => (i, outs[i]));
    SortKeepsIncreasing(ks);
    assert Items(ks) == outs;
    if |outs| == |docs|
       && (forall i | 0 <= i < |docs| :: outs[i].fileName == StripExtension(docs[i].name))
       && (forall a, b | 0 <= a < b < |docs| :: StripExtension(docs[a].name) != StripExtension(docs[b].name)) {
      ReorderKeepsDistinctNames(docs, outs);
    }
  }

  /** Applied to the collected outcomes, the corrected reordering returns
      the outcomes in document order for every completion order, whether
      or not stripped names repeat. */
  lemma CorrectedReorderKeepsDocumentOrder(docs: seq<Document>, services: nat -> Service)
    ensures forall k, i | 0 <= k < |Waves(|docs|)| && 0 <= i < |Waves(|docs|)[k]| :: Waves(|docs|)[k][i] < |docs|
    ensures ReorderByPosition(Collected(Outcomes(docs, services), Waves(|docs|))) == Outcomes(docs, services)
  {
    CollectedInOrder(docs, services);
    ReorderByPositionKeepsOrder(docs, Outcomes(docs, services));
  }
}
