/** Archive expansion: the user's files become the flat, ordered list of
    PDF documents to extract. A ZIP contributes its PDF entries in entry
    order, renamed to their base names; a standalone PDF contributes itself;
    anything else is dropped. An unreadable ZIP aborts the whole expansion
    with the decompression library's error. */
module Expander {
  import opened Wrappers
  import opened Text
  import opened Types
  import opened Naming

  const PdfType: string := "application/pdf"
  const ZipType: string := "application/zip"

  /** A ZIP by declared type or by a (case-sensitive) ".zip" name suffix. */
  predicate IsZip(f: SourceFile) {
    f.mimeType == ZipType || EndsWith(f.name, ".zip")
  }

  /** An archive entry worth extracting: a file whose name, lower-cased,
      ends in ".pdf". */
  predicate IsPdfEntry(e: ZipEntry) {
    !e.dir && EndsWith(ToLower(e.name), ".pdf")
  }

  /** The document made from an archive entry. */
  function EntryDocument(e: ZipEntry): Document {
    Document(BaseName(e.name), PdfType, e.content)
  }

  /** What one entry contributes. */
  function EntryDocs(e: ZipEntry): seq<Document> {
    if IsPdfEntry(e) then [EntryDocument(e)] else []
  }

  /** The documents of an archive's entries, in entry order: every one is
      typed as a PDF and carries a name without directories. */
  function PdfEntries(es: seq<ZipEntry>): (ds: seq<Document>)
    ensures |ds| <= |es|
    ensures forall k | 0 <= k < |ds| :: ds[k].mimeType == PdfType
    ensures forall k | 0 <= k < |ds| :: '/' !in ds[k].name
  {
    if es == [] then [] else EntryDocs(es[0]) + PdfEntries(es[1..])
  }

  /** Taking the entries of two runs of an archive is taking them of each
      run in turn: entry order is kept. */
  lemma {:induction false} PdfEntriesAppend(a: seq<ZipEntry>, b: seq<ZipEntry>)
    ensures PdfEntries(a + b) == PdfEntries(a) + PdfEntries(b)
    decreases |a|
  {
    if a == [] {
      assert a + b == b;
    } else {
      assert (a + b)[0] == a[0];
      assert (a + b)[1..] == a[1..] + b;
      PdfEntriesAppend(a[1..], b);
    }
  }

  /** A document comes out of an archive exactly when some PDF entry of it
      produces that document. */
  lemma {:induction false} PdfEntriesMembership(es: seq<ZipEntry>, d: Document)
    ensures d in PdfEntries(es) <==> exists k | 0 <= k < |es| :: IsPdfEntry(es[k]) && d == EntryDocument(es[k])
    decreases |es|
  {
    if es != [] {
      PdfEntriesMembership(es[1..], d);
      if d in PdfEntries(es[1..]) {
        var k :| 0 <= k < |es| - 1 && IsPdfEntry(es[1..][k]) && d == EntryDocument(es[1..][k]);
        assert es[k + 1] == es[1..][k];
      }
      forall k | 0 < k < |es| && IsPdfEntry(es[k]) && d == EntryDocument(es[k])
        ensures d in PdfEntries(es[1..])
      {
        assert es[1..][k - 1] == es[k];
      }
    }
  }

  /** What one selected file contributes. */
  function ExpandOne(f: SourceFile): (r: Result<seq<Document>, string>)
    ensures r.Failure? <==> IsZip(f) && f.archive.Unreadable?
    ensures r.Success? && !IsZip(f) ==> |r.value| <= 1
  {
    if IsZip(f) then
      match f.archive
      case Unreadable(m) => Failure(m)
      case Entries(es) => Success(PdfEntries(es))
    else if f.mimeType == PdfType then Success([Document(f.name, f.mimeType, f.content)])
    else Success([])
  }

  /** Every file can be expanded: no archive among them is unreadable. */
  predicate AllReadable(files: seq<SourceFile>) {
    forall i | 0 <= i < |files| :: ExpandOne(files[i]).Success?
  }

  /** The first half of `extractDataFromFiles`: the files are expanded in
      order; an unreadable archive stops everything. */
  function Expand(files: seq<SourceFile>): Result<seq<Document>, string>
    decreases |files|
  {
    if files == [] then Success([])
    else
      match ExpandOne(files[0])
      case Failure(e) => Failure(e)
      case Success(ds) =>
        match Expand(files[1..])
        case Failure(e) => Failure(e)
        case Success(rest) => Success(ds + rest)
  }

  /** The expansion succeeds exactly when every file can be expanded. */
  lemma {:induction false} ExpandSucceedsIffReadable(files: seq<SourceFile>)
    ensures Expand(files).Success? <==> AllReadable(files)
    decreases |files|
  {
    if files != [] {
      ExpandSucceedsIffReadable(files[1..]);
      assert forall i | 1 <= i < |files| :: files[i] == files[1..][i - 1];
    }
  }

  /** On failure the error is that of the first unreadable archive. */
  lemma {:induction false} ExpandFailsAtFirstUnreadable(files: seq<SourceFile>, i: nat)
    requires i < |files| && ExpandOne(files[i]).Failure?
    requires forall j | 0 <= j < i :: ExpandOne(files[j]).Success?
    ensures Expand(files) == ExpandOne(files[i])
    decreases i
  {
    if i > 0 {
      assert forall j | 0 <= j < i - 1 :: files[1..][j] == files[j + 1];
      ExpandFailsAtFirstUnreadable(files[1..], i - 1);
    }
  }

  /** Expanding one file is that file's contribution. */
  lemma ExpandSingle(f: SourceFile)
    ensures Expand([f]) == ExpandOne(f)
  {
    assert [f][0] == f && [f][1..] == [];
    assert Expand([]) == Success([]);
    match ExpandOne(f)
    case Failure(e) =>
    case Success(ds) => assert ds + [] == ds;
  }

  /** Top-level order is kept: the documents of `a + b` are those of `a`
      followed by those of `b`. */
  lemma {:induction false} ExpandAppend(a: seq<SourceFile>, b: seq<SourceFile>)
    requires Expand(a).Success? && Expand(b).Success?
    ensures Expand(a + b) == Success(Expand(a).value + Expand(b).value)
    decreases |a|
  {
    if a == [] {
      assert a + b == b;
      assert Expand(a).value == [];
      assert [] + Expand(b).value == Expand(b).value;
    } else {
      ExpandCons(a);
      var ds, rest, tail := ExpandOne(a[0]).value, Expand(a[1..]).value, Expand(b).value;
      ExpandAppend(a[1..], b);
      ExpandAppendStep(a, b, ds, rest, tail);
      ExpandOfCons(a, ds, rest);
    }
  }

  /** The inductive step of `ExpandAppend`, given its hypothesis for the
      tail of `a`. */
  lemma ExpandAppendStep(a: seq<SourceFile>, b: seq<SourceFile>, ds: seq<Document>, rest: seq<Document>, tail: seq<Document>)
    requires a != [] && ExpandOne(a[0]) == Success(ds)
    requires Expand(a[1..] + b) == Success(rest + tail)
    ensures Expand(a + b) == Success(ds + rest + tail)
  {
    var ab := a + b;
    assert ab[0] == a[0] && ab[1..] == a[1..] + b;
    ExpandOfCons(ab, ds, rest + tail);
    assert ds + (rest + tail) == ds + rest + tail;
  }

  lemma ExpandOfCons(files: seq<SourceFile>, ds: seq<Document>, rest: seq<Document>)
    requires files != [] && ExpandOne(files[0]) == Success(ds) && Expand(files[1..]) == Success(rest)
    ensures Expand(files) == Success(ds + rest)
  {
  }

  /** The expansion of a non-empty list, one step unfolded. */
  lemma ExpandCons(files: seq<SourceFile>)
    requires files != []
    ensures Expand(files).Success? <==> ExpandOne(files[0]).Success? && Expand(files[1..]).Success?
    ensures Expand(files).Success? ==> Expand(files).value == ExpandOne(files[0]).value + Expand(files[1..]).value
  {
  }

  /** A file that is not a ZIP is kept exactly when its declared type is
      "application/pdf", and is then passed on unchanged. */
  lemma StandaloneKeptIffPdf(f: SourceFile)
    requires !IsZip(f)
    ensures Expand([f]).Success?
    ensures Expand([f]).value != [] <==> f.mimeType == PdfType
    ensures f.mimeType == PdfType ==> Expand([f]).value == [Document(f.name, f.mimeType, f.content)]
  {
    ExpandSingle(f);
  }

  /** A readable ZIP contributes exactly its PDF entries. */
  lemma ZipKeepsPdfEntries(f: SourceFile, es: seq<ZipEntry>)
    requires IsZip(f) && f.archive == Entries(es)
    ensures Expand([f]) == Success(PdfEntries(es))
  {
    ExpandSingle(f);
  }

  /** The ZIP test on names is case-sensitive: "ARSIP.ZIP" declared with any
      type other than the ZIP or PDF type is dropped without being opened. */
  lemma UpperCaseZipDropped(t: string, content: Bytes, archive: Archive)
    requires t != ZipType && t != PdfType
    ensures Expand([SourceFile("ARSIP.ZIP", t, 0, content, archive)]) == Success([])
  {
    var f := SourceFile("ARSIP.ZIP", t, 0, content, archive);
    assert f.name[5..] == ".ZIP";
    assert !IsZip(f);
    ExpandSingle(f);
  }

  /** An entry name ending in a (lower- or upper-case) ".pdf" passes the
      entry test. */
  lemma PdfSuffixRecognised(stem: string, ext: string)
    requires ToLower(ext) == ".pdf"
    ensures EndsWith(ToLower(stem + ext), ".pdf")
  {
    ToLowerAppend(stem, ext);
    EndsWithAppend(ToLower(stem), ".pdf");
  }

  lemma FolderAndTextEntriesDropped()
    ensures EntryDocs(ZipEntry("kk/", true, [])) == []
    ensures EntryDocs(ZipEntry("notes.txt", false, [3])) == []
  {
    assert ToLower("notes.txt")[5..] == ".txt";
  }

  lemma NestedEntryRenamed()
    ensures EntryDocs(ZipEntry("kk/a.pdf", false, [1])) == [Document("a.pdf", PdfType, [1])]
  {
    assert "kk/a.pdf" == "kk" + "/" + "a.pdf";
    BaseNameAfterSlash("kk", "a.pdf");
    PdfSuffixRecognised("kk/a", ".pdf");
    assert "kk/a" + ".pdf" == "kk/a.pdf";
  }

  lemma UpperCaseEntryKept()
    ensures EntryDocs(ZipEntry("b.PDF", false, [2])) == [Document("b.PDF", PdfType, [2])]
  {
    assert ToLower(".PDF") == ".pdf";
    PdfSuffixRecognised("b", ".PDF");
    assert "b" + ".PDF" == "b.PDF";
    BaseNameOfPlainName("b.PDF");
  }

  lemma PlainEntryKept()
    ensures EntryDocs(ZipEntry("c.pdf", false, [4])) == [Document("c.pdf", PdfType, [4])]
  {
    assert ToLower(".pdf") == ".pdf";
    PdfSuffixRecognised("c", ".pdf");
    assert "c" + ".pdf" == "c.pdf";
    BaseNameOfPlainName("c.pdf");
  }

  /** One step of `PdfEntries` from position `i` of the entries. */
  lemma PdfEntriesFrom(es: seq<ZipEntry>, i: nat)
    requires i < |es|
    ensures PdfEntries(es[i..]) == EntryDocs(es[i]) + PdfEntries(es[i + 1..])
  {
    assert es[i..][0] == es[i];
    assert es[i..][1..] == es[i + 1..];
  }

  /** Five entries of which the second, third and fifth are kept. */
  lemma KeepSecondThirdFifth(es: seq<ZipEntry>, d1: Document, d2: Document, d3: Document)
    requires |es| == 5
    requires EntryDocs(es[0]) == [] && EntryDocs(es[3]) == []
    requires EntryDocs(es[1]) == [d1] && EntryDocs(es[2]) == [d2] && EntryDocs(es[4]) == [d3]
    ensures PdfEntries(es) == [d1, d2, d3]
  {
    assert es[5..] == [];
    PdfEntriesFrom(es, 4);
    assert PdfEntries(es[4..]) == [d3];
    PdfEntriesFrom(es, 3);
    assert PdfEntries(es[3..]) == [d3];
    PdfEntriesFrom(es, 2);
    assert PdfEntries(es[2..]) == [d2, d3];
    PdfEntriesFrom(es, 1);
    assert PdfEntries(es[1..]) == [d1, d2, d3];
    PdfEntriesFrom(es, 0);
    assert es[0..] == es;
  }

  /** An archive holding three PDFs (one in a folder, one with an upper-case
      extension), a text file and a folder entry yields the three PDFs in
      entry order, under their base names. */
  lemma ThreePdfArchive(f: SourceFile)
    requires IsZip(f)
    requires f.archive == Entries([
      ZipEntry("kk/", true, []),
      ZipEntry("kk/a.pdf", false, [1]),
      ZipEntry("b.PDF", false, [2]),
      ZipEntry("notes.txt", false, [3]),
      ZipEntry("c.pdf", false, [4])])
    ensures Expand([f]) == Success([
      Document("a.pdf", PdfType, [1]),
      Document("b.PDF", PdfType, [2]),
      Document("c.pdf", PdfType, [4])])
  {
    var es := f.archive.entries;
    ZipKeepsPdfEntries(f, es);
    FolderAndTextEntriesDropped();
    NestedEntryRenamed();
    UpperCaseEntryKept();
    PlainEntryKept();
    KeepSecondThirdFifth(es, Document("a.pdf", PdfType, [1]), Document("b.PDF", PdfType, [2]), Document("c.pdf", PdfType, [4]));
  }
}
