/** The file picker's validation (`handleFiles`): a batch of selected files
    is accepted whole or not at all. Files are checked in order, each first
    for size and then for type; the first file that fails stops the check,
    its message is shown and the selection becomes empty. */
module Upload {
  import opened Wrappers
  import opened Text
  import opened Types
  import opened Expander

  const MaxSizeMegabytes: nat := 50
  const MaxSizeBytes: nat := MaxSizeMegabytes * 1024 * 1024

  /** `name.split('.').pop()?.toLowerCase()`: the text after the last dot,
      lower-cased; a name without a dot is its own extension. */
  function Extension(name: string): (r: string)
    ensures '.' !in r && |r| <= |name|
    ensures '.' !in name ==> r == ToLower(name)
    ensures '.' in name ==> |r| < |name| && name[|name| - |r| - 1] == '.' && r == ToLower(name[|name| - |r|..])
  {
    var e := AfterLast(name, '.');
    LowerKeepsNoDot(e);
    if '.' !in name then DotlessName(name); ToLower(e) else ToLower(e)
  }

  /** Lower-casing keeps the length and brings in no dot. */
  lemma LowerKeepsNoDot(e: string)
    requires '.' !in e
    ensures |ToLower(e)| == |e| && '.' !in ToLower(e)
  {
    forall k | 0 <= k < |e| ensures ToLower(e)[k] != '.' {
      assert e[k] in e;
    }
  }

  predicate TooLarge(f: SourceFile) {
    f.size > MaxSizeBytes
  }

  /** Declared as a PDF or ZIP, or named like one (in any letter case). */
  predicate SupportedType(f: SourceFile) {
    f.mimeType == PdfType || Extension(f.name) == "pdf" || f.mimeType == ZipType || Extension(f.name) == "zip"
  }

  function SizeMessage(name: string): string {
    "File " + name + " melebihi batas ukuran 50MB."
  }

  function TypeMessage(name: string): string {
    "File " + name + " memiliki tipe yang tidak didukung. Harap unggah .pdf atau .zip."
  }

  /** Why one file is refused, if it is: the size test comes first. */
  function Rejection(f: SourceFile): (r: Option<string>)
    ensures r.None? <==> !TooLarge(f) && SupportedType(f)
    ensures TooLarge(f) ==> r == Some(SizeMessage(f.name))
    ensures !TooLarge(f) && !SupportedType(f) ==> r == Some(TypeMessage(f.name))
  {
    if TooLarge(f) then Some(SizeMessage(f.name))
    else if !SupportedType(f) then Some(TypeMessage(f.name))
    else None
  }

  /** The refusal of the first refused file of the batch, if any. */
  function FirstRejection(fs: seq<SourceFile>): (r: Option<string>)
    ensures r.None? <==> forall i | 0 <= i < |fs| :: Rejection(fs[i]).None?
    decreases |fs|
  {
    if fs == [] then None
    else if Rejection(fs[0]).Some? then Rejection(fs[0])
    else
      assert forall i | 1 <= i < |fs| :: fs[i] == fs[1..][i - 1];
      FirstRejection(fs[1..])
  }

  /** The position of the first refused file. */
  lemma {:induction false} FirstRefused(fs: seq<SourceFile>) returns (i: nat)
    requires FirstRejection(fs).Some?
    ensures i < |fs| && FirstRejection(fs) == Rejection(fs[i])
    ensures forall j | 0 <= j < i :: Rejection(fs[j]).None?
    decreases |fs|
  {
    if Rejection(fs[0]).None? {
      var k := FirstRefused(fs[1..]);
      i := k + 1;
      assert fs[i] == fs[1..][k];
      forall j | 0 <= j < i ensures Rejection(fs[j]).None? {
        if j > 0 {
          assert fs[j] == fs[1..][j - 1];
        }
      }
    } else {
      i := 0;
    }
  }

  /** A refusal is that of a file all of whose predecessors pass. */
  lemma FirstRejectionIsFirst(fs: seq<SourceFile>)
    requires FirstRejection(fs).Some?
    ensures exists i | 0 <= i < |fs| ::
      FirstRejection(fs) == Rejection(fs[i]) && forall j | 0 <= j < i :: Rejection(fs[j]).None?
  {
    var i := FirstRefused(fs);
  }

  lemma FirstRejectionStep(fs: seq<SourceFile>)
    requires fs != []
    ensures FirstRejection(fs) == if Rejection(fs[0]).Some? then Rejection(fs[0]) else FirstRejection(fs[1..])
  {
  }

  /** What `handleFiles` does to the picker: nothing for a missing list,
      otherwise the new selection (also passed to the application) and the
      message shown. */
  datatype Selection = Unchanged | Selected(files: seq<SourceFile>, error: Option<string>)

  /** The validation loop: a rejection stops it and empties the selection;
      otherwise the whole batch, in order, is selected. */
  method HandleFiles(files: Option<seq<SourceFile>>) returns (s: Selection)
    ensures files.None? <==> s == Unchanged
    ensures files.Some? ==> s.error == FirstRejection(files.value)
    ensures files.Some? && s.error.None? ==> s.files == files.value
    ensures files.Some? && s.error.Some? ==> s.files == []
  {
    if files.None? {
      return Unchanged;
    }
    var fs := files.value;
    var accepted: seq<SourceFile> := [];
    var i := 0;
    while i < |fs|
      invariant 0 <= i <= |fs|
      invariant accepted == fs[..i]
      invariant FirstRejection(fs) == FirstRejection(fs[i..])
    {
      var f := fs[i];
      FirstRejectionStep(fs[i..]);
      assert fs[i..][0] == f && fs[i..][1..] == fs[i + 1..];
      if TooLarge(f) {
        return Selected([], Some(SizeMessage(f.name)));
      }
      if SupportedType(f) {
        assert fs[..i + 1] == fs[..i] + [f];
        accepted := accepted + [f];
      } else {
        return Selected([], Some(TypeMessage(f.name)));
      }
      i := i + 1;
    }
    assert fs[..i] == fs && fs[i..] == [];
    return Selected(accepted, None);
  }

  /** The limit is 52,428,800 bytes and is itself allowed: a PDF of exactly
      that size passes and one byte more is refused for its size. */
  lemma SizeLimitIsInclusive(name: string, content: Bytes, archive: Archive)
    ensures MaxSizeBytes == 52428800
    ensures FirstRejection([SourceFile(name, PdfType, MaxSizeBytes, content, archive)]) == None
    ensures FirstRejection([SourceFile(name, PdfType, MaxSizeBytes + 1, content, archive)]) == Some(SizeMessage(name))
  {
    assert Rejection(SourceFile(name, PdfType, MaxSizeBytes + 1, content, archive)).Some?;
  }

  /** A file both too large and of an unsupported type is refused for its
      size. */
  lemma SizeCheckedBeforeType(f: SourceFile)
    requires TooLarge(f) && !SupportedType(f)
    ensures FirstRejection([f]) == Some(SizeMessage(f.name))
  {
  }

  /** Everything after a refused file is ignored: the message is the same
      whatever follows. */
  lemma {:induction false} StopsAtFirstRefusal(a: seq<SourceFile>, f: SourceFile, rest: seq<SourceFile>)
    requires forall i | 0 <= i < |a| :: Rejection(a[i]).None?
    requires Rejection(f).Some?
    ensures FirstRejection(a + [f] + rest) == Rejection(f)
    decreases |a|
  {
    if a == [] {
      RefusedAtFront(f, rest);
    } else {
      assert Rejection(a[0]).None?;
      assert forall i | 0 <= i < |a[1..]| :: a[1..][i] == a[i + 1];
      StopsAtFirstRefusal(a[1..], f, rest);
      PassesOver(a, f, rest);
    }
  }

  lemma RefusedAtFront(f: SourceFile, rest: seq<SourceFile>)
    requires Rejection(f).Some?
    ensures FirstRejection([] + [f] + rest) == Rejection(f)
  {
    var fs := [] + [f] + rest;
    FirstRejectionStep(fs);
    assert fs[0] == f;
  }

  /** An accepted first file passes the search on to the rest. */
  lemma PassesOver(a: seq<SourceFile>, f: SourceFile, rest: seq<SourceFile>)
    requires a != [] && Rejection(a[0]).None?
    requires FirstRejection(a[1..] + [f] + rest) == Rejection(f)
    ensures FirstRejection(a + [f] + rest) == Rejection(f)
  {
    var fs := a + [f] + rest;
    FirstRejectionStep(fs);
    assert fs[0] == a[0] && fs[1..] == a[1..] + [f] + rest;
  }

  /** The text after a dot that is followed by no other dot. */
  lemma AfterLastDot(p: string, e: string)
    requires '.' !in e
    ensures AfterLast(p + "." + e, '.') == e
  {
    var s := p + "." + e;
    assert s[|p|] == '.';
    assert s[|p| + 1..] == e;
  }

  /** A name with no dot at all is its own extension: a file named "PDF"
      passes as a PDF whatever its declared type. */
  lemma DotlessNamePasses(t: string, content: Bytes, archive: Archive)
    ensures Extension("PDF") == "pdf"
    ensures FirstRejection([SourceFile("PDF", t, 0, content, archive)]) == None
  {
    PdfIsItsOwnExtension();
    SingleAccepted(SourceFile("PDF", t, 0, content, archive));
  }

  lemma PdfIsItsOwnExtension()
    ensures Extension("PDF") == "pdf"
  {
    DotlessName("PDF");
    LowerPdf();
  }

  lemma LowerZip()
    ensures ToLower("zip") == "zip"
  {
    assert LowerChar('z') == 'z' && LowerChar('i') == 'i' && LowerChar('p') == 'p';
  }

  lemma LowerPdf()
    ensures ToLower("PDF") == "pdf"
  {
    assert LowerChar('P') == 'p' && LowerChar('D') == 'd' && LowerChar('F') == 'f';
  }

  lemma SingleAccepted(f: SourceFile)
    requires !TooLarge(f) && SupportedType(f)
    ensures FirstRejection([f]) == None
  {
  }

  /** Without a dot, the whole name. */
  lemma DotlessName(name: string)
    requires '.' !in name
    ensures AfterLast(name, '.') == name
  {
    assert LastIndexOf(name, '.') == -1;
  }

  /** The expansion's own tests are narrower than the picker's: a file the
      expansion keeps or opens is one the picker accepts by type. */
  lemma ExpandedFilesWereSupported(f: SourceFile)
    requires IsZip(f) || f.mimeType == PdfType
    ensures SupportedType(f)
  {
    if f.mimeType != ZipType && f.mimeType != PdfType {
      var p := f.name[..|f.name| - 4];
      assert f.name[|f.name| - 4..] == ".zip";
      assert f.name == p + "." + "zip";
      AfterLastDot(p, "zip");
      LowerZip();
    }
  }

  /** The picker accepts "ARSIP.ZIP" declared as
      "application/x-zip-compressed" (its extension, lower-cased, is "zip"),
      but the expansion neither opens it (the ".zip" test is case-sensitive
      and the type is not "application/zip") nor keeps it (it is not
      declared as a PDF): the accepted file silently contributes nothing. */
  lemma PickedZipDropped(content: Bytes, archive: Archive)
    ensures var f := SourceFile("ARSIP.ZIP", "application/x-zip-compressed", 0, content, archive);
      FirstRejection([f]) == None && Expand([f]) == Success([])
  {
    var f := SourceFile("ARSIP.ZIP", "application/x-zip-compressed", 0, content, archive);
    UpperZipExtension();
    SingleAccepted(f);
    UpperCaseZipDropped(f.mimeType, content, archive);
  }

  lemma UpperZipExtension()
    ensures Extension("ARSIP.ZIP") == "zip"
  {
    AfterLastDot("ARSIP", "ZIP");
    assert "ARSIP" + "." + "ZIP" == "ARSIP.ZIP";
    assert ToLower("ZIP") == "zip";
  }

  /** Accepted as a ZIP by the picker's rule. */
  predicate OpensAsZip(f: SourceFile) {
    f.mimeType == ZipType || Extension(f.name) == "zip"
  }

  /** The evidently intended expansion test: a file is opened as a ZIP, or
      kept as a PDF, by the same rule the picker accepted it with. */
  function ExpandOneAsPicked(f: SourceFile): Result<seq<Document>, string> {
    if OpensAsZip(f) then
      match f.archive
      case Unreadable(m) => Failure(m)
      case Entries(es) => Success(PdfEntries(es))
    else if f.mimeType == PdfType || Extension(f.name) == "pdf" then
      Success([Document(f.name, PdfType, f.content)])
    else Success([])
  }

  /** With that test no accepted file is passed over: a file is opened as a
      ZIP or kept as a PDF exactly when the picker accepts its type. */
  lemma PickedFilesAreExpanded(f: SourceFile)
    ensures SupportedType(f) <==>
      (f.mimeType == ZipType || Extension(f.name) == "zip"
       || ExpandOneAsPicked(f) == Success([Document(f.name, PdfType, f.content)]))
    ensures !SupportedType(f) ==> ExpandOneAsPicked(f) == Success([])
  {
  }

  /** The whole selection expanded with that test, in order; an unreadable
      archive stops everything, as in `Expand`. */
  function ExpandAsPicked(files: seq<SourceFile>): Result<seq<Document>, string>
    decreases |files|
  {
    if files == [] then Success([])
    else
      match ExpandOneAsPicked(files[0])
      case Failure(e) => Failure(e)
      case Success(ds) =>
        match ExpandAsPicked(files[1..])
        case Failure(e) => Failure(e)
        case Success(rest) => Success(ds + rest)
  }

  /** What an accepted file contributes with that test: the PDF entries of
      the archive it opens, or the file itself as a PDF. */
  function Contribution(f: SourceFile): seq<Document>
    requires !OpensAsZip(f) || f.archive.Entries?
  {
    if OpensAsZip(f) then PdfEntries(f.archive.entries) else [Document(f.name, PdfType, f.content)]
  }

  /** An accepted file expands to its contribution. */
  lemma AcceptedFileContributes(f: SourceFile)
    requires Rejection(f).None? && ExpandOneAsPicked(f).Success?
    ensures !OpensAsZip(f) || f.archive.Entries?
    ensures ExpandOneAsPicked(f).value == Contribution(f)
  {
    PickedFilesAreExpanded(f);
  }

  /** One step of `ExpandAsPicked`, read both ways. */
  lemma AsPickedCons(files: seq<SourceFile>)
    requires files != []
    ensures ExpandAsPicked(files).Success?
      <==> ExpandOneAsPicked(files[0]).Success? && ExpandAsPicked(files[1..]).Success?
    ensures ExpandAsPicked(files).Success? ==>
      ExpandAsPicked(files).value == ExpandOneAsPicked(files[0]).value + ExpandAsPicked(files[1..]).value
  {
  }

  /** Expanding two runs of files is expanding each in turn. */
  lemma {:induction false} AsPickedAppend(a: seq<SourceFile>, b: seq<SourceFile>)
    ensures ExpandAsPicked(a + b).Success? <==> ExpandAsPicked(a).Success? && ExpandAsPicked(b).Success?
    ensures ExpandAsPicked(a + b).Success? ==>
      ExpandAsPicked(a + b).value == ExpandAsPicked(a).value + ExpandAsPicked(b).value
    decreases |a|
  {
    if a == [] {
      assert a + b == b;
    } else {
      assert (a + b)[0] == a[0] && (a + b)[1..] == a[1..] + b;
      AsPickedAppend(a[1..], b);
      AsPickedCons(a + b);
      AsPickedCons(a);
      if ExpandAsPicked(a + b).Success? {
        Regroup(ExpandOneAsPicked(a[0]).value, ExpandAsPicked(a[1..]).value, [], ExpandAsPicked(b).value);
      }
    }
  }

  /** Over a whole accepted selection, every file contributes in its place:
      the documents are those of the files before it, then its own (every
      ZIP opened, every other file kept as a PDF), then those of the files
      after it. */
  lemma AcceptedFilesContributeInOrder(files: seq<SourceFile>, i: nat)
    requires FirstRejection(files) == None && i < |files|
    requires ExpandAsPicked(files).Success?
    ensures !OpensAsZip(files[i]) || files[i].archive.Entries?
    ensures ExpandAsPicked(files[..i]).Success? && ExpandAsPicked(files[i + 1..]).Success?
    ensures ExpandAsPicked(files).value
      == ExpandAsPicked(files[..i]).value + Contribution(files[i]) + ExpandAsPicked(files[i + 1..]).value
  {
    SplitAround(files, i);
    assert Rejection(files[i]).None?;
    ContributesBetween(files[..i], files[i], files[i + 1..]);
  }

  lemma ContributesBetween(before: seq<SourceFile>, f: SourceFile, after: seq<SourceFile>)
    requires Rejection(f).None? && ExpandAsPicked(before + ([f] + after)).Success?
    ensures !OpensAsZip(f) || f.archive.Entries?
    ensures ExpandAsPicked(before).Success? && ExpandAsPicked(after).Success?
    ensures ExpandAsPicked(before + ([f] + after)).value
      == ExpandAsPicked(before).value + Contribution(f) + ExpandAsPicked(after).value
  {
    AsPickedAppend(before, [f] + after);
    AsPickedAppend([f], after);
    AsPickedCons([f]);
    assert [f][1..] == [];
    AcceptedFileContributes(f);
    Regroup(ExpandAsPicked(before).value, Contribution(f), [], ExpandAsPicked(after).value);
  }

  lemma SplitAround<T>(s: seq<T>, i: nat)
    requires i < |s|
    ensures s == s[..i] + ([s[i]] + s[i + 1..])
  {
    assert s[i..] == [s[i]] + s[i + 1..];
    assert s == s[..i] + s[i..];
  }

  lemma Regroup<T>(h: seq<T>, a: seq<T>, c: seq<T>, b: seq<T>)
    ensures h + (a + c + b) == (h + a) + c + b
  {
  }
}
