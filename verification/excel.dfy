/** The spreadsheet export (`downloadAsExcel`): one sheet per outcome that
    holds records, in outcome order, headed by the 17 columns and named
    after the outcome's correlation name with the characters a sheet name
    may not hold removed and cut to 31 characters. A workbook without sheets
    is not written; an alert is shown instead. */
module Excel {
  import opened Text
  import opened Types
  import opened Wrappers

  const MaxSheetNameLength: nat := 31
  const WorkbookName: string := "HASIL_EKSTRAK_KK.xlsx"
  const NothingToDownload: string := "Tidak ada data valid untuk diunduh."

  /** The characters of the class `[*?:[\]/\\]`. */
  predicate Forbidden(c: char) {
    c == '*' || c == '?' || c == ':' || c == '[' || c == ']' || c == '/' || c == '\\'
  }

  predicate Clean(s: string) {
    forall i | 0 <= i < |s| :: !Forbidden(s[i])
  }

  /** `s.replace(/[*?:[\]/\\]/g, '')` */
  function RemoveForbidden(s: string): (r: string)
    ensures |r| <= |s|
    ensures Clean(r)
    ensures forall c :: c in r <==> c in s && !Forbidden(c)
    decreases |s|
  {
    if s == [] then []
    else RemoveForbidden(s[..|s| - 1]) + (if Forbidden(s[|s| - 1]) then [] else [s[|s| - 1]])
  }

  /** Removal works character by character, so it distributes over
      concatenation. */
  lemma {:induction false} RemoveForbiddenAppend(a: string, b: string)
    ensures RemoveForbidden(a + b) == RemoveForbidden(a) + RemoveForbidden(b)
    decreases |b|
  {
    if b != [] {
      var b', x := b[..|b| - 1], b[|b| - 1];
      assert (a + b)[..|a + b| - 1] == a + b' && (a + b)[|a + b| - 1] == x;
      RemoveForbiddenAppend(a, b');
      assert RemoveForbidden(b) == RemoveForbidden(b') + (if Forbidden(x) then [] else [x]);
    } else {
      assert a + b == a;
    }
  }

  /** A name without forbidden characters is left as it is. */
  lemma {:induction false} RemoveForbiddenKeepsClean(s: string)
    requires Clean(s)
    ensures RemoveForbidden(s) == s
    decreases |s|
  {
    if s != [] {
      RemoveForbiddenKeepsClean(s[..|s| - 1]);
      assert s[..|s| - 1] + [s[|s| - 1]] == s;
    }
  }

  /** `fileName.replace(...).substring(0, 31)` */
  function SheetName(fileName: string): (r: string)
    ensures |r| <= MaxSheetNameLength
    ensures Clean(r)
    ensures IsPrefix(r, RemoveForbidden(fileName))
    ensures |r| == MaxSheetNameLength || r == RemoveForbidden(fileName)
  {
    var t := RemoveForbidden(fileName);
    if |t| <= MaxSheetNameLength then t else t[..MaxSheetNameLength]
  }

  /** Cleaning a cleaned name changes nothing. */
  lemma SheetNameIdempotent(fileName: string)
    ensures SheetName(SheetName(fileName)) == SheetName(fileName)
  {
    RemoveForbiddenKeepsClean(SheetName(fileName));
  }

  /** Names differing only in forbidden characters share a sheet name. */
  lemma ForbiddenCharactersIgnored(a: string, c: char, b: string)
    requires Forbidden(c)
    ensures SheetName(a + [c] + b) == SheetName(a + b)
  {
    RemoveForbiddenSkips(a, c, b);
  }

  lemma RemoveForbiddenSkips(a: string, c: char, b: string)
    requires Forbidden(c)
    ensures RemoveForbidden(a + [c] + b) == RemoveForbidden(a + b)
  {
    var ac := a + [c];
    assert ac[..|ac| - 1] == a && ac[|ac| - 1] == c;
    assert RemoveForbidden(ac) == RemoveForbidden(a);
    RemoveForbiddenAppend(ac, b);
    RemoveForbiddenAppend(a, b);
  }

  /** A worksheet: its name, its header row and one row per record. */
  datatype Sheet = Sheet(name: string, header: seq<string>, rows: seq<seq<string>>)

  predicate WellFormed(s: Sheet) {
    s.header == Columns && forall i | 0 <= i < |s.rows| :: |s.rows[i]| == |Columns|
  }

  /** `json_to_sheet(fileData.data, { header: CHILD_DATA_COLUMNS })` under its
      sanitised name. */
  function ToSheet(f: ExtractedFile): (s: Sheet)
    ensures WellFormed(s)
    ensures s.name == SheetName(f.fileName) && |s.rows| == |f.data|
  {
    RowFollowsColumns(ChildData("", "", "", "", "", "", "", "", "", "", "", "", "", "", "", "", ""));
    Sheet(SheetName(f.fileName), Columns, seq(|f.data|, i requires 0 <= i < |f.data| => Row(f.data[i])))
  }

  /** The records a reader of the sheet recovers, column by column. */
  function ReadBack(s: Sheet): seq<ChildData>
    requires WellFormed(s)
  {
    seq(|s.rows|, i requires 0 <= i < |s.rows| => FromRow(s.rows[i]))
  }

  /** A sheet holds exactly its outcome's records, in order. */
  lemma SheetRoundTrip(f: ExtractedFile)
    ensures ReadBack(ToSheet(f)) == f.data
  {
    forall i | 0 <= i < |f.data| ensures ReadBack(ToSheet(f))[i] == f.data[i] {
      RowRoundTrip(f.data[i]);
    }
  }

  /** The sheets appended for `data`, in order: only outcomes with records
      get one. */
  function Sheets(data: seq<ExtractedFile>): (r: seq<Sheet>)
    ensures |r| <= |data|
    ensures r == [] <==> forall i | 0 <= i < |data| :: data[i].data == []
    ensures forall k | 0 <= k < |r| :: WellFormed(r[k])
    decreases |data|
  {
    if data == [] then []
    else
      var rest := Sheets(data[1..]);
      assert forall i | 1 <= i < |data| :: data[i] == data[1..][i - 1];
      SheetOf(data[0]) + rest
  }

  /** The sheet one outcome contributes: one when it has records. */
  function SheetOf(f: ExtractedFile): (r: seq<Sheet>)
    ensures f.data == [] ==> r == []
    ensures f.data != [] ==> |r| == 1 && r[0] == ToSheet(f) && r[0].name == SheetName(f.fileName)
  {
    if f.data != [] then [ToSheet(f)] else []
  }

  lemma {:induction false} SheetsAppend(a: seq<ExtractedFile>, b: seq<ExtractedFile>)
    ensures Sheets(a + b) == Sheets(a) + Sheets(b)
    decreases |a|
  {
    if a != [] {
      assert (a + b)[1..] == a[1..] + b;
      assert (a + b)[0] == a[0];
      SheetsAppend(a[1..], b);
      var h := SheetOf(a[0]);
      assert Sheets(a + b) == h + Sheets(a[1..] + b);
      assert Sheets(a) == h + Sheets(a[1..]);
      Associate(h, Sheets(a[1..]), Sheets(b));
    } else {
      assert a + b == b;
    }
  }

  lemma Associate<T>(a: seq<T>, b: seq<T>, c: seq<T>)
    ensures a + (b + c) == (a + b) + c
  {
  }

  /** An outcome contributes one sheet when it has records and none
      otherwise. */
  lemma SheetOfOne(f: ExtractedFile)
    ensures Sheets([f]) == if f.data == [] then [] else [ToSheet(f)]
  {
    assert [f][1..] == [];
  }

  /** All records of the sheets, sheet after sheet. */
  function SheetRecords(sheets: seq<Sheet>): seq<ChildData>
    requires forall k | 0 <= k < |sheets| :: WellFormed(sheets[k])
    decreases |sheets|
  {
    if sheets == [] then [] else ReadBack(sheets[0]) + SheetRecords(sheets[1..])
  }

  /** All records of the outcomes, outcome after outcome. */
  function Records(data: seq<ExtractedFile>): seq<ChildData>
    decreases |data|
  {
    if data == [] then [] else data[0].data + Records(data[1..])
  }

  /** The export neither loses nor invents a record: reading the sheets back
      in order gives every outcome's records in order. */
  lemma {:induction false} ExportKeepsEveryRecord(data: seq<ExtractedFile>)
    ensures SheetRecords(Sheets(data)) == Records(data)
    decreases |data|
  {
    if data != [] {
      ExportKeepsEveryRecord(data[1..]);
      var rest := Sheets(data[1..]);
      if data[0].data != [] {
        var s := ToSheet(data[0]);
        assert Sheets(data) == [s] + rest;
        assert ([s] + rest)[1..] == rest;
        SheetRoundTrip(data[0]);
      } else {
        assert Sheets(data) == rest;
      }
    }
  }

  /** The workbook already holds a sheet called `n`. */
  predicate HasSheet(book: seq<Sheet>, n: string) {
    exists k | 0 <= k < |book| :: book[k].name == n
  }

  predicate DistinctNames(book: seq<Sheet>) {
    forall a, b | 0 <= a < b < |book| :: book[a].name != book[b].name
  }

  /** `book_append_sheet` for each sheet in turn, onto a workbook holding
      `book`: the name of the first sheet the workbook already has a sheet
      of that name for, where the library throws, or `None` when every sheet
      is appended. */
  function FirstTaken(book: seq<Sheet>, sheets: seq<Sheet>): Option<string>
    decreases |sheets|
  {
    if sheets == [] then None
    else if HasSheet(book, sheets[0].name) then Some(sheets[0].name)
    else FirstTaken(book + [sheets[0]], sheets[1..])
  }

  /** Appending stops exactly when the names of the whole workbook would
      repeat, and at a name it already holds. */
  lemma {:induction false} FirstTakenIff(book: seq<Sheet>, sheets: seq<Sheet>)
    requires DistinctNames(book)
    ensures FirstTaken(book, sheets).None? <==> DistinctNames(book + sheets)
    ensures FirstTaken(book, sheets).Some? ==> HasSheet(book + sheets, FirstTaken(book, sheets).value)
    decreases |sheets|
  {
    if sheets == [] {
      assert book + sheets == book;
    } else {
      var s, all := sheets[0], book + sheets;
      assert all == (book + [s]) + sheets[1..];
      assert all[|book|] == s;
      if HasSheet(book, s.name) {
        var k :| 0 <= k < |book| && book[k].name == s.name;
        assert all[k] == book[k];
      } else {
        assert DistinctNames(book + [s]) by {
          forall a, b | 0 <= a < b < |book| + 1 ensures (book + [s])[a].name != (book + [s])[b].name {
            if b < |book| {
              assert (book + [s])[a] == book[a] && (book + [s])[b] == book[b];
            } else {
              assert (book + [s])[a] == book[a];
            }
          }
        }
        FirstTakenIff(book + [s], sheets[1..]);
      }
    }
  }

  /** Two outcomes with records, `i` before `j`, whose sheet names are the
      same. */
  predicate Clash(data: seq<ExtractedFile>, i: int, j: int) {
    0 <= i < j < |data| && data[i].data != [] && data[j].data != []
    && SheetName(data[i].fileName) == SheetName(data[j].fileName)
  }

  lemma HasSheetAppend(a: seq<Sheet>, b: seq<Sheet>, n: string)
    ensures HasSheet(a + b, n) <==> HasSheet(a, n) || HasSheet(b, n)
  {
    if HasSheet(a + b, n) {
      var k :| 0 <= k < |a + b| && (a + b)[k].name == n;
      if k >= |a| {
        assert b[k - |a|] == (a + b)[k];
      }
    }
    if HasSheet(a, n) {
      var k :| 0 <= k < |a| && a[k].name == n;
      assert (a + b)[k] == a[k];
    }
    if HasSheet(b, n) {
      var k :| 0 <= k < |b| && b[k].name == n;
      assert (a + b)[k + |a|] == b[k];
    }
  }

  /** Putting at most one sheet in front keeps the names distinct exactly
      when its name is new. */
  lemma DistinctAfterOne(h: seq<Sheet>, rest: seq<Sheet>)
    requires |h| <= 1
    ensures DistinctNames(h + rest) <==> DistinctNames(rest) && (h == [] || !HasSheet(rest, h[0].name))
  {
    if h == [] {
      assert h + rest == rest;
    } else {
      if !DistinctNames(rest) {
        var a, b :| 0 <= a < b < |rest| && rest[a].name == rest[b].name;
        assert (h + rest)[a + 1] == rest[a] && (h + rest)[b + 1] == rest[b];
      }
      if HasSheet(rest, h[0].name) {
        var k :| 0 <= k < |rest| && rest[k].name == h[0].name;
        assert (h + rest)[0] == h[0] && (h + rest)[k + 1] == rest[k];
      }
      if !DistinctNames(h + rest) {
        var a, b :| 0 <= a < b < |h + rest| && (h + rest)[a].name == (h + rest)[b].name;
        assert (h + rest)[b] == rest[b - 1];
        if a > 0 {
          assert (h + rest)[a] == rest[a - 1];
        } else {
          assert (h + rest)[a] == h[0];
        }
      }
    }
  }

  /** Some outcome from `from` on, with records, gets sheet name `n`. */
  predicate NamedFrom(data: seq<ExtractedFile>, from: nat, n: string) {
    exists j | from <= j < |data| :: data[j].data != [] && SheetName(data[j].fileName) == n
  }

  lemma NamedFromTail(data: seq<ExtractedFile>, n: string)
    requires data != []
    ensures NamedFrom(data[1..], 0, n) <==> NamedFrom(data, 1, n)
  {
    if NamedFrom(data[1..], 0, n) {
      var j :| 0 <= j < |data[1..]| && data[1..][j].data != [] && SheetName(data[1..][j].fileName) == n;
      assert data[j + 1] == data[1..][j];
    }
    if NamedFrom(data, 1, n) {
      var j :| 1 <= j < |data| && data[j].data != [] && SheetName(data[j].fileName) == n;
      assert data[1..][j - 1] == data[j];
    }
  }

  /** A sheet name is used exactly when some outcome with records gets it. */
  lemma {:induction false} SheetsHaveName(data: seq<ExtractedFile>, n: string)
    ensures HasSheet(Sheets(data), n) <==> NamedFrom(data, 0, n)
    decreases |data|
  {
    if data != [] {
      SheetsHaveName(data[1..], n);
      NamedFromTail(data, n);
      var h := SheetOf(data[0]);
      HasSheetAppend(h, Sheets(data[1..]), n);
      assert HasSheet(h, n) <==> data[0].data != [] && SheetName(data[0].fileName) == n by {
        if data[0].data != [] {
          assert h[0].name == SheetName(data[0].fileName);
        }
      }
    }
  }

  lemma ClashInTail(data: seq<ExtractedFile>)
    requires data != []
    ensures (exists i, j :: Clash(data[1..], i, j)) <==> exists i, j :: Clash(data, i, j) && i > 0
  {
    var tail := data[1..];
    if i, j :| Clash(tail, i, j) {
      assert data[i + 1] == tail[i] && data[j + 1] == tail[j];
      assert Clash(data, i + 1, j + 1);
    }
    if i, j :| Clash(data, i, j) && i > 0 {
      assert data[i] == tail[i - 1] && data[j] == tail[j - 1];
      assert Clash(tail, i - 1, j - 1);
    }
  }

  lemma ClashWithFirst(data: seq<ExtractedFile>)
    requires data != []
    ensures (exists j :: Clash(data, 0, j)) <==> data[0].data != [] && NamedFrom(data, 1, SheetName(data[0].fileName))
  {
    if data[0].data != [] && NamedFrom(data, 1, SheetName(data[0].fileName)) {
      var j :| 1 <= j < |data| && data[j].data != [] && SheetName(data[j].fileName) == SheetName(data[0].fileName);
      assert Clash(data, 0, j);
    }
  }

  /** Some two outcomes with records share a sheet name. */
  predicate AnyClash(data: seq<ExtractedFile>) {
    exists i, j | 0 <= i < j < |data| :: Clash(data, i, j)
  }

  /** A clash involves the first outcome or lies wholly in the rest. */
  lemma ClashCons(data: seq<ExtractedFile>)
    requires data != []
    ensures AnyClash(data) <==>
      (AnyClash(data[1..]) || (data[0].data != [] && NamedFrom(data, 1, SheetName(data[0].fileName))))
  {
    ClashInTail(data);
    ClashWithFirst(data);
    if i, j :| Clash(data, i, j) {
      if i == 0 {
        assert exists j :: Clash(data, 0, j);
      } else {
        assert exists i, j :: Clash(data, i, j) && i > 0;
      }
    }
  }

  /** The sheets of `data` have pairwise distinct names exactly when no two
      outcomes with records clash. */
  lemma {:induction false} DistinctSheetsIffNoClash(data: seq<ExtractedFile>)
    ensures DistinctNames(Sheets(data)) <==> !AnyClash(data)
    decreases |data|
  {
    if data != [] {
      var tail := data[1..];
      var n := SheetName(data[0].fileName);
      DistinctSheetsIffNoClash(tail);
      SheetsHaveName(tail, n);
      NamedFromTail(data, n);
      ClashCons(data);
      DistinctAfterOne(SheetOf(data[0]), Sheets(tail));
    }
  }

  /** What a download does: write the workbook, show an alert, or stop with
      the library's error at a sheet name the workbook already holds. */
  datatype Download =
    | Written(fileName: string, sheets: seq<Sheet>)
    | Alert(message: string)
    | DuplicateSheet(name: string)

  function DownloadAsExcel(data: seq<ExtractedFile>): (r: Download)
    ensures r.Alert? <==> forall i | 0 <= i < |data| :: data[i].data == []
    ensures r.Written? <==> (exists i | 0 <= i < |data| :: data[i].data != []) && !AnyClash(data)
    ensures r.DuplicateSheet? <==> AnyClash(data)
    ensures r.DuplicateSheet? ==> NamedFrom(data, 0, r.name)
    ensures r.Written? ==> forall k | 0 <= k < |r.sheets| :: WellFormed(r.sheets[k])
    ensures r.Written? ==> r.fileName == WorkbookName && r.sheets == Sheets(data)
    ensures r.Written? ==> SheetRecords(r.sheets) == Records(data)
    ensures r.Alert? ==> r.message == NothingToDownload
  {
    var sheets := Sheets(data);
    ExportKeepsEveryRecord(data);
    FirstTakenIff([], sheets);
    assert [] + sheets == sheets;
    DistinctSheetsIffNoClash(data);
    match FirstTaken([], sheets)
    case Some(n) =>
      SheetsHaveName(data, n);
      DuplicateSheet(n)
    case None =>
      if |sheets| > 0 then Written(WorkbookName, sheets) else Alert(NothingToDownload)
  }
}
