/** The application's data: one child's record from a family card (17 text
    fields in a fixed order), the uploaded files and archive entries, the
    document units the pipeline works on, the per-document outcome and the
    progress snapshot. */
module Types {
  import opened Wrappers

  type Bytes = seq<bv8>

  /** One child of a family card. Every field is free text exactly as the
      service returned it: there is no numeric or date typing. The fields are
      declared in the order of `Columns`. */
  datatype ChildData = ChildData(
    no: string,
    nama: string,
    nik: string,
    tempatLahir: string,
    tanggalLahir: string,
    namaAyah: string,
    tempatLahirAyah: string,
    tanggalLahirAyah: string,
    pendidikanAyah: string,
    pekerjaanAyah: string,
    namaIbu: string,
    tempatLahirIbu: string,
    tanggalLahirIbu: string,
    pendidikanIbu: string,
    pekerjaanIbu: string,
    alamatLengkap: string,
    noKk: string)

  /** The column names, used as the response schema's property ordering and
      as the spreadsheet header. */
  const Columns: seq<string> := [
    "No.",
    "Nama",
    "NIK",
    "Tempat Lahir",
    "Tanggal Lahir",
    "Nama Ayah",
    "Tempat Lahir Ayah",
    "Tanggal Lahir Ayah",
    "Pendidikan Ayah",
    "Pekerjaan Ayah",
    "Nama Ibu",
    "Tempat Lahir Ibu",
    "Tanggal Lahir Ibu",
    "Pendidikan Ibu",
    "Pekerjaan Ibu",
    "Alamat Lengkap",
    "No. KK"
  ]

  /** The properties the response schema marks as required. */
  const RequiredColumns: seq<string> :=
    ["Nama", "NIK", "Tanggal Lahir", "Nama Ayah", "Nama Ibu", "No. KK", "Alamat Lengkap"]

  /** The value of the property named `column`, as `row[column]` would give it. */
  function Field(c: ChildData, column: string): Option<string> {
    if column == "No." then Some(c.no)
    else if column == "Nama" then Some(c.nama)
    else if column == "NIK" then Some(c.nik)
    else if column == "Tempat Lahir" then Some(c.tempatLahir)
    else if column == "Tanggal Lahir" then Some(c.tanggalLahir)
    else if column == "Nama Ayah" then Some(c.namaAyah)
    else if column == "Tempat Lahir Ayah" then Some(c.tempatLahirAyah)
    else if column == "Tanggal Lahir Ayah" then Some(c.tanggalLahirAyah)
    else if column == "Pendidikan Ayah" then Some(c.pendidikanAyah)
    else if column == "Pekerjaan Ayah" then Some(c.pekerjaanAyah)
    else if column == "Nama Ibu" then Some(c.namaIbu)
    else if column == "Tempat Lahir Ibu" then Some(c.tempatLahirIbu)
    else if column == "Tanggal Lahir Ibu" then Some(c.tanggalLahirIbu)
    else if column == "Pendidikan Ibu" then Some(c.pendidikanIbu)
    else if column == "Pekerjaan Ibu" then Some(c.pekerjaanIbu)
    else if column == "Alamat Lengkap" then Some(c.alamatLengkap)
    else if column == "No. KK" then Some(c.noKk)
    else None
  }

  /** The record's values in declaration order. */
  function Row(c: ChildData): seq<string> {
    [c.no, c.nama, c.nik, c.tempatLahir, c.tanggalLahir,
     c.namaAyah, c.tempatLahirAyah, c.tanggalLahirAyah, c.pendidikanAyah, c.pekerjaanAyah,
     c.namaIbu, c.tempatLahirIbu, c.tanggalLahirIbu, c.pendidikanIbu, c.pekerjaanIbu,
     c.alamatLengkap, c.noKk]
  }

  /** A record from a row of 17 values given in column order. */
  function FromRow(row: seq<string>): (c: ChildData)
    requires |row| == |Columns|
    ensures Row(c) == row
  {
    ChildData(row[0], row[1], row[2], row[3], row[4], row[5], row[6], row[7], row[8],
              row[9], row[10], row[11], row[12], row[13], row[14], row[15], row[16])
  }

  /** There are 17 columns, pairwise distinct, from "No." to "No. KK". */
  lemma ColumnsShape()
    ensures |Columns| == 17
    ensures Columns[0] == "No." && Columns[|Columns| - 1] == "No. KK"
    ensures forall i, j | 0 <= i < j < |Columns| :: Columns[i] != Columns[j]
  {
  }

  /** Column `i` of the header names exactly the value at position `i` of
      the row, and a name outside the header names no property: the
      header order is the declaration order of the record's fields. */
  lemma RowFollowsColumns(c: ChildData)
    ensures |Row(c)| == |Columns|
    ensures forall i | 0 <= i < |Columns| :: Field(c, Columns[i]) == Some(Row(c)[i])
    ensures forall column | column !in Columns :: Field(c, column) == None
  {
  }

  /** Converting a record to its row and back is the identity. */
  lemma RowRoundTrip(c: ChildData)
    ensures FromRow(Row(c)) == c
  {
  }

  /** Every required property of the schema is one of the columns. */
  lemma RequiredAreColumns()
    ensures forall k | 0 <= k < |RequiredColumns| :: RequiredColumns[k] in Columns
  {
  }

  /** An archive as the decompression library would present it: its entries
      in order, or the error the library raises when it cannot read it. */
  datatype ZipEntry = ZipEntry(name: string, dir: bool, content: Bytes)
  datatype Archive = Entries(entries: seq<ZipEntry>) | Unreadable(message: string)

  /** A file the user selected. `archive` is what the decompression library
      finds when asked to open the file's bytes as a ZIP. */
  datatype SourceFile = SourceFile(
    name: string, mimeType: string, size: nat, content: Bytes, archive: Archive)

  /** One extractable PDF: a standalone file or an archive entry. */
  datatype Document = Document(name: string, mimeType: string, content: Bytes)

  /** The outcome for one document. `error` present means failed, whatever
      `data` holds. */
  datatype ExtractedFile = ExtractedFile(fileName: string, data: seq<ChildData>, error: Option<string>)

  /** A progress report: documents processed, documents in total, label. */
  datatype LoadingState = LoadingState(processed: nat, total: nat, currentFile: string)
}
