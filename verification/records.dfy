/** One row of the 340B spreadsheet and how its cells are read
    (`NDCRecord`, `getCellValue`, `getCellValueByIndex` in cmd/server/drugs.go). */
module Records {
  import opened Wrappers
  import opened Text

  /** One eligibility record; every text field is trimmed cell text. */
  datatype NDCRecord = NDCRecord(
    ndc: string,
    drugName: string,
    strength: string,
    unitOfMeasure: string,
    route: string,
    manufacturer: string,
    packageSize: string,
    is340B: bool)

  /** The eligibility table: trimmed NDC code to record. */
  type Table = map<string, NDCRecord>

  /** A readable spreadsheet row: the raw text (`cell.String()`) of its
      cells by column; a column at or beyond `|row|` has no cell. */
  type Row = seq<string>

  /** The first sheet of the workbook. Row 0 is the header; `None` is a
      row that `sheet.Row(i)` could not read. */
  type Sheet = seq<Option<Row>>

  /** The fixed column layout of the sheet. */
  const NdcColumn: nat := 0
  const DrugNameColumn: nat := 1
  const StrengthColumn: nat := 2
  const UnitColumn: nat := 3
  const RouteColumn: nat := 4
  const ManufacturerColumn: nat := 5
  const PackageSizeColumn: nat := 6
  const MarkerColumn: nat := 7

  /** All text fields of a record are trimmed. */
  predicate RecordTrimmed(r: NDCRecord)
  {
    && IsTrimmed(r.ndc) && IsTrimmed(r.drugName) && IsTrimmed(r.strength)
    && IsTrimmed(r.unitOfMeasure) && IsTrimmed(r.route)
    && IsTrimmed(r.manufacturer) && IsTrimmed(r.packageSize)
  }

  /** `getCellValue`: a missing cell reads as "", a present one as its
      trimmed text. */
  function CellValue(cell: Option<string>): (v: string)
    ensures IsTrimmed(v)
    ensures cell.None? ==> v == ""
  {
    match cell
    case None => ""
    case Some(text) => Trim(text)
  }

  /** A present cell reads as empty exactly when its text is all white
      space, and text without surrounding space is read unchanged. */
  lemma PresentCellValue(text: string)
    ensures CellValue(Some(text)) == "" <==> AllSpace(text)
    ensures IsTrimmed(text) ==> CellValue(Some(text)) == text
  {
    TrimEmptyIffAllSpace(text);
    if IsTrimmed(text) {
      TrimOfTrimmed(text);
    }
  }

  /** `getCellValueByIndex`: the cell at a column, if the row has one. */
  function CellValueByIndex(row: Row, index: nat): (v: string)
    ensures IsTrimmed(v)
    ensures index >= |row| ==> v == ""
  {
    CellValue(if index < |row| then Some(row[index]) else None)
  }

  /** The eligibility marker reading: "true" in any letter case, or "1". */
  predicate MarkerIs340B(marker: string)
  {
    ToLower(marker) == "true" || marker == "1"
  }

  /** The record a readable row produces; the code may still be empty. */
  function RecordOfRow(row: Row): (r: NDCRecord)
    ensures RecordTrimmed(r)
    ensures r.ndc == CellValueByIndex(row, NdcColumn)
    ensures r.is340B <==> MarkerIs340B(CellValueByIndex(row, MarkerColumn))
  {
    NDCRecord(
      ndc := CellValueByIndex(row, NdcColumn),
      drugName := CellValueByIndex(row, DrugNameColumn),
      strength := CellValueByIndex(row, StrengthColumn),
      unitOfMeasure := CellValueByIndex(row, UnitColumn),
      route := CellValueByIndex(row, RouteColumn),
      manufacturer := CellValueByIndex(row, ManufacturerColumn),
      packageSize := CellValueByIndex(row, PackageSizeColumn),
      is340B := MarkerIs340B(CellValueByIndex(row, MarkerColumn)))
  }

  /** Lower-casing gives "true" exactly for the case variants of "true". */
  lemma LowerIsTrueIffFold(m: string)
    ensures ToLower(m) == "true" <==> EqualFold(m, "true")
  {
    if EqualFold(m, "true") {
      forall i | 0 <= i < 4
        ensures ToLower(m)[i] == "true"[i]
      {
        assert LowerChar("true"[i]) == "true"[i];
      }
    }
    if ToLower(m) == "true" {
      forall i | 0 <= i < 4
        ensures LowerChar(m[i]) == LowerChar("true"[i])
      {
        assert LowerChar("true"[i]) == "true"[i];
      }
    }
  }

  /** A row's record is eligible iff its marker cell exists and its
      trimmed text is "true" ignoring letter case, or is exactly "1". A
      missing or empty marker cell makes the record ineligible. */
  lemma MarkerSemantics(row: Row)
    ensures RecordOfRow(row).is340B <==>
              MarkerColumn < |row|
              && (EqualFold(Trim(row[MarkerColumn]), "true") || Trim(row[MarkerColumn]) == "1")
  {
    LowerIsTrueIffFold(CellValueByIndex(row, MarkerColumn));
    assert ToLower("") == "";
  }
}
