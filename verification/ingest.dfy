/** Building the eligibility table from the first sheet of the downloaded
    workbook (the row loop of `downloadAndProcessNDCs`). */
module Ingest {
  import opened Wrappers
  import opened Records

  /** Every key is a non-empty code, keys the record carrying that code,
      and the record's text fields are trimmed. */
  predicate WellFormedTable(t: Table)
  {
    forall k :: k in t ==> k != "" && t[k].ndc == k && RecordTrimmed(t[k])
  }

  /** One loop iteration: an unreadable row is skipped, a row with an
      empty code is dropped, otherwise the row's record is stored under
      its code, replacing any earlier record with that code. */
  function AddRow(t: Table, row: Option<Row>): (t': Table)
    ensures CodeOf(row) == "" ==> t' == t
    ensures CodeOf(row) != "" ==> t' == t[CodeOf(row) := RecordOfRow(row.value)]
  {
    match row
    case None => t
    case Some(cells) =>
      var record := RecordOfRow(cells);
      if record.ndc != "" then t[record.ndc := record] else t
  }

  /** The code a row would be stored under; "" for an unreadable row. */
  function CodeOf(row: Option<Row>): string
  {
    match row
    case None => ""
    case Some(cells) => RecordOfRow(cells).ndc
  }

  /** What one iteration does to the table, key by key. */
  lemma AddRowEffect(t: Table, row: Option<Row>)
    ensures forall k :: k in AddRow(t, row) <==> k in t || (k != "" && k == CodeOf(row))
    ensures forall k :: k in AddRow(t, row) && k != CodeOf(row) ==> AddRow(t, row)[k] == t[k]
    ensures CodeOf(row) != "" ==> AddRow(t, row)[CodeOf(row)] == RecordOfRow(row.value)
  {
  }

  /** One iteration leaves entries under other codes alone. */
  lemma AddRowKeeps(t: Table, row: Option<Row>, k: string)
    requires k in t && k != CodeOf(row)
    ensures k in AddRow(t, row) && AddRow(t, row)[k] == t[k]
  {
  }

  /** One iteration stores a readable row with a non-empty code. */
  lemma AddRowStores(t: Table, row: Option<Row>)
    requires CodeOf(row) != ""
    ensures CodeOf(row) in AddRow(t, row) && AddRow(t, row)[CodeOf(row)] == RecordOfRow(row.value)
  {
  }

  /** The table after the loop has processed rows `1 .. n-1`; the header
      row 0 is never processed. */
  function TableUpTo(sheet: Sheet, n: nat): (t: Table)
    requires n <= |sheet|
    ensures WellFormedTable(t)
    decreases n
  {
    if n <= 1 then map[] else AddRow(TableUpTo(sheet, n - 1), sheet[n - 1])
  }

  /** The table built from the whole sheet. */
  function BuildTable(sheet: Sheet): (t: Table)
    ensures WellFormedTable(t)
  {
    TableUpTo(sheet, |sheet|)
  }

  /** Row `i` is a data row that the loop stores in the table. */
  predicate Contributes(sheet: Sheet, i: int)
  {
    1 <= i < |sheet| && CodeOf(sheet[i]) != ""
  }

  /** Row `j` is the last row before `n` that stores code `k`. */
  predicate LastRowFor(sheet: Sheet, n: int, k: string, j: int)
  {
    && j < n <= |sheet|
    && Contributes(sheet, j)
    && CodeOf(sheet[j]) == k
    && forall i :: j < i < n && Contributes(sheet, i) ==> CodeOf(sheet[i]) != k
  }

  /** The keys of the table after `n` rows, described without the loop:
      the codes of the contributing rows. */
  lemma {:induction false} TableUpToKeys(sheet: Sheet, n: nat)
    requires n <= |sheet|
    ensures forall k :: k in TableUpTo(sheet, n) <==>
                          exists j :: 1 <= j < n && Contributes(sheet, j) && CodeOf(sheet[j]) == k
    decreases n
  {
    if n > 1 {
      TableUpToKeys(sheet, n - 1);
      var prev := TableUpTo(sheet, n - 1);
      var t := TableUpTo(sheet, n);
      assert t == AddRow(prev, sheet[n - 1]);
      AddRowEffect(prev, sheet[n - 1]);
      forall k
        ensures k in t <==> exists j :: 1 <= j < n && Contributes(sheet, j) && CodeOf(sheet[j]) == k
      {
        if k in t && k !in prev {
          assert Contributes(sheet, n - 1) && CodeOf(sheet[n - 1]) == k;
        }
        if exists j :: 1 <= j < n && Contributes(sheet, j) && CodeOf(sheet[j]) == k {
          var j :| 1 <= j < n && Contributes(sheet, j) && CodeOf(sheet[j]) == k;
          if j < n - 1 {
            assert k in prev;
          }
        }
      }
    }
  }

  /** The entries of the table after `n` rows, described without the
      loop: each key holds the record of the last row carrying it. */
  lemma {:induction false} TableUpToLast(sheet: Sheet, n: nat)
    requires n <= |sheet|
    ensures forall k, j :: LastRowFor(sheet, n, k, j) ==>
                             k in TableUpTo(sheet, n) && TableUpTo(sheet, n)[k] == RecordOfRow(sheet[j].value)
    decreases n
  {
    if n > 1 {
      TableUpToLast(sheet, n - 1);
      forall k, j | LastRowFor(sheet, n, k, j)
        ensures k in TableUpTo(sheet, n) && TableUpTo(sheet, n)[k] == RecordOfRow(sheet[j].value)
      {
        if j < n - 1 {
          assert LastRowFor(sheet, n - 1, k, j);
        }
        LastRowStep(sheet, n, k, j);
      }
    }
  }

  /** One step of `TableUpToLast`: the last row for `k` among the first
      `n` is either row `n-1` itself or already the last among `n-1`. */
  lemma LastRowStep(sheet: Sheet, n: nat, k: string, j: int)
    requires 1 < n <= |sheet| && LastRowFor(sheet, n, k, j)
    requires j < n - 1 ==> k in TableUpTo(sheet, n - 1) && TableUpTo(sheet, n - 1)[k] == RecordOfRow(sheet[j].value)
    ensures k in TableUpTo(sheet, n) && TableUpTo(sheet, n)[k] == RecordOfRow(sheet[j].value)
  {
    if j < n - 1 {
      assert CodeOf(sheet[n - 1]) != k;
      AddRowKeeps(TableUpTo(sheet, n - 1), sheet[n - 1], k);
    } else {
      LastRowIsNewest(sheet, n);
    }
  }

  /** Row `n-1`, when it contributes, is what the table holds for its code. */
  lemma LastRowIsNewest(sheet: Sheet, n: nat)
    requires 1 < n <= |sheet| && Contributes(sheet, n - 1)
    ensures var k := CodeOf(sheet[n - 1]);
            k in TableUpTo(sheet, n) && TableUpTo(sheet, n)[k] == RecordOfRow(sheet[n - 1].value)
  {
    AddRowStores(TableUpTo(sheet, n - 1), sheet[n - 1]);
  }

  /** The table's key set is exactly the set of non-empty codes among the
      readable data rows. */
  lemma TableKeys(sheet: Sheet)
    ensures BuildTable(sheet).Keys ==
              set i | 1 <= i < |sheet| && Contributes(sheet, i) :: CodeOf(sheet[i])
  {
    TableUpToKeys(sheet, |sheet|);
  }

  /** Last write wins: the record of the last row carrying a code is the
      one the table keeps. */
  lemma LastRowWins(sheet: Sheet, j: nat)
    requires Contributes(sheet, j)
    requires forall i :: j < i < |sheet| && Contributes(sheet, i) ==>
                           CodeOf(sheet[i]) != CodeOf(sheet[j])
    ensures var k := CodeOf(sheet[j]);
            k in BuildTable(sheet) && BuildTable(sheet)[k] == RecordOfRow(sheet[j].value)
  {
    TableUpToLast(sheet, |sheet|);
    assert LastRowFor(sheet, |sheet|, CodeOf(sheet[j]), j);
  }

  /** Every entry of the table is the record of some row that is the last
      one carrying its code. */
  lemma EntriesFromLastRows(sheet: Sheet, k: string)
    requires k in BuildTable(sheet)
    ensures exists j :: LastRowFor(sheet, |sheet|, k, j) && BuildTable(sheet)[k] == RecordOfRow(sheet[j].value)
  {
    TableUpToKeys(sheet, |sheet|);
    TableUpToLast(sheet, |sheet|);
    var j :| 1 <= j < |sheet| && Contributes(sheet, j) && CodeOf(sheet[j]) == k;
    while exists i :: j < i < |sheet| && Contributes(sheet, i) && CodeOf(sheet[i]) == k
      invariant 1 <= j < |sheet| && Contributes(sheet, j) && CodeOf(sheet[j]) == k
      decreases |sheet| - j
    {
      var later :| j < later < |sheet| && Contributes(sheet, later) && CodeOf(sheet[later]) == k;
      j := later;
    }
    assert LastRowFor(sheet, |sheet|, k, j);
  }

  /** Two sheets that agree on rows `1 .. n-1` build the same table. */
  lemma {:induction false} AgreeingRowsSameTable(s1: Sheet, s2: Sheet, n: nat)
    requires n <= |s1| && n <= |s2|
    requires forall i :: 1 <= i < n ==> s1[i] == s2[i]
    ensures TableUpTo(s1, n) == TableUpTo(s2, n)
    decreases n
  {
    if n > 1 {
      AgreeingRowsSameTable(s1, s2, n - 1);
    }
  }

  /** The header row never contributes, whatever it holds. */
  lemma HeaderIgnored(sheet: Sheet, header: Option<Row>)
    requires |sheet| > 0
    ensures BuildTable(sheet[0 := header]) == BuildTable(sheet)
  {
    AgreeingRowsSameTable(sheet[0 := header], sheet, |sheet|);
  }

  /** An unreadable row, or a row whose code is empty, changes nothing. */
  lemma NonContributingRowIgnored(sheet: Sheet, row: Option<Row>)
    requires row.None? || RecordOfRow(row.value).ndc == ""
    ensures BuildTable(sheet + [row]) == BuildTable(sheet)
  {
    AgreeingRowsSameTable(sheet + [row], sheet, |sheet|);
  }

  /** The error for a workbook without any sheet. */
  const NoSheets := "no sheets found in Excel file"

  /** From the downloaded workbook to a new table: download, read and open
      failures pass through, an empty workbook is an error, otherwise the
      first sheet is built into a table. */
  function LoadTable(workbook: Result<seq<Sheet>>): (r: Result<Table>)
    ensures r.Ok? <==> workbook.Ok? && |workbook.value| > 0
    ensures workbook.Err? ==> r.error == workbook.error
    ensures workbook.Ok? && |workbook.value| == 0 ==> r.error == NoSheets
    ensures r.Ok? ==> WellFormedTable(r.value) && r.value == BuildTable(workbook.value[0])
  {
    match workbook
    case Err(e) => Err(e)
    case Ok(sheets) => if |sheets| == 0 then Err(NoSheets) else Ok(BuildTable(sheets[0]))
  }

  /** Only the first sheet is read: a successful load holds exactly the
      codes of that sheet's data rows, whatever the other sheets contain. */
  lemma LoadedKeys(workbook: Result<seq<Sheet>>)
    requires LoadTable(workbook).Ok?
    ensures var first := workbook.value[0];
            LoadTable(workbook).value.Keys ==
              set i | 1 <= i < |first| && Contributes(first, i) :: CodeOf(first[i])
  {
    TableKeys(workbook.value[0]);
  }
}
