/** The process-wide NDC cache: one table, replaced whole by a successful
    load and read by point lookups (`ndcCache`, `getNDCFromCache` and the
    swap at the end of `downloadAndProcessNDCs`). */
module Cache {
  import opened Wrappers
  import opened Records
  import opened Ingest

  /** `getNDCFromCache`: the record stored under `code`, or absent. */
  function Lookup(t: Table, code: string): (r: Option<NDCRecord>)
    ensures r.Some? <==> code in t
    ensures r.Some? ==> r.value == t[code]
  {
    if code in t then Some(t[code]) else None
  }

  /** A cached record is eligible for 340B pricing. */
  predicate IsEligible(t: Table, code: string)
  {
    code in t && t[code].is340B
  }

  /** The cache after one load attempt, and the attempt's status: the
      number of records installed (the count the source logs), or the
      error that stopped it. */
  datatype Refreshed = Refreshed(table: Table, status: Result<nat>)

  /** One run of `downloadAndProcessNDCs` against the current table: on
      any failure the current table is kept; on success the new table
      replaces it whole, so every lookup answers from the new table only
      and no entry of the old one survives unless the new one has it. */
  function Refresh(current: Table, workbook: Result<seq<Sheet>>): (r: Refreshed)
    ensures r.status.Ok? <==> LoadTable(workbook).Ok?
    ensures r.status.Err? ==> r.table == current && r.status.error == LoadTable(workbook).error
    ensures r.status.Ok? ==>
              && r.status.value == |r.table|
              && forall code :: Lookup(r.table, code) == Lookup(LoadTable(workbook).value, code)
    ensures r.status.Ok? ==>
              forall code :: code in current && code !in LoadTable(workbook).value ==> Lookup(r.table, code).None?
  {
    match LoadTable(workbook)
    case Err(e) => Refreshed(current, Err(e))
    case Ok(next) => Refreshed(next, Ok(|next|))
  }

  /** Installing through a refresh is all or nothing: a lookup after a
      successful refresh equals a lookup in a cache that never held the
      old table. */
  lemma RefreshForgetsOldTable(old1: Table, old2: Table, workbook: Result<seq<Sheet>>, code: string)
    requires LoadTable(workbook).Ok?
    ensures Lookup(Refresh(old1, workbook).table, code) == Lookup(Refresh(old2, workbook).table, code)
  {
  }

  /** After a successful refresh from a sheet, a lookup of a code finds
      exactly the record of the last data row carrying that code, and
      finds nothing for a code no data row carries. */
  lemma LookupAfterRefresh(current: Table, sheets: seq<Sheet>, code: string)
    requires |sheets| > 0
    ensures var t := Refresh(current, Ok(sheets)).table;
            (Lookup(t, code).Some? <==> exists j :: Contributes(sheets[0], j) && CodeOf(sheets[0][j]) == code)
            && forall j :: LastRowFor(sheets[0], |sheets[0]|, code, j) ==>
                             Lookup(t, code) == Some(RecordOfRow(sheets[0][j].value))
  {
    TableUpToKeys(sheets[0], |sheets[0]|);
    TableUpToLast(sheets[0], |sheets[0]|);
  }

  /** The mutable holder of the current table; the table it holds is
      always well formed. Locking is not modelled: every method runs as
      one atomic step. */
  class NdcCache {
    var table: Table

    /** The cache starts empty. */
    constructor ()
      ensures table == map[]
      ensures WellFormedTable(table)
    {
      table := map[];
    }

    /** `getNDCFromCache`. */
    method Get(code: string) returns (r: Option<NDCRecord>)
      requires WellFormedTable(table)
      ensures r.Some? <==> code in table
      ensures r.Some? ==> r.value == table[code]
      ensures r.Some? ==> r.value.ndc == code && RecordTrimmed(r.value)
    {
      r := Lookup(table, code);
    }

    /** `InitNDCCache`: one load attempt; the table changes only on success. */
    method Init(workbook: Result<seq<Sheet>>) returns (err: Option<string>)
      requires WellFormedTable(table)
      modifies this
      ensures WellFormedTable(table)
      ensures err.None? <==> LoadTable(workbook).Ok?
      ensures err.None? ==> table == LoadTable(workbook).value
      ensures err.Some? ==> table == old(table) && err.value == LoadTable(workbook).error
    {
      var r := Refresh(table, workbook);
      table := r.table;
      err := if r.status.Ok? then None else Some(r.status.error);
    }
  }
}
