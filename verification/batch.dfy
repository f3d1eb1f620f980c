/** The two batch tools: `generateRxNormExcel` (best approximate match per
    drug name) and `generate340BExcel` (eligibility per NDC code). */
module Batch {
  import opened Wrappers
  import opened Text
  import opened Records
  import opened Cache
  import opened Upstream
  import opened Eligibility

  /** The entries a batch loop acts on: each input trimmed, blanks
      dropped, input order kept. */
  function NonBlank(items: seq<string>): (r: seq<string>)
    ensures |r| <= |items|
    ensures forall j :: 0 <= j < |r| ==> r[j] != "" && IsTrimmed(r[j])
    decreases |items|
  {
    if |items| == 0 then []
    else
      var last := Trim(items[|items| - 1]);
      NonBlank(items[..|items| - 1]) + (if last == "" then [] else [last])
  }

  /** The entries of a longer input are those of its parts, in order. */
  lemma {:induction false} NonBlankAppend(a: seq<string>, b: seq<string>)
    ensures NonBlank(a + b) == NonBlank(a) + NonBlank(b)
    decreases |b|
  {
    if |b| == 0 {
      assert a + b == a;
    } else {
      var b' := b[..|b| - 1];
      assert (a + b)[..|a + b| - 1] == a + b';
      assert (a + b)[|a + b| - 1] == b[|b| - 1];
      NonBlankAppend(a, b');
    }
  }

  /** One more input extends the entries by its trimmed text, if any. */
  lemma NonBlankStep(items: seq<string>, i: nat)
    requires i < |items|
    ensures NonBlank(items[..i + 1]) == NonBlank(items[..i]) + (if Trim(items[i]) == "" then [] else [Trim(items[i])])
  {
    assert items[..i + 1][..i] == items[..i];
  }

  /** A single input contributes its trimmed text unless that is empty. */
  lemma NonBlankSingle(item: string)
    ensures NonBlank([item]) == (if Trim(item) == "" then [] else [Trim(item)])
  {
    assert [item][..0] == [];
  }

  /** Blank entries are skipped: `["", "aspirin", "  "]` yields the one
      entry "aspirin". */
  lemma BlankEntriesSkipped()
    ensures NonBlank(["", "aspirin", "  "]) == ["aspirin"]
  {
    NonBlankSingle("");
    NonBlankSingle("aspirin");
    NonBlankSingle("  ");
    assert ["", "aspirin", "  "] == [""] + ["aspirin"] + ["  "];
    NonBlankAppend([""] + ["aspirin"], ["  "]);
    NonBlankAppend([""], ["aspirin"]);
    assert Trim("") == "";
    assert TrimLeft("  ") == "";
    assert Trim("  ") == "";
    assert IsTrimmed("aspirin");
    TrimOfTrimmed("aspirin");
  }

  /** How many matches each name asks RxNav for. */
  const TopMatches := 3
  const NoMatches := "No matches found"
  const RxNormNote := "Excel-like data structure for RxNorm matches"
  const EligibilityNote := "Excel-like data structure for 340B eligibility"

  /** One result row of `generate_rxnorm_excel`. */
  datatype RxNormRow = RxNormRow(originalName: string, foundName: string, rxcui: string, score: string, error: string)

  datatype RxNormReport = RxNormReport(success: bool, results: seq<RxNormRow>, totalProcessed: nat, note: string)

  /** The row for one non-blank name: the upstream error, "No matches
      found", or the first (best ranked) candidate. */
  function RxNormRowFor(svc: Service, name: string): (row: RxNormRow)
    ensures row.originalName == name
    ensures var answer := svc.approximateTerm(Trim(name), TopMatches);
            && (answer.Err? ==> row == RxNormRow(name, "", "", "", answer.error))
            && (answer.Ok? && |answer.value| == 0 ==> row == RxNormRow(name, "", "", "", NoMatches))
            && (answer.Ok? && |answer.value| > 0 ==>
                  row == RxNormRow(name, answer.value[0].name, answer.value[0].rxcui, answer.value[0].score, ""))
  {
    match FindApproximateMatch(svc, name, TopMatches)
    case Err(e) => RxNormRow(name, "", "", "", e)
    case Ok(m) =>
      if |m.matches| > 0 then
        var best := m.matches[0];
        RxNormRow(name, best.name, best.rxcui, best.score, "")
      else
        RxNormRow(name, "", "", "", NoMatches)
  }

  /** `generateRxNormExcel`: one row per non-blank name, in input order;
      the processed count is the length of the input, blanks included. */
  method GenerateRxNormExcel(svc: Service, drugNames: seq<string>) returns (report: RxNormReport)
    ensures report.success && report.note == RxNormNote
    ensures report.totalProcessed == |drugNames|
    ensures |report.results| == |NonBlank(drugNames)|
    ensures forall j :: 0 <= j < |report.results| ==>
              report.results[j] == RxNormRowFor(svc, NonBlank(drugNames)[j])
  {
    var results: seq<RxNormRow> := [];
    var i := 0;
    while i < |drugNames|
      invariant 0 <= i <= |drugNames|
      invariant |results| == |NonBlank(drugNames[..i])|
      invariant forall j :: 0 <= j < |results| ==> results[j] == RxNormRowFor(svc, NonBlank(drugNames[..i])[j])
    {
      NonBlankStep(drugNames, i);
      var name := Trim(drugNames[i]);
      if name != "" {
        results := results + [RxNormRowFor(svc, name)];
      }
      i := i + 1;
    }
    assert drugNames[..i] == drugNames;
    report := RxNormReport(true, results, |drugNames|, RxNormNote);
  }

  /** One result row of `is_340b_excel`. */
  datatype EligibilityRow = EligibilityRow(ndc: string, is340B: bool, drugName: string, manufacturer: string, error: string)

  datatype EligibilityReport = EligibilityReport(
    success: bool, results: seq<EligibilityRow>, totalProcessed: nat, cacheInfo: string, note: string)

  /** The row for one non-blank code. The error branch of the source is
      kept, but `check340BEligibility` with only an NDC cannot fail, so the
      row is never an error; it is eligible iff that exact code is, and
      only then carries the drug name and manufacturer of that code's record. */
  function EligibilityRowFor(t: Table, svc: Service, code: string): (row: EligibilityRow)
    ensures row.ndc == code && row.error == ""
    ensures row.is340B <==> code != "" && IsEligible(t, code)
    ensures row.is340B ==> row.drugName == t[code].drugName && row.manufacturer == t[code].manufacturer
    ensures !row.is340B ==> row.drugName == "" && row.manufacturer == ""
  {
    NdcOnly(t, svc, svc, code);
    match Check340BEligibility(t, svc, code, "", "")
    case Err(e) => EligibilityRow(code, false, "", "", e)
    case Ok(answer) =>
      if answer.is340B then
        match Lookup(t, code)
        case Some(record) => EligibilityRow(code, true, record.drugName, record.manufacturer, "")
        case None => EligibilityRow(code, true, "", "", "")
      else
        EligibilityRow(code, false, "", "", "")
  }

  /** `generate340BExcel`: one row per non-blank code, in input order; each
      row's eligibility is that of its exact trimmed code; the processed
      count is the length of the input, blanks included. */
  method Generate340BExcel(t: Table, svc: Service, ndcCodes: seq<string>) returns (report: EligibilityReport)
    ensures report.success && report.cacheInfo == CacheInfo && report.note == EligibilityNote
    ensures report.totalProcessed == |ndcCodes|
    ensures |report.results| == |NonBlank(ndcCodes)|
    ensures forall j :: 0 <= j < |report.results| ==>
              report.results[j] == EligibilityRowFor(t, svc, NonBlank(ndcCodes)[j])
    ensures forall j :: 0 <= j < |report.results| ==>
              && report.results[j].ndc == NonBlank(ndcCodes)[j]
              && report.results[j].error == ""
              && (report.results[j].is340B <==> IsEligible(t, NonBlank(ndcCodes)[j]))
  {
    var results: seq<EligibilityRow> := [];
    var i := 0;
    while i < |ndcCodes|
      invariant 0 <= i <= |ndcCodes|
      invariant |results| == |NonBlank(ndcCodes[..i])|
      invariant forall j :: 0 <= j < |results| ==> results[j] == EligibilityRowFor(t, svc, NonBlank(ndcCodes[..i])[j])
    {
      NonBlankStep(ndcCodes, i);
      var code := Trim(ndcCodes[i]);
      if code != "" {
        results := results + [EligibilityRowFor(t, svc, code)];
      }
      i := i + 1;
    }
    assert ndcCodes[..i] == ndcCodes;
    forall j | 0 <= j < |results|
      ensures && results[j].ndc == NonBlank(ndcCodes)[j]
              && results[j].error == ""
              && (results[j].is340B <==> IsEligible(t, NonBlank(ndcCodes)[j]))
    {
      assert results[j] == EligibilityRowFor(t, svc, NonBlank(ndcCodes)[j]);
    }
    report := EligibilityReport(true, results, |ndcCodes|, CacheInfo, EligibilityNote);
  }
}
