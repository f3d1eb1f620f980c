/** `check340BEligibility`: building the list of codes to check from the
    inputs and the related-NDC lookup, then filtering it against the cache. */
module Eligibility {
  import opened Wrappers
  import opened Records
  import opened Cache
  import opened Upstream

  /** The constant `cache_info` every eligibility answer carries. */
  const CacheInfo := "Loaded on startup"

  /** One eligibility answer. `relatedNdcs` is present iff the related-NDC
      lookup ran; `eligibleNdcs` is present iff some record matched. */
  datatype EligibilityResult = EligibilityResult(
    is340B: bool,
    cacheInfo: string,
    relatedNdcs: Option<Related>,
    eligibleNdcs: Option<seq<NDCRecord>>)

  /** The codes extracted from a related-NDC answer: the "ndcs" list or
      the "related_ndcs" list; the raw name search yields none. */
  function RelatedCodes(related: Related): (codes: seq<string>)
    ensures related.RxcuiSearch? || related.NoLookup? ==> codes == []
    ensures related.Ndcs? ==> codes == related.ndcs
    ensures related.RelatedNdcs? ==> codes == related.relatedNdcs
  {
    match related
    case Ndcs(list) => list
    case RelatedNdcs(list) => list
    case RxcuiSearch(_) => []
    case NoLookup => []
  }

  /** `ndcsToCheck`: the input `ndc` first when it is non-empty, then the
      codes of the related-NDC answer, in the order the service gave them. */
  function Candidates(ndc: string, related: Option<Related>): (c: seq<string>)
    ensures ndc != "" ==> |c| > 0 && c[0] == ndc
    ensures related.None? ==> c == (if ndc == "" then [] else [ndc])
    ensures related.Some? ==> |c| == (if ndc != "" then 1 else 0) + |RelatedCodes(related.value)|
                              && c[|c| - |RelatedCodes(related.value)|..] == RelatedCodes(related.value)
  {
    (if ndc != "" then [ndc] else []) + (if related.Some? then RelatedCodes(related.value) else [])
  }

  /** The cache records of the eligible candidates, in candidate order and
      with repeats kept. */
  function EligibleRecords(t: Table, candidates: seq<string>): (r: seq<NDCRecord>)
    ensures |r| <= |candidates|
    ensures |r| > 0 <==> exists i :: 0 <= i < |candidates| && IsEligible(t, candidates[i])
    ensures forall m :: 0 <= m < |r| ==> r[m].is340B && exists i :: 0 <= i < |candidates| && IsEligible(t, candidates[i]) && r[m] == t[candidates[i]]
  {
    if |candidates| == 0 then []
    else
      var rest := EligibleRecords(t, candidates[1..]);
      var head := candidates[0];
      if IsEligible(t, head) then
        [t[head]] + rest
      else
        assert forall i :: 1 <= i < |candidates| ==> candidates[i] == candidates[1..][i - 1];
        rest
  }

  /** Filtering distributes over concatenation: the records of a longer
      candidate list are those of its parts, in order. */
  lemma {:induction false} EligibleRecordsAppend(t: Table, a: seq<string>, b: seq<string>)
    ensures EligibleRecords(t, a + b) == EligibleRecords(t, a) + EligibleRecords(t, b)
    decreases |a|
  {
    if |a| == 0 {
      assert a + b == b;
    } else {
      assert (a + b)[1..] == a[1..] + b;
      EligibleRecordsAppend(t, a[1..], b);
    }
  }

  /** A single candidate contributes its record iff that record is
      eligible; so a candidate listed twice contributes twice. */
  lemma EligibleRecordsRepeat(t: Table, code: string)
    requires IsEligible(t, code)
    ensures EligibleRecords(t, [code, code]) == [t[code], t[code]]
  {
    assert [code, code][1..] == [code];
  }

  /** The answer for a fixed candidate list. */
  function Decide(t: Table, related: Option<Related>, candidates: seq<string>): (r: EligibilityResult)
    ensures r.is340B <==> exists i :: 0 <= i < |candidates| && IsEligible(t, candidates[i])
    ensures r.eligibleNdcs.Some? <==> r.is340B
    ensures r.eligibleNdcs.Some? ==> r.eligibleNdcs.value == EligibleRecords(t, candidates)
    ensures r.relatedNdcs == related && r.cacheInfo == CacheInfo
  {
    var records := EligibleRecords(t, candidates);
    EligibilityResult(
      is340B := |records| > 0,
      cacheInfo := CacheInfo,
      relatedNdcs := related,
      eligibleNdcs := if |records| > 0 then Some(records) else None)
  }

  /** `check340BEligibility`. The related-NDC lookup runs only when `rxcui`
      or `name` is given, and its failure is the only possible failure. */
  function Check340BEligibility(t: Table, svc: Service, ndc: string, rxcui: string, name: string): (r: Result<EligibilityResult>)
    ensures r.Err? <==> (rxcui != "" || name != "") && GetRelatedNdcs(svc, ndc, rxcui, name).Err?
    ensures r.Err? ==> r.error == GetRelatedNdcs(svc, ndc, rxcui, name).error
    ensures r.Ok? ==> (r.value.relatedNdcs.Some? <==> rxcui != "" || name != "")
    ensures r.Ok? && r.value.relatedNdcs.Some? ==> Ok(r.value.relatedNdcs.value) == GetRelatedNdcs(svc, ndc, rxcui, name)
    ensures r.Ok? ==> r.value == Decide(t, r.value.relatedNdcs, Candidates(ndc, r.value.relatedNdcs))
  {
    if rxcui != "" || name != "" then
      match GetRelatedNdcs(svc, ndc, rxcui, name)
      case Err(e) => Err(e)
      case Ok(related) => Ok(Decide(t, Some(related), Candidates(ndc, Some(related))))
    else
      Ok(Decide(t, None, Candidates(ndc, None)))
  }

  /** With only `ndc` given no lookup runs, nothing can fail, and the
      answer is whether that one code is eligible; the service is never
      consulted, so any two services give the same answer. */
  lemma NdcOnly(t: Table, svc1: Service, svc2: Service, ndc: string)
    ensures Check340BEligibility(t, svc1, ndc, "", "") == Check340BEligibility(t, svc2, ndc, "", "")
    ensures var r := Check340BEligibility(t, svc1, ndc, "", "");
            && r.Ok? && r.value.relatedNdcs.None?
            && (r.value.is340B <==> ndc != "" && IsEligible(t, ndc))
            && (r.value.is340B ==> r.value.eligibleNdcs == Some([t[ndc]]))
  {
    var r := Check340BEligibility(t, svc1, ndc, "", "");
    if ndc != "" {
      assert Candidates(ndc, None) == [ndc];
      assert [ndc][1..] == [];
      assert EligibleRecords(t, [ndc][1..]) == [];
      if IsEligible(t, ndc) {
        assert EligibleRecords(t, [ndc]) == [t[ndc]];
      }
    }
  }

  /** The "related_ndcs" extraction is dead: whenever the lookup runs,
      `rxcui` or `name` is non-empty, so `getRelatedNDCs` never takes its
      `ndc` branch. */
  lemma RelatedNdcsBranchDead(t: Table, svc: Service, ndc: string, rxcui: string, name: string)
    requires rxcui != "" || name != ""
    ensures GetRelatedNdcs(svc, ndc, rxcui, name).Ok? ==> !GetRelatedNdcs(svc, ndc, rxcui, name).value.RelatedNdcs?
    ensures var r := Check340BEligibility(t, svc, ndc, rxcui, name);
            r.Ok? ==> !r.value.relatedNdcs.value.RelatedNdcs?
  {
  }

  /** The name path contributes no candidates: with `rxcui` empty, the
      eligibility and the matched records depend on the input `ndc` alone
      and equal those of the `ndc`-only call. */
  lemma NamePathAddsNothing(t: Table, svc: Service, ndc: string, name: string)
    requires name != ""
    ensures var r := Check340BEligibility(t, svc, ndc, "", name);
            r.Ok? ==> (r.value.is340B <==> ndc != "" && IsEligible(t, ndc))
    ensures var r := Check340BEligibility(t, svc, ndc, "", name);
            r.Ok? ==> && r.value.is340B == Check340BEligibility(t, svc, ndc, "", "").value.is340B
                      && r.value.eligibleNdcs == Check340BEligibility(t, svc, ndc, "", "").value.eligibleNdcs
  {
    NdcOnly(t, svc, svc, ndc);
    var r := Check340BEligibility(t, svc, ndc, "", name);
    if r.Ok? {
      var related := r.value.relatedNdcs.value;
      assert RelatedCodes(related) == [];
      assert Candidates(ndc, Some(related)) == (if ndc != "" then [ndc] else []);
      assert Candidates(ndc, r.value.relatedNdcs) == Candidates(ndc, None);
    }
  }

  /** The rxcui path: the answer is eligible iff the input `ndc` or one of
      the codes listed for the concept is eligible, and the matched records
      are the input code's (if eligible) followed by those of the listed
      codes in order. */
  lemma RxcuiPath(t: Table, svc: Service, ndc: string, rxcui: string, name: string)
    requires rxcui != "" && svc.ndcsForRxcui(rxcui).Ok?
    ensures var r := Check340BEligibility(t, svc, ndc, rxcui, name);
            var listed := svc.ndcsForRxcui(rxcui).value;
            && r.Ok?
            && (r.value.is340B <==> (ndc != "" && IsEligible(t, ndc)) || exists i :: 0 <= i < |listed| && IsEligible(t, listed[i]))
            && (r.value.is340B ==>
                  r.value.eligibleNdcs.value
                  == EligibleRecords(t, if ndc != "" then [ndc] else []) + EligibleRecords(t, listed))
  {
    var listed := svc.ndcsForRxcui(rxcui).value;
    var direct := if ndc != "" then [ndc] else [];
    var c := Candidates(ndc, Some(Ndcs(listed)));
    assert c == direct + listed;
    EligibleRecordsAppend(t, direct, listed);
    assert (exists i :: 0 <= i < |direct| && IsEligible(t, direct[i])) <==> ndc != "" && IsEligible(t, ndc) by {
      if ndc != "" {
        assert direct[0] == ndc;
      }
    }
  }

  /** An empty candidate list is never an error and never eligible. */
  lemma NoCandidatesNotEligible(t: Table, svc: Service, rxcui: string, name: string)
    requires rxcui != "" || name != ""
    requires GetRelatedNdcs(svc, "", rxcui, name).Ok?
    requires RelatedCodes(GetRelatedNdcs(svc, "", rxcui, name).value) == []
    ensures var r := Check340BEligibility(t, svc, "", rxcui, name);
            r.Ok? && !r.value.is340B && r.value.eligibleNdcs.None?
  {
    var r := Check340BEligibility(t, svc, "", rxcui, name);
    assert Candidates("", r.value.relatedNdcs) == [];
  }
}
