/** The argument checks the tool handlers make before calling the core:
    the all-inputs-empty guard and the `max_entries` default. */
module Tools {
  import opened Wrappers
  import opened Records
  import opened Upstream
  import opened Eligibility

  /** The error both identifier-taking tools return for empty input. */
  const MissingInput := "Missing input: provide ndc, rxcui, or name"

  /** None of the three identifiers was given. */
  predicate NoIdentifier(ndc: string, rxcui: string, name: string)
  {
    ndc == "" && rxcui == "" && name == ""
  }

  /** The `get_related_ndcs` handler: with no identifier it refuses without
      calling the service; otherwise exactly one lookup runs, so a
      successful answer always holds one of the three keys. */
  function RelatedNdcsTool(svc: Service, ndc: string, rxcui: string, name: string): (r: Result<Related>)
    ensures NoIdentifier(ndc, rxcui, name) ==> r == Err(MissingInput)
    ensures !NoIdentifier(ndc, rxcui, name) ==> r == GetRelatedNdcs(svc, ndc, rxcui, name)
    ensures r.Ok? ==> !r.value.NoLookup?
  {
    if NoIdentifier(ndc, rxcui, name) then Err(MissingInput) else GetRelatedNdcs(svc, ndc, rxcui, name)
  }

  /** The `check_340b_eligibility` handler: the same guard in front of
      `check340BEligibility`. */
  function CheckEligibilityTool(t: Table, svc: Service, ndc: string, rxcui: string, name: string): (r: Result<EligibilityResult>)
    ensures NoIdentifier(ndc, rxcui, name) ==> r == Err(MissingInput)
    ensures !NoIdentifier(ndc, rxcui, name) ==> r == Check340BEligibility(t, svc, ndc, rxcui, name)
  {
    if NoIdentifier(ndc, rxcui, name) then Err(MissingInput) else Check340BEligibility(t, svc, ndc, rxcui, name)
  }

  /** Without an identifier the answer does not depend on the table or the
      service: the core is never reached. */
  lemma MissingInputReachesNothing(t1: Table, t2: Table, svc1: Service, svc2: Service)
    ensures CheckEligibilityTool(t1, svc1, "", "", "") == CheckEligibilityTool(t2, svc2, "", "", "")
    ensures CheckEligibilityTool(t1, svc1, "", "", "").Err?
    ensures RelatedNdcsTool(svc1, "", "", "") == RelatedNdcsTool(svc2, "", "", "")
  {
  }

  /** The handler's `max_entries`: absent means 1 and 0 is replaced by 1;
      any other value, negative ones included, is passed on. */
  function MaxEntries(requested: Option<int>): (n: int)
    ensures requested.None? ==> n == 1
    ensures requested.Some? && requested.value == 0 ==> n == 1
    ensures requested.Some? && requested.value != 0 ==> n == requested.value
    ensures n != 0
  {
    match requested
    case None => 1
    case Some(v) => if v == 0 then 1 else v
  }

  /** The `find_approximate_drug_match` handler after argument parsing. */
  function ApproximateMatchTool(svc: Service, term: string, maxEntries: Option<int>): (r: Result<ApproxMatch>)
    ensures maxEntries.Some? && maxEntries.value != 0 ==> r == FindApproximateMatch(svc, term, maxEntries.value)
    ensures maxEntries.None? || maxEntries.value == 0 ==> r == FindApproximateMatch(svc, term, 1)
  {
    FindApproximateMatch(svc, term, MaxEntries(maxEntries))
  }

  /** Asking for zero entries behaves exactly like asking for one, or for
      none at all. */
  lemma ZeroEntriesMeansOne(svc: Service, term: string)
    ensures ApproximateMatchTool(svc, term, Some(0)) == ApproximateMatchTool(svc, term, Some(1))
    ensures ApproximateMatchTool(svc, term, None) == ApproximateMatchTool(svc, term, Some(1))
  {
  }
}
