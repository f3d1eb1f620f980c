/** The RxNav calls the tools make, as abstract oracles, and the two
    operations built directly on them: `getRelatedNDCs` (which endpoint is
    consulted) and `findApproximateMatch`. */
module Upstream {
  import opened Wrappers
  import opened Text

  /** One approximate-match candidate, as RxNav ranks it. */
  datatype Candidate = Candidate(name: string, rxcui: string, score: string)

  /** The remote terminology service. Each field is one HTTP endpoint with
      its JSON decoding; `Err` stands for a transport, read or decoding
      failure and carries its message.
      - ndcsForRxcui: `rxcui/{id}/ndcs.json`, the `ndc11` codes of `ndcGroup.ndcList`
      - searchByName: `rxcui.json?name=..&search=2`, the raw response body
      - relatedByNdc: `relatedndc.json?relation=drug&ndc=..`, the `ndc11` codes of `ndcInfoList.ndcInfo`
      - approximateTerm: `approximateTerm.json?term=..&maxEntries=..`, the candidates in RxNav's order */
  datatype Service = Service(
    ndcsForRxcui: string -> Result<seq<string>>,
    searchByName: string -> Result<string>,
    relatedByNdc: string -> Result<seq<string>>,
    approximateTerm: (string, int) -> Result<seq<Candidate>>)

  /** The map `getRelatedNDCs` returns, by the one key it may hold:
      "ndcs", "rxcui_search", "related_ndcs", or none at all. */
  datatype Related =
    | Ndcs(ndcs: seq<string>)
    | RxcuiSearch(rxcuiSearch: string)
    | RelatedNdcs(relatedNdcs: seq<string>)
    | NoLookup

  /** `getRelatedNDCs`: exactly one endpoint is consulted, chosen by the
      first non-empty of `rxcui`, `name`, `ndc`; its failure is the call's
      failure; with all three empty nothing is consulted. */
  function GetRelatedNdcs(svc: Service, ndc: string, rxcui: string, name: string): (r: Result<Related>)
    ensures rxcui != "" ==>
              (r.Ok? <==> svc.ndcsForRxcui(rxcui).Ok?)
              && (r.Ok? ==> r.value == Ndcs(svc.ndcsForRxcui(rxcui).value))
              && (r.Err? ==> r.error == svc.ndcsForRxcui(rxcui).error)
    ensures rxcui == "" && name != "" ==>
              (r.Ok? <==> svc.searchByName(name).Ok?)
              && (r.Ok? ==> r.value == RxcuiSearch(svc.searchByName(name).value))
              && (r.Err? ==> r.error == svc.searchByName(name).error)
    ensures rxcui == "" && name == "" && ndc != "" ==>
              (r.Ok? <==> svc.relatedByNdc(ndc).Ok?)
              && (r.Ok? ==> r.value == RelatedNdcs(svc.relatedByNdc(ndc).value))
              && (r.Err? ==> r.error == svc.relatedByNdc(ndc).error)
    ensures rxcui == "" && name == "" && ndc == "" ==> r == Ok(NoLookup)
  {
    if rxcui != "" then
      match svc.ndcsForRxcui(rxcui)
      case Err(e) => Err(e)
      case Ok(list) => Ok(Ndcs(list))
    else if name != "" then
      match svc.searchByName(name)
      case Err(e) => Err(e)
      case Ok(body) => Ok(RxcuiSearch(body))
    else if ndc != "" then
      match svc.relatedByNdc(ndc)
      case Err(e) => Err(e)
      case Ok(list) => Ok(RelatedNdcs(list))
    else
      Ok(NoLookup)
  }

  /** The result of `findApproximateMatch`: the term as given (untrimmed)
      and the candidates RxNav returned. */
  datatype ApproxMatch = ApproxMatch(term: string, matches: seq<Candidate>, success: bool)

  /** `findApproximateMatch`: RxNav is queried with the trimmed term and
      the requested number of entries; the result echoes the term as
      given and the candidates unchanged and in RxNav's order. */
  function FindApproximateMatch(svc: Service, term: string, maxEntries: int): (r: Result<ApproxMatch>)
    ensures r.Ok? <==> svc.approximateTerm(Trim(term), maxEntries).Ok?
    ensures r.Ok? ==> r.value.term == term && r.value.success
                      && r.value.matches == svc.approximateTerm(Trim(term), maxEntries).value
    ensures r.Err? ==> r.error == svc.approximateTerm(Trim(term), maxEntries).error
  {
    match svc.approximateTerm(Trim(term), maxEntries)
    case Err(e) => Err(e)
    case Ok(candidates) => Ok(ApproxMatch(term, candidates, true))
  }

  /** Two terms that trim alike find the same candidates (white space
      around a term is irrelevant, see `Text.TrimOfPadded`); only the
      echoed term differs. */
  lemma SameTrimSameMatches(svc: Service, t1: string, t2: string, maxEntries: int)
    requires Trim(t1) == Trim(t2)
    ensures FindApproximateMatch(svc, t1, maxEntries).Ok? <==> FindApproximateMatch(svc, t2, maxEntries).Ok?
    ensures FindApproximateMatch(svc, t1, maxEntries).Ok? ==>
              FindApproximateMatch(svc, t1, maxEntries).value.matches
              == FindApproximateMatch(svc, t2, maxEntries).value.matches
  {
  }
}
