# 340B drug-eligibility server — Dafny model of the eligibility core

This project models the logic of the 340B MCP server's `cmd/server/drugs.go`:

- building the NDC eligibility table from the rows of the downloaded 340B spreadsheet
  (`downloadAndProcessNDCs`, `getCellValue`, `getCellValueByIndex`);
- the process-wide NDC cache, replaced whole on a successful load and read by point
  lookup (`ndcCache`, `getNDCFromCache`);
- the eligibility check (`check340BEligibility` with the branch choice of
  `getRelatedNDCs`): an ordered list of codes to check is built from the inputs and the
  RxNav answer, then filtered against the cache;
- `findApproximateMatch` and the `max_entries` default of its handler, and the
  "Missing input" guard of the identifier-taking handlers;
- the two batch tools `generateRxNormExcel` and `generate340BExcel`.

The RxNav web service is an `Upstream.Service` value whose fields are total functions
returning `Result`: a run of the model is correct for every service whose answer depends
only on the request. A spreadsheet is a `Records.Sheet`, a sequence of rows where `None` is a row that
could not be read and a row is the raw text of its cells by column.

Modules, in dependency order: `Wrappers` (Option, Result), `Text` (ASCII
`strings.TrimSpace`/`strings.ToLower`), `Records` (the record and cell reading), `Ingest`
(rows to table), `Cache` (lookup, refresh, the mutable holder), `Upstream` (service oracles,
`getRelatedNDCs`, `findApproximateMatch`), `Eligibility` (`check340BEligibility`), `Tools`
(handler guards), `Batch` (the two batch loops).

Behaviour a reader might not expect, which the model keeps as the code has it:

- With only `ndc` given, `check340BEligibility` performs no related-NDC lookup; it checks that
  one code (cmd/server/drugs.go:368-372).
- When `rxcui` or `name` is given together with `ndc`, the input `ndc` is still checked first,
  before the codes of the lookup (cmd/server/drugs.go:368-370).
- `total_processed` is the length of the input list, blank entries included
  (cmd/server/drugs.go:578, 631).
- `max_entries` replaces only 0 by 1; a negative value is passed to RxNav unchanged
  (cmd/server/drugs.go:197-200); the tool only documents the default of 1
  (cmd/server/drugs.go:187).
- The name path contributes no candidates: its raw search body is reported but no codes are
  extracted from it (cmd/server/drugs.go:311, 380-390).

## Model

| member | source | states |
|---|---|---|
| Text.Trim | cmd/server/drugs.go:516 | the trimmed text has no white space at either end and is no longer than the input |
| Text.ToLower | cmd/server/drugs.go:496 | lower-casing keeps the length and folds each character on its own (ASCII letters only) |
| Text.TrimIsInfix | cmd/server/drugs.go:516 | the trimmed text is a contiguous part of the input and everything removed on either side is white space |
| Text.TrimOfPadded | cmd/server/drugs.go:516 | trimming is exact: a trimmed string padded with white space on both sides trims back to itself |
| Text.TrimIdempotent | cmd/server/drugs.go:411 | trimming an already trimmed name again (as `findApproximateMatch` does with batch names) changes nothing |
| Text.TrimEmptyIffAllSpace | cmd/server/drugs.go:536-539 | an entry is blank after trimming exactly when it consists of white space only |
| Records.CellValue | cmd/server/drugs.go:512-517 | a missing cell reads as the empty string and every value read is trimmed |
| Records.PresentCellValue | cmd/server/drugs.go:512-517 | a present cell reads as empty exactly when its text is all white space, and text without surrounding space is read unchanged |
| Records.CellValueByIndex | cmd/server/drugs.go:519-522 | a column beyond the row's cells reads as the empty string; every read value is trimmed |
| Records.RecordOfRow | cmd/server/drugs.go:479-497 | every text field of the record is trimmed, the code is column 0, and `Is340B` follows the marker in column 7 |
| Records.LowerIsTrueIffFold | cmd/server/drugs.go:496 | lower-casing gives "true" exactly for the letter-case variants of "true" |
| Records.MarkerSemantics | cmd/server/drugs.go:496 | a record is eligible iff its marker cell exists and its trimmed text is "true" in any letter case or exactly "1"; a missing or empty marker is not eligible |
| Ingest.AddRow | cmd/server/drugs.go:488-501 | a row without a readable non-empty code leaves the table as it was; otherwise the table maps that code to the row's record and is unchanged elsewhere |
| Ingest.BuildTable | cmd/server/drugs.go:469-502 | the table built from a sheet is well formed: no empty key, each key holds the record with that code, all fields trimmed |
| Ingest.TableUpTo | cmd/server/drugs.go:469-502 | at every point of the row loop, no key is empty, every key holds the record whose code is that key, and all its fields are trimmed |
| Ingest.TableUpToKeys | cmd/server/drugs.go:472-501 | after any prefix of the rows, the keys are exactly the non-empty codes of the readable data rows of that prefix |
| Ingest.TableUpToLast | cmd/server/drugs.go:499-501 | after any prefix of the rows, each key holds the record of the last row of that prefix carrying it |
| Ingest.TableKeys | cmd/server/drugs.go:471-501 | the table's key set is the set of non-empty codes among readable rows other than the header |
| Ingest.LastRowWins | cmd/server/drugs.go:499-501 | when several rows share a code, the table keeps the record of the last one |
| Ingest.EntriesFromLastRows | cmd/server/drugs.go:499-501 | every table entry is the record of some row that is the last one carrying its code |
| Ingest.AgreeingRowsSameTable | cmd/server/drugs.go:472-502 | the table depends only on the data rows: sheets that agree on them build the same table |
| Ingest.HeaderIgnored | cmd/server/drugs.go:471-472 | whatever the header row holds, the table is the same |
| Ingest.NonContributingRowIgnored | cmd/server/drugs.go:473-501 | an unreadable row, or one whose code is empty, leaves the table unchanged |
| Ingest.LoadTable | cmd/server/drugs.go:447-468 | download and open failures pass through, a workbook without sheets is the "no sheets" error, and otherwise the first sheet is built into a well-formed table |
| Ingest.LoadedKeys | cmd/server/drugs.go:465-501 | a successful load keeps exactly the codes of the first sheet's data rows; other sheets are never read |
| Cache.Lookup | cmd/server/drugs.go:524-530 | a lookup finds a record exactly when the code is a key, and then it is that key's record |
| Cache.NdcCache.Get | cmd/server/drugs.go:524-530 | a lookup through the cache object finds a record exactly when the current table has the code, and then it is that code's record, carrying that code and trimmed fields |
| Cache.NdcCache.Init | cmd/server/drugs.go:439-509 | a load attempt reports no error exactly when the load succeeds, then holds the loaded table; on failure it keeps the previous table and reports the load's error; the held table stays well formed |
| Cache.Refresh | cmd/server/drugs.go:504-509 | a failed load keeps the current table; a successful one replaces it whole: every lookup answers from the new table, no old entry survives, and the reported count is the table size |
| Cache.RefreshForgetsOldTable | cmd/server/drugs.go:504-506 | after a successful load, lookups do not depend on what the cache held before |
| Cache.LookupAfterRefresh | cmd/server/drugs.go:499-506 | after loading a sheet, a code is found iff some data row carries it, and it finds the record of the last such row |
| Upstream.GetRelatedNdcs | cmd/server/drugs.go:278-333 | exactly one endpoint is consulted, chosen by the first non-empty of `rxcui`, `name`, `ndc`; its failure is the call's failure; with all three empty nothing is consulted |
| Upstream.FindApproximateMatch | cmd/server/drugs.go:410-437 | RxNav is asked with the trimmed term; the answer echoes the term as given and RxNav's candidates unchanged and in order |
| Upstream.SameTrimSameMatches | cmd/server/drugs.go:411 | two terms that trim alike get the same candidates |
| Eligibility.Candidates | cmd/server/drugs.go:366-391 | the list to check starts with the input `ndc` when it is non-empty and ends with the codes of the lookup, in the service's order |
| Eligibility.EligibleRecords | cmd/server/drugs.go:393-401 | the matched records are eligible cache records of candidates, and there is one iff some candidate is eligible |
| Eligibility.EligibleRecordsAppend | cmd/server/drugs.go:394-401 | matched records follow candidate order: the records of a concatenated list are those of its parts, in order |
| Eligibility.EligibleRecordsRepeat | cmd/server/drugs.go:394-397 | a candidate listed twice contributes its record twice |
| Eligibility.Decide | cmd/server/drugs.go:393-405 | `is_340b` is true iff some candidate is eligible, and `eligible_ndcs` is present exactly then and holds the matched records |
| Eligibility.Check340BEligibility | cmd/server/drugs.go:360-408 | the lookup runs only when `rxcui` or `name` is given and its failure is the only failure; the answer is the eligibility of the candidate list |
| Eligibility.NdcOnly | cmd/server/drugs.go:368-372 | with only `ndc` given no lookup runs, nothing fails, the service is irrelevant, and the answer is whether that one code is eligible |
| Eligibility.RelatedNdcsBranchDead | cmd/server/drugs.go:372-390 | inside the `rxcui`/`name` guard the lookup never takes its `ndc` branch, so the "related_ndcs" extraction never runs |
| Eligibility.RelatedCodes | cmd/server/drugs.go:380-390 | the candidate codes of a related-NDC answer: the code lists of the rxcui and NDC lookups, and none from the name search or when no lookup ran |
| Eligibility.NamePathAddsNothing | cmd/server/drugs.go:380-390 | on the name path the eligibility and the matched records depend on the input `ndc` alone and equal those of the `ndc`-only call |
| Eligibility.RxcuiPath | cmd/server/drugs.go:380-384 | on the rxcui path the answer is eligible iff the input `ndc` or a listed code is, and the matched records are the input code's followed by the listed codes' |
| Eligibility.NoCandidatesNotEligible | cmd/server/drugs.go:393-407 | an empty candidate list is no error, not eligible, and has no `eligible_ndcs` |
| Tools.RelatedNdcsTool | cmd/server/drugs.go:96-112 | with no identifier the handler refuses with "Missing input"; otherwise a successful answer always holds one of the three keys |
| Tools.CheckEligibilityTool | cmd/server/drugs.go:158-174 | with no identifier the handler refuses with "Missing input"; otherwise it answers as `check340BEligibility` |
| Tools.MissingInputReachesNothing | cmd/server/drugs.go:163-165 | the "Missing input" answer depends neither on the cache nor on the service |
| Tools.MaxEntries | cmd/server/drugs.go:197-200 | absent or zero `max_entries` becomes 1, any other value is kept, and the result is never 0 |
| Tools.ApproximateMatchTool | cmd/server/drugs.go:191-209 | the handler asks for the given number of entries, or for 1 when it is absent or zero |
| Tools.ZeroEntriesMeansOne | cmd/server/drugs.go:197-202 | `max_entries` 0 and absent behave exactly like 1 |
| Batch.NonBlank | cmd/server/drugs.go:535-539 | the entries a batch acts on are trimmed, non-empty, and no more than the inputs |
| Batch.NonBlankAppend | cmd/server/drugs.go:535-539 | entries keep input order: those of a concatenated input are those of its parts, in order |
| Batch.BlankEntriesSkipped | cmd/server/drugs.go:535-539 | `["", "aspirin", "  "]` yields the single entry "aspirin" |
| Batch.RxNormRowFor | cmd/server/drugs.go:541-572 | a name's row carries the upstream error, or "No matches found" for no candidates, or the fields of the first candidate |
| Batch.GenerateRxNormExcel | cmd/server/drugs.go:532-581 | one row per non-blank name in input order, each that name's row; `total_processed` is the input length, blanks included |
| Batch.EligibilityRowFor | cmd/server/drugs.go:592-625 | a code's row is never an error, is eligible iff that exact code is, and only then carries the drug name and manufacturer of that code's record |
| Batch.Generate340BExcel | cmd/server/drugs.go:583-634 | one row per non-blank code in input order, eligible iff that code is, never an error; `total_processed` is the input length, blanks included |

## Left out

- Upstream.Service: an identical request is assumed to get an identical answer within one
  run, so a call that fails (for example by timing out) where an identical earlier call
  succeeded is not represented; in the batch tools, repeated identical entries always get
  identical rows.
- HTTP downloads and RxNav calls, reading response bodies, JSON decoding and URL escaping:
  foreign I/O, modelled as the fields of `Upstream.Service` and as the `Result` a load
  receives; their error texts (including the "failed to download/read/open" wrappers) are
  opaque strings.
- xlsx decoding (`xlsx.OpenBinary`, `sheet.Row`, `cell.String()`): a sheet is given as
  rows of raw cell text, with `None` for a row that could not be read.
- `sync.RWMutex` locking: each cache operation is one atomic step. `generate340BExcel`
  reads the cache twice per code under separate locks; the model reads one snapshot.
- `getRxInfo` and the `get_rx_info` tool, tool registration, `json.MarshalIndent` result
  shaping and the JSON-array argument parsing of the batch handlers (with their "Invalid
  JSON format" errors) and the "term is required" error of the approximate-match handler
  (cmd/server/drugs.go:192-195): pass-through glue. Results are typed records with the source's field names.
- `cmd/server/main.go` (startup, exit, signals, HTTP/stdio transport, CORS and health
  endpoints) and the no-op `StopNDCCache`: transport plumbing.
- The stderr log line of a successful load; its count is the `status` of `Cache.Refresh`.
- Text.Trim: strips ASCII white space only; Go's `strings.TrimSpace` also strips Unicode
  spaces such as U+0085 and U+00A0.
- Records.MarkerSemantics: letter case is folded for ASCII only, as `Text.LowerChar` does;
  `strings.ToLower` folds all of Unicode.
- Tools.MaxEntries: takes an integer; the handler reads a float and truncates it with
  `int()`, which is not modelled.
- `Cache.NdcCache`: the read/write mutex around the table is not modelled; each method is
  one atomic step.
