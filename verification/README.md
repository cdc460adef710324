# Budget organisation-name reconciliation, modelled in Dafny

This project models the matching engine of `check_budget_oid.py`. The engine reconciles
organisation names in government budget tables against a directory of canonical
organisation names. Each table row is classified as an exact match (MATCH), a partial match
with scored candidates (PARTIAL), or a miss (MISS).

- `results.dfy` (`Results`): `Option` and `Result` wrappers.
- `substrings.dfy` (`Substrings`): Python's `p in s` on strings. `Contains` is an executable scan. It is proved equal to the reference definition `IsSubstring`, "p occurs at some offset of s".
- `matchers.dfy` (`Matchers`):
  - the status labels;
  - the match result, a three-way tagged datatype;
  - the matcher, a closed datatype over the exact and partial strategies, each holding a `set<string>` of registered names;
  - registration, the two strategies, the offset rule, the candidate map, and the candidate loop as the source runs it.
- `budget.dfy` (`Budget`): `get_budget` and the per-table pipeline `check_budget_org`.
  - An opened table is an `Option<seq<seq<string>>>`. `None` is `get_budget_fp` returning `None`: the local open failed with no URL to fall back on, the server answered with an HTTP error, or neither a file nor a URL is configured.
  - The result is a `Result`. A row missing a configured column stops the table with a `RowShapeError` that names the line and the column.
- `ranking.dfy` (`Ranking`): `get_sort_ratio_candidates`, an insertion sort by descending score.

The similarity ratio of the sequence matcher is a parameter of type `Ratio`. It stands for any function `(string, string) -> real` whose values lie in [0, 1]. Every property below holds for every such function.

In the source, `get_budget` asserts `0 <= column_id < len(row)`. The model makes that assertion an error value, never a default value. An assertion failure in Python propagates out of `check_budget_org`. The model therefore reports the failure for the whole table rather than for the single row.

## Model

| member | source | states |
|---|---|---|
| `Matchers.LabelsDistinct` | check_budget_oid/check_budget_oid.py:86-89 | the three status labels MATCH, PARTIAL and MISS are pairwise distinct, so a status is recoverable from its label |
| `Matchers.Add` | check_budget_oid/check_budget_oid.py:104-105 | registering a name is set insertion: the registered set grows by exactly that name, and the strategy is kept |
| `Matchers.AddIdempotent` | check_budget_oid/check_budget_oid.py:118-119 | adding the same name twice gives the same matcher as adding it once |
| `Matchers.Register` | check_budget_oid/check_budget_oid.py:251-253 | registering a list of names one by one gives the old set plus exactly the listed names |
| `Matchers.RegisterOrderIrrelevant` | check_budget_oid/check_budget_oid.py:251-253 | two registration lists with the same elements give the same matcher, whatever their order or repetitions |
| `Matchers.ExactMatch` | check_budget_oid/check_budget_oid.py:107-111 | the exact strategy answers MATCH exactly when the name is registered, and MISS exactly when it is not |
| `Matchers.ExactNeverPartial` | check_budget_oid/check_budget_oid.py:107-111 | the exact strategy never answers PARTIAL |
| `Substrings.ContainsIsSubstring` | check_budget_oid/check_budget_oid.py:133-135 | the containment test used by the scan holds exactly when the first string occurs at some offset of the second |
| `Matchers.Offset` | check_budget_oid/check_budget_oid.py:132-138 | the offset is 0 exactly when the query is contained in the name; it is -1 exactly when only the name is contained in the query; otherwise the name is skipped |
| `Matchers.Candidates` | check_budget_oid/check_budget_oid.py:130-140 | the candidate keys are exactly the registered names related to the query by containment in either direction; each score is the ratio, or the ratio minus 1 when the query is not contained in the name; every score lies in [-1, 1] |
| `Matchers.PartialMatchOf` | check_budget_oid/check_budget_oid.py:121-148 | MATCH exactly when the name is registered; MISS exactly when it is not and no registered name is related to it; PARTIAL exactly otherwise, with a non-empty map whose keys are exactly the related names |
| `Matchers.PartialMatchScan` | check_budget_oid/check_budget_oid.py:121-148 | the source's loop over the registered set, building the map entry by entry, computes the same result as the reference definition |
| `Matchers.MatchWith` | check_budget_oid/check_budget_oid.py:202 | under either strategy, MATCH exactly when the name is registered; only the partial strategy gives PARTIAL, always with candidates; the status is PARTIAL exactly when the candidate map is non-empty |
| `Matchers.AddedNameMatches` | check_budget_oid/check_budget_oid.py:118-124 | after a name is added, matching that name gives MATCH with no candidates, under either strategy |
| `Matchers.PartialRefinesExact` | check_budget_oid/check_budget_oid.py:121-124 | over the same names, the two strategies agree on MATCH, and a partial-strategy MISS is also an exact-strategy MISS |
| `Matchers.CandidateDirection` | check_budget_oid/check_budget_oid.py:132-140 | no candidate has the query's length; a longer candidate contains the query and scores its ratio; a shorter one is contained in the query and scores its ratio minus 1 |
| `Matchers.EmptyQueryMatchesAll` | check_budget_oid/check_budget_oid.py:131-140 | an unregistered empty query is contained in every registered name, so every registered name is a candidate with offset 0, scoring its plain ratio |
| `Matchers.OffsetBias` | check_budget_oid/check_budget_oid.py:132-140 | take a name containing the query and a name the query contains, with equal ratios; the first scores exactly 1 more than the second |
| `Matchers.ContainingOutranksContained` | check_budget_oid/check_budget_oid.py:132-140 | a candidate longer than the query never scores below a candidate shorter than it |
| `Budget.GetBudget` | check_budget_oid/check_budget_oid.py:152-154 | a column is read exactly when it lies inside the row, and then it is that cell; otherwise the result is an error |
| `Budget.CheckRows` | check_budget_oid/check_budget_oid.py:195-213 | success exactly when every non-skipped row has both columns. Records then follow the non-skipped indices in order, each holding its row, its line, its two cells, and the matcher's status and candidates for its name. A failure names the first non-skipped row lacking a column, and the name column when that one is missing |
| `Budget.CheckBudgetOrg` | check_budget_oid/check_budget_oid.py:186-213 | a table for which `get_budget_fp` returned `None` (local open failed with no URL, an HTTP error, or neither a file nor a URL configured) yields no records; for an open table, every record describes its row, and a failure names the first bad row |
| `Budget.KeptLinesMembers` | check_budget_oid/check_budget_oid.py:196-198 | a line is reported exactly when it is inside the table and not in the skip list |
| `Budget.KeptLinesIncreasing` | check_budget_oid/check_budget_oid.py:196-198 | reported lines strictly increase |
| `Budget.KeptLinesCount` | check_budget_oid/check_budget_oid.py:196-198 | the number of reported lines equals the number of rows minus the number of distinct skip indices inside the table |
| `Budget.ReportShape` | check_budget_oid/check_budget_oid.py:196-211 | for an open table: the record count is the row count minus the skip indices in range; lines strictly increase; each non-skipped index has a record with that line, and no other index has one |
| `Budget.CandidatesOnlyWhenPartial` | check_budget_oid/check_budget_oid.py:209-210 | a record carries candidates exactly when its status is PARTIAL, and with the exact strategy no record is PARTIAL |
| `Ranking.InsertByScoreSorted` | check_budget_oid/check_budget_oid.py:217 | inserting a name into a list sorted by descending score keeps it sorted |
| `Ranking.RankCandidates` | check_budget_oid/check_budget_oid.py:216-217 | the output is a permutation of the candidate names, with scores non-increasing along it |
| `Ranking.PermutationOfKeys` | check_budget_oid/check_budget_oid.py:216-217 | a permutation of the candidate names has their count, lists every name, and lists none twice |

## Left out

- The sequence matcher's similarity ratio is not modelled. It is the parameter `Ratio`, a function bounded to [0, 1]. Its longest-matching-block computation and its junk heuristics are library code.
- Scores are real numbers, not binary floating point. The rounding of `offset + ratio` is not modelled.
- Opening a table from a local file or a URL (`get_budget_fp`, lines 157-176) is not modelled. Its console output is not modelled either. Both are replaced by the optional row sequence.
- CSV parsing and UTF-8 decoding (`unicode_csv_reader`, lines 179-183) are not modelled. They are library code; rows arrive already decoded.
- The console report (`show_check_result`, lines 220-244) is left out. This includes its byte encoding and the float truncation `int(score * 100.0)`.
- `main` is left out, apart from its registration loop, which `Matchers.Register` models. So are the table configuration `BUDGET_CSV`, `OID_TREE_JSON` and the `oid_org_map` module. `oid_org_map` is not part of this model.
- The abstract `IMatcher` class, which raises `NotImplementedError`, is left out. So is the `isinstance` assertion at line 187. The closed `Matcher` datatype has no unimplemented case.
- Budget.CheckBudgetOrg: a row missing a column ends the table with an error value. In the source, the assertion error also ends the whole run.
- Other failures to open a URL (a plain `URLError` such as a DNS failure or a refused connection, or a socket timeout) are not caught at line 171. They raise out of `check_budget_org` and end the run. The model does not represent them.
- `RowShapeError` records the line and the column, which is this model's own addition. The source's bare `assert` at line 153 raises an `AssertionError` with no message and reports neither.
- Python's negative indexing does not arise, because the bounds assertion in `get_budget` excludes negative columns.
- `get_show_data.py` and `parser.py` are not modelled. They are network, scraping and file-output glue with no matching logic.
