# Migration reconciliation engine, modelled in Dafny

The repository checks a data migration of Medicare synthetic data (CMS
DE-SynPUF). Two snapshots of each dataset are compared: the legacy
`src_*` tables and the rebuilt `new_*` tables. There are two datasets,
the beneficiary summary and the carrier claims. Almost all of the logic
is DuckDB SQL embedded in `src/transform.py`. It does the following:

- builds the key union of both snapshots;
- writes a 0/1 defect matrix with a COALESCE-to-default equality;
- reports missing and extra beneficiaries with a death-year rule;
- classifies claim payments with a business rule;
- computes absolute financial deltas;
- turns the defect matrix into Six Sigma figures (DPMO and yield) per
  dataset, per column and per field family, each with a Pareto running
  share.

Smaller cores sit around the SQL:

- two anti-join reconcilers that use `IS DISTINCT FROM`
  (`scripts/column_profiler.py`, `src/compare.py`);
- the per-line payment views (`scripts/create_payment_views_duckdb.py`);
- the formula translator (`scripts/create_payment_views.py`);
- the schema registry (`src/models.py`);
- the Markdown-to-HTML report converter (`convert_report_to_html.py`).

The model states what the SQL means, not the SQL text.

- **Rows and NULLs.** A row is a map from column name to `Option<Value>`,
  and `None` is SQL NULL. A `Value` is text, an integer or a double. A
  double is a real or `NaN`, and DuckDB's ordering of NaN (equal to
  itself, above every number) is written out.
- **Three-valued logic.** It is explicit (module `Sql`): `CASE WHEN`
  takes NULL as false, `+` with a NULL operand gives NULL, `SUM` skips
  NULLs, and `IS DISTINCT FROM` is NULL-aware.
- **Tables.** A table is a sequence of rows, and a join is a function on
  sequences (modules `Table`, `Join`).

Both builds of the carrier audit table are modelled:

- the single statement, at `src/transform.py:491-951`;
- the column-group `UPDATE` path (`src/transform.py:1394-1940`).

The code runs the second build only when the first one fails. The claim
views and the orphan table are built on that failure path too, because of
how the `except` block at `src/transform.py:955-1940` is indented. The
model defines them whichever build ran.

Modules, following the program's structure:

| module | file | models |
|---|---|---|
| `Sql` | sql.dfy | SQL values, NULL, three-valued logic, `COALESCE`, `SUM`, double arithmetic |
| `Text` | text.dfy | `split`, `strip`, `find`, `replace`, case mapping, decimal rendering, text order |
| `Schema` | schema.dfy | the schema registry of `src/models.py` and the field-family rule |
| `Table` | table.dfy | key tuples, key joins, `DISTINCT`, the `KEYS` union, anti-joins |
| `Join` | join.dfy | `FULL OUTER`, `LEFT` and inner joins and `WHERE` |
| `Audit` | audit.dfy | the defect matrix: flag rule, single-statement build, alternative `UPDATE` build |
| `Beneficiaries` | bene.dfy | the death-year missing/extra rule and the attribute and date views |
| `Claims` | claims.dfy | claim mismatch view, business-rule view, orphan table |
| `Rules` | rules.dfy | the Valid / Denied business rule |
| `Group` | group.dfy | `GROUP BY` with `SUM` |
| `Pareto` | pareto.dfy | running share, the defect ordering and its sort, the tie-less variance ordering |
| `Quality` | quality.dfy | dataset, column and family DPMO and yield |
| `Payments` | payments.dfy | the 13-slot unpivot, pricing, year cast, per-(beneficiary, year) sums |
| `Financial` | financial.dfy | NaN/NULL coercion, deltas, the financial tables and difference views |
| `Impact` | impact.dfy | the per-metric field tables and the financial impact views |
| `Profiler` | profiler.dfy | `analyze_migration_full` and the global reporting views |
| `Compare` | compare.dfy | `compare_beneficiaries` and `compare_claims` |
| `Formula` | formula.dfy | `create_payment_views` |
| `Markdown` | markdown.dfy | `md_to_html`, `format_inline`, `format_regular_line` |

Where the repository's design description and its code disagree, the
model follows the code:

- **One-sided keys.** A key present on one side only is not flagged on
  every field. The flag rule compares against `''` or `0`, so only the
  fields whose present value differs from that default are flagged
  (`Audit.OneSidedFlag`).
- **Carrier opportunities.** They are `COUNT(*) * 102`, not units times
  the fields audited (see Findings).
- **Financial ranking.** It has no tie-break (`Pareto.VarianceTieIsAmbiguous`),
  and the window and the final `ORDER BY` sort independently, so tied
  families may be listed with falling running shares (`Pareto.ListedTieFalls`).
  Only the defect ranking breaks ties, on the field name.
- **Sigma level.** It uses a `POWER` approximation, not the inverse
  normal distribution, and it is left out.
- **Business rule.** It gates only the line-1 payment view, not the
  defect matrix.

## Model

| member | source | states |
|---|---|---|
| Sql.And3 | src/transform.py:1025-1026 | Kleene AND: TRUE only when both operands are, FALSE as soon as one is |
| Sql.Or3 | src/transform.py:1049-1053 | Kleene OR: TRUE as soon as one operand is, FALSE only when both are |
| Sql.Eq3 | src/transform.py:1045-1048 | `a = b` is NULL exactly when a side is NULL, and TRUE exactly for two equal values (NaN equal to NaN) |
| Sql.Neq3 | src/transform.py:1026 | `a <> b` is NULL exactly when a side is NULL, and TRUE exactly for two different values |
| Sql.IsDistinctFromIsNullAware | src/compare.py:56-58 | `IS DISTINCT FROM`: two NULLs are not distinct, NULL against a value is, and two values are distinct exactly when `<>` holds |
| Sql.Coalesce | src/transform.py:257 | `COALESCE(a, d)` is `a`'s value when present and `d` otherwise |
| Sql.Flag | src/transform.py:257 | `CASE WHEN c THEN 1 ELSE 0 END` is 1 exactly when `c` is TRUE (NULL counts as false) |
| Sql.Plus3 | src/transform.py:2710-2720 | integer `+` is NULL exactly when an operand is NULL, and otherwise the sum |
| Sql.PlusChainNull | src/transform.py:2656-2703 | a `+` chain of flags is NULL exactly when one term is, and otherwise adds its terms |
| Sql.SumSkipNull | src/transform.py:2656-2703 | `SUM` is NULL exactly when every input is NULL |
| Sql.SumSkipNullIsSumOfNonNull | src/transform.py:2656-2703 | `SUM` is the plain sum of the non-NULL inputs |
| Sql.AddNum | scripts/create_payment_views_duckdb.py:73 | double `+`: NaN absorbs, otherwise the real sum |
| Sql.SubNum | src/transform.py:396 | double `-`: NaN absorbs, otherwise the real difference |
| Sql.AddNumCommutes | scripts/create_payment_views_duckdb.py:73 | double addition is commutative, NaN included |
| Sql.AddNumAssociates | scripts/create_payment_views_duckdb.py:89-91 | double addition is associative, NaN included, so `SUM` order does not matter in the model |
| Sql.NumberOf | src/models.py:32-40 | the numeric reading of a cell: NULL stays NULL, a double is itself, an integer widens |
| Sql.CoalesceNum | scripts/create_payment_views_duckdb.py:66 | `COALESCE(x, 0)` on a double column: the value when present, 0 otherwise |
| Sql.Positive3 | scripts/create_payment_views_duckdb.py:65 | `x > 0` is NULL exactly on NULL, and TRUE exactly for NaN or a positive number |
| Sql.Abs | src/transform.py:397 | `abs` is non-negative and is `x` or `-x` |
| Text.IndexOf | scripts/create_payment_views.py:30 | `find`: the first occurrence, and none exactly when the pattern does not occur |
| Text.IndexFrom | convert_report_to_html.py:228-232 | the first occurrence at or after a position, with none before it |
| Text.Split | convert_report_to_html.py:147 | `split(sep)` yields at least one piece |
| Text.SplitJoin | convert_report_to_html.py:147 | joining the pieces of a split with the separator gives the input back |
| Text.SplitPiecesFree | scripts/create_payment_views.py:31 | no piece of a split contains the separator |
| Text.SplitFirst | scripts/create_payment_views.py:31-32 | the first piece is the text before the first separator, and there are two or more pieces exactly when it occurs |
| Text.StripStart | scripts/create_payment_views.py:32 | the left strip removes exactly the leading whitespace |
| Text.StripEnd | scripts/create_payment_views.py:32 | the right strip removes exactly the trailing whitespace |
| Text.Strip | convert_report_to_html.py:160 | `strip()` leaves no whitespace at either end and is a part of its input |
| Text.NatToString | src/transform.py:102 | `n::text` is a non-empty digit string without a leading zero |
| Text.NatToStringRoundTrip | src/transform.py:102 | reading back the decimal rendering of a number gives the number |
| Text.DigitRoundTrip | src/transform.py:102 | a digit character reads back as its digit |
| Text.StrLeTotal | src/transform.py:102 | text `<=` is total |
| Text.StrLeAntisymmetric | src/transform.py:102 | text `<=` is antisymmetric |
| Text.StrLeTransitive | src/transform.py:102 | text `<=` is transitive |
| Text.ReplaceChar | scripts/create_payment_views.py:36 | `replace(c, rep)` leaves no `c` when `rep` has none |
| Text.ReplaceCharConcat | scripts/create_payment_views.py:36 | replacing distributes over concatenation |
| Text.ReplaceCharAbsent | scripts/create_payment_views.py:36 | a text without the character is unchanged |
| Text.Lower | scripts/create_payment_views.py:62 | `lower()` maps each character and keeps the length |
| Text.Upper | scripts/column_profiler.py:53 | `upper()` maps each character and keeps the length |
| Text.ParseNatBound | src/transform.py:102 | an n-digit string denotes a number below 10^n |
| Text.FrontDigitDecides | src/transform.py:102 | among equal-length digit strings, a smaller first digit gives a smaller number |
| Text.DigitsOrder | src/transform.py:102 | equal-length digit strings order as text exactly as their values order as numbers |
| Text.FourDigitYear | src/transform.py:102 | every year from 1000 to 9999 renders with four digits |
| Schema.Default | src/transform.py:257-293 | the flag default is `''` exactly for text columns and 0 for numeric ones |
| Schema.Names | src/models.py:7-40 | the names of a column list, in order |
| Schema.Slots | src/models.py:55-62 | `base_1` to `base_n`, all of one type |
| Schema.FamilySlots | src/models.py:64-212 | n slots for each family, in order |
| Schema.LineFamiliesDistinct | src/models.py:64-212 | the ten per-line families are distinct from each other and from the diagnosis family |
| Schema.CarrierColumnCounts | src/models.py:55-212 | 138 slot columns (8 diagnosis codes and ten families of 13), 140 audited fields with the two dates |
| Schema.BeneficiaryFieldCount | src/models.py:10-40 | 31 non-key beneficiary fields |
| Schema.DigitSuffixLenSpec | src/transform.py:2773 | the counted suffix is all digits and maximal |
| Schema.Family | src/transform.py:2773 | the family of a name is a prefix of it |
| Schema.FamilyMatchesPattern | src/transform.py:2773 | the family differs from the name exactly when `_[0-9]+$` matches, and then drops exactly `_` and the digits |
| Schema.FamilyOfSlot | src/transform.py:2773 | the family of `base_k` is `base` |
| Schema.FamilyOfLetterEnding | src/transform.py:2824 | a name ending in a letter is its own family |
| Schema.BeneficiaryFamiliesAreSingletons | src/transform.py:2824 | no beneficiary field carries a slot suffix, so each is its own family |
| Schema.BeneficiaryNamesEndInLetters | src/models.py:10-40 | no beneficiary field name ends in a digit |
| Schema.DigitSuffixMaximal | src/transform.py:2773 | the digit suffix stops at the first non-digit from the right |
| Schema.FamilyMembers | src/transform.py:2790 | the members of a family are a sub-list of the columns |
| Schema.FamilyMembersConcat | src/transform.py:2790 | family membership distributes over concatenation |
| Schema.SlotsFamily | src/models.py:55-212 | every slot of `base` belongs to family `base` |
| Schema.FamilyMembersUniform | src/transform.py:2790 | filtering columns of one family keeps all of them or none |
| Schema.FamilyMembersOfSlots | src/transform.py:2790 | the members of a family among the slots of one base |
| Schema.FamilyMembersOfFamilySlots | src/transform.py:2790 | the members of a family among several slotted families |
| Schema.SlottedFamilySizes | src/models.py:55-212 | ICD9_DGNS_CD has 8 members and each of the ten line families 13 |
| Table.Get | src/models.py:7-40 | reading a column gives its cell, or NULL when the row lacks it |
| Table.KeyOf | src/transform.py:164-176 | the key tuple of a row, column by column |
| Table.Keys | src/transform.py:164-176 | the key tuples of a table, row by row |
| Table.MatchesMeaning | src/transform.py:295-297 | a key join pairs exactly the equal keys without NULL components |
| Table.MatchesSymmetric | src/transform.py:295-297 | key matching is symmetric |
| Table.Distinct | src/transform.py:164-176 | `DISTINCT` keeps every value exactly once |
| Table.DistinctOfDistinct | src/transform.py:164-176 | `DISTINCT` leaves a list without repeats unchanged |
| Table.DistinctRepeated | src/transform.py:164-176 | `DISTINCT` of copies of one value is that value |
| Table.KeyUnion | src/transform.py:164-176 | `KEYS` holds exactly the keys of either snapshot, each once |
| Table.MatchingRows | src/transform.py:295-297 | the rows a `LEFT JOIN` pairs with a key: exactly the matching ones |
| Table.LeftSide | src/transform.py:295-297 | a `LEFT JOIN` side is never empty (a NULL row when nothing matches) |
| Table.AtMostOneMatch | src/models.py:8-9 | under a unique key a key join finds at most one row, and one exactly when a row matches |
| Table.Lookup | src/transform.py:295-297 | the single match under a unique key, or none exactly when nothing matches |
| Table.LeftSideUnique | src/transform.py:295-297 | under a unique key the `LEFT JOIN` side is that row or NULLs |
| Table.Unmatched | src/compare.py:25-31 | an anti-join keeps exactly the rows without a partner |
| Table.NullKeyUnmatched | src/compare.py:25-31 | a row with a NULL key component never finds a partner |
| Table.UnmatchedDisjoint | src/compare.py:25-42 | no unmatched row of one side matches an unmatched row of the other |
| Join.LeftSideMeaning | src/transform.py:295-297 | a `LEFT JOIN` side is NULLs exactly when nothing matches, otherwise exactly the matches |
| Join.RowPairs | src/transform.py:1000-1001 | the output pairs of one left row |
| Join.LeftPairs | src/transform.py:1000-1001 | the `LEFT JOIN` part holds exactly every left row's pairs |
| Join.RightOnly | src/transform.py:1000-1001 | the right-only part holds exactly the unmatched right rows beside NULLs |
| Join.FullOuterJoinMembers | src/transform.py:1000-1001 | the `FULL OUTER JOIN` is the left part and the right-only part |
| Join.MatchedPairs | src/transform.py:1000-1001 | its two-sided pairs are exactly the matching pairs |
| Join.LeftOnlyPairs | src/transform.py:1000-1001 | a left row stands beside NULLs exactly when nothing matches it |
| Join.RightOnlyPairs | src/transform.py:1000-1001 | a right row stands beside NULLs exactly when nothing matches it |
| Join.FullOuterJoinMeaning | src/transform.py:1000-1001 | the full outer join holds exactly the matching pairs and each side's unmatched rows, and never two NULL sides |
| Join.FullOuterJoinCovers | src/transform.py:1000-1001 | every row of either table reaches the output |
| Join.Where | src/transform.py:1025-1026 | `WHERE` keeps exactly the rows satisfying the condition |
| Join.WhereMonotone | src/transform.py:1025-1026 | a weaker condition keeps at least as many rows |
| Join.Lefts | scripts/column_profiler.py:26 | `SELECT l.*` takes the left side of each row |
| Join.LeftsMembers | scripts/column_profiler.py:26 | the left sides are exactly those of the joined rows |
| Join.InnerJoinMeaning | src/compare.py:52-54 | an inner join holds exactly the matching pairs |
| Join.InnerJoinPair | src/compare.py:52-54 | one pair of rows is in the inner join exactly when they match on the key |
| Join.FilteredInnerJoin | src/compare.py:52-59 | a `WHERE` over an inner join keeps a pair exactly when the rows match and satisfy the condition |
| Audit.Side | src/transform.py:295-297 | a joined side's cell, or NULL when the side is missing |
| Audit.FieldFlag | src/transform.py:257-293 | the flag is 1 exactly when `COALESCE(s, d) <> COALESCE(n, d)`, with `d` the type's default, and otherwise 0 |
| Audit.OneSidedFlag | src/transform.py:257-293 | a value present on one side only is flagged exactly when it differs from the default |
| Audit.SameValueNotFlagged | src/transform.py:257-293 | a value is never flagged against itself, NaN included |
| Audit.Flags | src/transform.py:808-947 | the flags of a joined pair, field by field |
| Audit.Pairings | src/transform.py:948-951 | one key yields every pairing of its source side with its target side |
| Audit.RowsForUniqueKey | src/transform.py:948-951 | under unique keys a key yields the single row flagged from its two sides |
| Audit.AuditForUnique | src/transform.py:492-508 | under unique keys there is one audit row per key of the list, in order |
| Audit.AuditForSnocUnique | src/transform.py:492-508 | with unique keys, each further key adds exactly its one row |
| Audit.OneRowPerKey | src/transform.py:164-176 | under unique keys the audit table has exactly one row per distinct key of either snapshot, flagged from that key's rows |
| Audit.NullKeyAllZero | src/transform.py:948-951 | a key with a NULL component yields one row of zero flags |
| Audit.NullFlags | src/transform.py:1414-1425 | columns added by `ALTER TABLE` start as NULL |
| Audit.AltFlags | src/transform.py:1428-1449 | the alternative path updates only keys that a source row matches |
| Audit.AltAudit | src/transform.py:1396-1403 | the alternative table has one row per key of the union |
| Audit.AltAgreesOnSourceKeys | src/transform.py:1910-1934 | on keys that a source row matches, the alternative path agrees with the single statement; other keys keep NULL flags |
| Beneficiaries.Left | src/transform.py:91 | `left(s, n)` is a prefix of length `min(n, |s|)` |
| Beneficiaries.LeftText | src/transform.py:102 | `left(c, 4)` is NULL exactly when the cell is not text |
| Beneficiaries.IntText | src/transform.py:102 | `year::text` is the decimal rendering |
| Beneficiaries.YearText | src/transform.py:102 | `"YEAR"::text` is NULL exactly when the cell is not an integer |
| Beneficiaries.TextLe3 | src/transform.py:102 | text `<=` is TRUE exactly for two values in order |
| Beneficiaries.IsNull3 | src/transform.py:101-102 | `IS NULL` is TRUE exactly on NULL |
| Beneficiaries.PairCondition | src/transform.py:100-102 | on a joined pair the rule reads as "no partner and the death rule holds" |
| Beneficiaries.OneSidedSound | src/transform.py:88-102 | every reported row has no partner and meets the death rule |
| Beneficiaries.OneSidedComplete | src/transform.py:88-102 | every such row is reported |
| Beneficiaries.OneSidedMeaning | src/transform.py:88-102 | a source beneficiary-year is missing exactly when it has no new partner and its death date is `'nan'` or its first four characters sort at or before the year |
| Beneficiaries.UnpartneredPair | src/transform.py:88-102 | a row without a partner stands beside NULLs in the `LEFT JOIN` |
| Beneficiaries.NullDeathNeverReported | src/transform.py:100-102 | a NULL death date is never reported |
| Beneficiaries.EmptyDeathReported | src/transform.py:100-102 | an empty death date is reported whenever the year is present |
| Beneficiaries.DeathYearNumeric | src/transform.py:102 | for four-digit dates and years the text comparison is the numeric one |
| Beneficiaries.ShortDeathYearIsText | src/transform.py:102 | `'999'` sorts after `'2008'`: the comparison is on text |
| Beneficiaries.ErrorsOf | src/transform.py:89-93 | one finding row per reported row |
| Beneficiaries.ErrorReported | src/transform.py:88-117 | every row a rule selects appears under its finding |
| Beneficiaries.BeneficiaryErrorsMeaning | src/transform.py:88-117 | the view lists the missing rows and then the extra rows (the mirror rule), and its size is the sum of the two |
| Beneficiaries.NullBirthDateSeenOnlyByAttributes | src/transform.py:119-153 | a birth date NULL on one side is an attribute error but not a date difference |
| Beneficiaries.AttributeErrorsMeaning | src/transform.py:119-142 | a source and a target row are listed exactly when they share (id, year) and their birth date, sex, race or ESRD indicator differ, NULL-aware |
| Beneficiaries.DateDifferencesMeaning | src/transform.py:144-153 | a source and a target row are listed exactly when they share (id, year) and their birth or death dates differ where both are present |
| Beneficiaries.DifferenceViewsPaired | src/transform.py:119-153 | neither difference view lists a row without its partner |
| Beneficiaries.DatesAgreeWhenPresent | src/transform.py:144-153 | with dates present on both sides, `IS DISTINCT FROM` and `<>` agree |
| Claims.FirstNonNull | src/transform.py:988-989 | `COALESCE(a, b)` is NULL exactly when both are, and prefers `a` |
| Claims.ClaimKeyOf | src/models.py:50 | the carrier key is `CLM_ID` alone |
| Claims.ClaimMatches | src/transform.py:1001 | joining on `CLM_ID` pairs exactly the rows with the same non-NULL id |
| Claims.StatusPartition | src/transform.py:995-999 | Matched, Src Only and New Only partition the claim join by which sides are present |
| Claims.RuleRows | src/transform.py:986-1019 | one combined row per kept pair, before the lookup joins; `Claims.BusinessRuleReportRows` relates it to the joined view |
| Claims.ReportedOrigin | src/transform.py:1001-1026 | every reported row comes from a kept joined pair |
| Claims.KeptPairHasNewSide | src/transform.py:992-993 | a kept pair has a new side, because the indicator comes from it |
| Claims.ReportedRowsHaveNewSide | src/transform.py:1013-1026 | every reported row is Valid, has differing payments (NULL read as 0), and has a new side |
| Claims.ReportedVarianceNonZero | src/transform.py:1018 | a reported row's variance, source minus new, is non-zero |
| Claims.MatchedClaimReported | src/transform.py:1013-1026 | a claim on both sides is reported exactly when its new line 1 is Valid and the two payments, NULL as 0, differ |
| Claims.KeptMatchedReported | src/transform.py:1025-1026 | a kept matched pair is reported |
| Claims.BeneOf | src/transform.py:988-989 | the combined beneficiary id is NULL exactly when both sides' ids are |
| Claims.LookupNames | src/transform.py:1022-1023 | one state name per lookup row matching the summary's state code, or one NULL when none matches |
| Claims.NamesOver | src/transform.py:1022-1023 | every summary side yields at least one name |
| Claims.StateNames | src/transform.py:1020-1023 | a claim reaches at least one name per matching summary row, and at least one in all |
| Claims.StateName | src/transform.py:1007 | `STATE_NAME` is never NULL: the source-side name, else the new-side name, else `'Unknown/Orphan'` |
| Claims.NameRow | src/transform.py:1007 | one output row per new-side name, naming the state by the rule above |
| Claims.NameRows | src/transform.py:1020-1023 | every pairing of a source-side and a new-side name, all for the same claim row |
| Claims.PairRows | src/transform.py:1020-1023 | a kept claim is listed once per pairing of its two sides' names |
| Claims.PairRowsRepeat | src/transform.py:1020-1023 | a kept claim is listed at least once, and at least as often as the product of its matching summary rows on each side |
| Claims.ReportedRows | src/transform.py:1020-1026 | no kept claim is dropped by the joins |
| Claims.PairBlock | src/transform.py:1020-1026 | each claim's repeated rows stand together in the output |
| Claims.ReportedRowsSound | src/transform.py:1003-1026 | every output row carries the combined row of a kept claim |
| Claims.ReportedRowsComplete | src/transform.py:1003-1026 | every kept claim reaches the output |
| Claims.RuleRowsOrigin | src/transform.py:986-1019 | a combined row is listed exactly when it comes from one of the pairs |
| Claims.BusinessRuleReportRows | src/transform.py:986-1026 | the joined view lists exactly the combined rows of the rule view, each repeated by the lookup joins |
| Claims.Findings | src/transform.py:961-980 | one finding per row, with the row's claim id |
| Claims.FindingSound | src/transform.py:961-980 | a reported id comes from the side and is absent from the other, unless it is NULL |
| Claims.FindingComplete | src/transform.py:961-980 | every id that is NULL or absent from the other side is reported |
| Claims.FindingsMeaning | src/transform.py:961-980 | the anti-join on `CLM_ID` reports exactly the ids of one side missing from the other, and every NULL id |
| Claims.ClaimMismatchesMeaning | src/transform.py:961-980 | a claim is missing or extra exactly when only one snapshot carries its id |
| Claims.Project | src/transform.py:1029-1037 | `SELECT DISTINCT` of the key columns keeps the key |
| Claims.SourceKeyRows | src/transform.py:1029-1037 | the orphan table's `KEYS` holds exactly the distinct source key tuples |
| Claims.SideKey | src/transform.py:1044-1053 | the key columns of a joined side, NULL where the side is missing |
| Claims.NoMatchOnNullKey | src/transform.py:1044-1048 | a NULL key matches nothing |
| Claims.OrphanRows | src/transform.py:1038-1053 | a new row is an orphan exactly when its four key columns match no source key |
| Claims.OrphanRowsSound | src/transform.py:1038-1053 | every non-NULL row of the orphan table is a new row whose key matches no source key |
| Claims.OrphanRowsComplete | src/transform.py:1038-1053 | every new row whose key matches no source key appears in the orphan table |
| Claims.OrphanNullRow | src/transform.py:1038-1053 | the table holds a row of NULLs exactly when some source key has a NULL component |
| Claims.NullRowFromNullKey | src/transform.py:1038-1053 | a NULL row comes from a source key with a NULL |
| Claims.NullKeyGivesNullRow | src/transform.py:1038-1053 | a source key with a NULL gives a NULL row |
| Claims.CarrierOrphansMeaning | src/transform.py:1028-1053 | the orphan table holds the unmatched new rows, plus a NULL row exactly when a source key has a NULL |
| Claims.NullKeyPair | src/transform.py:1038-1053 | a source key with a NULL component stands beside NULLs among the orphans |
| Claims.UnionSides | src/transform.py:961-980 | in the `UNION` of both directions each finding comes from its own direction |
| Rules.InReducedOrSuspended | src/transform.py:1015 | `IN ('R', 'S')` is NULL exactly on a NULL indicator |
| Rules.ValidIff | src/transform.py:1013-1017 | the three-valued rule keeps exactly the lines the two-valued reference keeps: 'A', or 'R'/'S' with a positive charge |
| Rules.NullIndicatorInvalid | scripts/create_payment_views_duckdb.py:65 | a NULL indicator is never Valid |
| Rules.AcceptedIgnoresCharge | scripts/create_payment_views_duckdb.py:65 | 'A' is Valid whatever the charge |
| Rules.ReducedNeedsPositiveCharge | scripts/create_payment_views_duckdb.py:65 | 'R' or 'S' with a NULL, zero or negative charge is Denied |
| Rules.OtherIndicatorInvalid | scripts/create_payment_views_duckdb.py:65 | any other indicator is Denied |
| Group.KeysOf | src/transform.py:2888 | the keys of the entries, in order |
| Group.Filter | src/transform.py:2888 | the entries of one group, and none exactly when the key is absent |
| Group.GroupKeys | src/transform.py:2888 | each distinct key exactly once |
| Group.GroupRows | src/transform.py:2888 | one row per key |
| Group.GroupRowsAt | src/transform.py:2888 | each row carries its key's total |
| Group.GroupBy | src/transform.py:2888 | one row per distinct key |
| Group.GroupByKeys | src/transform.py:2882-2888 | one row per distinct key, each holding the sum of its entries |
| Group.FilterAppend | src/transform.py:2888 | an appended entry joins its own group only |
| Group.FilterAbsent | src/transform.py:2888 | an absent key has an empty group |
| Group.FilterDistinct | src/transform.py:2888 | with distinct keys each group is one entry |
| Group.TotalAppend | src/transform.py:2888 | the total grows by the appended amount |
| Group.GroupRowsSnoc | src/transform.py:2888 | the last entry of the input is counted once in the group rows, exactly when its key is among the keys |
| Group.NewKeyGroup | src/transform.py:2888 | an entry whose key no earlier entry has is alone in its group |
| Group.GroupByConserves | src/transform.py:2882-2888 | the group totals add up to the total of the input |
| Group.TotalPositive | src/transform.py:2886 | non-negative amounts with one positive amount have a positive total |
| Group.GroupsNonNegative | src/transform.py:2882-2888 | grouping non-negative amounts gives non-negative group sums |
| Pareto.Totals | src/transform.py:2799-2803 | the totals column |
| Pareto.RunningPct | src/transform.py:2799-2803 | one share per row, all NULL exactly when the grand total is 0 |
| Pareto.PrefixSumsGrow | src/transform.py:2799-2803 | prefix sums of non-negative amounts grow |
| Pareto.RunningPctAt | src/transform.py:2799-2803 | each share is the prefix sum over the grand total |
| Pareto.RunningPctPair | src/transform.py:2799-2803 | shares lie in [0, 1] and are ordered by position |
| Pareto.RunningPctIsCumulative | src/transform.py:2799-2803 | with non-negative amounts and a positive total, the running share is non-decreasing in [0, 1] and ends at 1 |
| Pareto.StrLeReflexive | src/transform.py:2801 | `FIELD ASC` is reflexive |
| Pareto.DefectOrderTotal | src/transform.py:2801 | the defect order (defects, DPMO, field) is total |
| Pareto.DefectOrderAntisymmetric | src/transform.py:2801 | it is antisymmetric, so it has no ties |
| Pareto.DefectOrderTransitive | src/transform.py:2801 | it is transitive |
| Pareto.SortedTail | src/transform.py:2801 | the tail of a sorted ranking is sorted |
| Pareto.SortedHeadFirst | src/transform.py:2801 | the head of a sorted ranking precedes every element |
| Pareto.SortedCons | src/transform.py:2801 | a head that precedes a sorted ranking keeps it sorted |
| Pareto.Insert | src/transform.py:2801 | insertion adds exactly one element |
| Pareto.InsertSorted | src/transform.py:2801 | insertion keeps a ranking sorted |
| Pareto.SortDefect | src/transform.py:2814-2817 | the ranking is sorted and is a permutation of its input |
| Pareto.SortedDefectUnique | src/transform.py:2801 | any two sorted permutations of the same rows are equal: the ranking is determined |
| Pareto.VarianceRankingExists | src/transform.py:2894-2897 | an ordering by descending variance always exists |
| Pareto.ParetoRows | src/transform.py:2894-2898 | each ranked item gets its running share |
| Pareto.VarianceTieIsAmbiguous | src/transform.py:2894-2898 | two families with equal variance admit two orderings with different running shares |
| Pareto.ListedFrom | src/transform.py:2900 | every row the final `ORDER BY` lists is one of the window's rows |
| Pareto.LargerComesFirst | src/transform.py:2894-2895 | in the window's order a strictly larger variance comes strictly earlier |
| Pareto.ListedPair | src/transform.py:2894-2900 | two listed rows of different variance show their shares in the window's order |
| Pareto.ListedShare | src/transform.py:2894-2900 | every listed share lies in [0, 1] |
| Pareto.ListedShares | src/transform.py:2894-2900 | a second sort on variance alone keeps shares in [0, 1], rising between rows of different variance, with some row at exactly 1 |
| Pareto.ListedTieFalls | src/transform.py:2894-2900 | two families tied at one variance, windowed A then B, may be listed B (share 1) then A (share 0.5): the listed shares fall |
| Quality.Summed | src/transform.py:2656-2703 | the carrier chain leaves out the two claim-date flags |
| Quality.RowDefects | src/transform.py:2656-2703 | a row's defect chain is NULL exactly when one summed flag is |
| Quality.AllRowDefects | src/transform.py:2656-2703 | the chain of every row |
| Quality.Ratio | src/transform.py:2729 | `CAST(d AS FLOAT) / n` is NULL exactly for a NULL `d` or a zero `n` |
| Quality.DatasetScore | src/transform.py:2652-2742 | units are the rows, opportunities are rows times the per-unit count, defects are NULL exactly when every chain is, and DPMO and yield exist exactly when the ratio does |
| Quality.BeneficiaryScore | src/transform.py:2721 | beneficiary opportunities are 31 per row |
| Quality.CarrierScoreAsWritten | src/transform.py:2704 | as written, carrier opportunities are 102 per row |
| Quality.CarrierScore | src/transform.py:2656-2704 | corrected, carrier opportunities are 138 per row, as many as the flags summed |
| Quality.YieldIsOneMinusDpmo | src/transform.py:2729-2730 | YIELD = 1 - DPMO / 10^6 |
| Quality.ChainBounded | src/transform.py:2656-2703 | a chain of 0/1 flags lies between 0 and its length |
| Quality.SumSkipNullBounded | src/transform.py:2656-2703 | a `SUM` of values in [0, b] lies in [0, n * b] |
| Quality.FractionBounds | src/transform.py:2729 | `d / n` lies in [0, 1] when `0 <= d <= n` |
| Quality.DefectsBounded | src/transform.py:2652-2742 | with as many opportunities as flags, defects never exceed opportunities, so DPMO is in [0, 10^6] and YIELD in [0, 1] |
| Quality.BeneficiaryScoreBounded | src/transform.py:2707-2723 | the beneficiary score is bounded |
| Quality.CarrierScoreBounded | src/transform.py:2653-2706 | the corrected carrier score is bounded |
| Quality.ChainOfOnes | src/transform.py:2656-2703 | a chain of n ones is n |
| Quality.CarrierAsWrittenExceedsBound | src/transform.py:2653-2706 | as written, a claim wrong on all 138 slot fields scores DPMO above 10^6 and a negative YIELD |
| Quality.FractionAboveOne | src/transform.py:2729 | `d / n` exceeds 1 when `d > n` |
| Quality.OnesRowDefects | src/transform.py:2656-2703 | a row of ones has as many defects as flags summed |
| Quality.SingleRowScore | src/transform.py:2652-2742 | the score of one row |
| Quality.PairingsWellFormed | src/transform.py:808-947 | the single statement sets every flag to 0 or 1 |
| Quality.AuditForWellFormed | src/transform.py:948-951 | so does every key's contribution |
| Quality.BuildAuditWellFormed | src/transform.py:491-951 | the single-statement table has no NULL flag |
| Quality.AltAuditWellFormed | src/transform.py:1428-1449 | the alternative table's flags are NULL, 0 or 1 |
| Quality.UnmatchedAltRowAddsUnitOnly | src/transform.py:2653-2706 | a row with a NULL flag adds a unit but no defect |
| Quality.AltUnmatchedRowsHaveNoDefects | src/transform.py:1910-1934 | alternative rows that no source key matches have a NULL defect chain |
| Quality.ColumnFlags | src/transform.py:2746-2751 | one audit column, row by row |
| Quality.CountNonNull | src/transform.py:2747-2761 | the non-NULL count is 0 exactly when all are NULL |
| Quality.ColumnScore | src/transform.py:2744-2766 | a column has a group exactly when some flag is non-NULL; its opportunities count the non-NULL flags and its defects are their `SUM` |
| Quality.ColumnSumBounded | src/transform.py:2760-2761 | a column's `SUM` of 0/1 flags lies between 0 and its non-NULL count |
| Quality.ColumnScoreBounded | src/transform.py:2744-2766 | a column's defects never exceed its opportunities, so its DPMO is at most 10^6 |
| Quality.ColumnScores | src/transform.py:2744-2766 | at most one group per column, each with positive opportunities |
| Quality.FullColumn | src/transform.py:2744-2766 | on the single-statement build every column has a group over all rows |
| Quality.AllNonNull | src/transform.py:2761 | with no NULL, the non-NULL count is the length |
| Quality.FamilyEntries | src/transform.py:2770-2780 | each column's family and defects |
| Quality.MaxOpportunities | src/transform.py:2787 | `max(TOTAL_OPPORTUNITIES)` is an upper bound attained by a member |
| Quality.PerMillion | src/transform.py:2787 | `d / m * 10^6` is NULL exactly when `m` is 0 |
| Quality.FamilyStatOf | src/transform.py:2782-2790 | a family row holds its summed defects and its members' largest opportunities |
| Quality.FamilyScores | src/transform.py:2782-2790 | one family row per group of the columns |
| Quality.FamilyTotals | src/transform.py:2782-2790 | each family's defects |
| Quality.FamiliesPartitionDefects | src/transform.py:2782-2790 | every column's family appears once, and family defects add up to column defects |
| Quality.FamilyTotalsAreGroups | src/transform.py:2782-2790 | the family totals are the grouping of the columns' defects |
| Quality.SingletonFamilies | src/transform.py:2824-2841 | without slot suffixes each family is one column with that column's figures |
| Quality.SingletonMax | src/transform.py:2838 | a singleton family's largest opportunities are its column's |
| Quality.BeneficiaryFamiliesAreColumns | src/transform.py:2820-2868 | the beneficiary family view repeats the column view |
| Quality.OneFamily | src/transform.py:2782-2790 | columns of one family form a single group |
| Quality.FilterAll | src/transform.py:2790 | a group holding every entry is the whole list |
| Quality.TotalPair | src/transform.py:2786 | the total of two entries |
| Quality.MaxPair | src/transform.py:2787 | the larger opportunities of two columns |
| Quality.TwoColumnFamily | src/transform.py:2782-2790 | two columns of one family: defects added, opportunities the larger |
| Quality.GroupBySingleKey | src/transform.py:2782-2790 | columns that share one family form one group holding their total |
| Quality.TaxNumSlots | src/transform.py:2773 | `TAX_NUM_1` and `TAX_NUM_2` fall into family `TAX_NUM` |
| Quality.FamilyDpmoCanExceedMillion | src/transform.py:2787 | two slots each wrong on their single opportunity give a family DPMO of 2 * 10^6 |
| Quality.FamilyItems | src/transform.py:2792-2804 | one ranking item per family |
| Quality.FamilyPareto | src/transform.py:2769-2817 | one output row per family |
| Quality.FamilyParetoRanked | src/transform.py:2769-2817 | the ranking is the one sorted permutation of the families; with no negative defect count and some defect, the running share climbs to exactly 1 |
| Quality.FamilyItemsTotal | src/transform.py:2782-2790 | the Pareto items carry exactly the family defects |
| Quality.FamilyRankedTotal | src/transform.py:2791-2817 | ranking the families keeps the whole defect count |
| Quality.FamilyRankedNonNegative | src/transform.py:2782-2817 | no ranked family has a negative defect sum when no column has |
| Quality.FamilyEntriesPositive | src/transform.py:2782-2790 | some column defect makes the family defect total positive |
| Quality.FamilyParetoShare | src/transform.py:2791-2817 | the running share stays in [0, 1], never decreases and ends at exactly 1 |
| Payments.LineOf | scripts/create_payment_views_duckdb.py:36-48 | slot `i`'s select carries `LINE_NUM = i` |
| Payments.SlotSelect | scripts/create_payment_views_duckdb.py:36-48 | one line per claim row |
| Payments.UnionAll | scripts/create_payment_views_duckdb.py:32-50 | every line number lies in 1 to n |
| Payments.UnionAllLength | scripts/create_payment_views_duckdb.py:32-50 | n lines per claim row |
| Payments.Unpivot | scripts/create_payment_views_duckdb.py:32-55 | 13 lines per claim row |
| Payments.Numbered | scripts/create_payment_views_duckdb.py:40 | the lines with a given number |
| Payments.NumberedAppend | scripts/create_payment_views_duckdb.py:50 | numbering distributes over `UNION ALL` |
| Payments.NumberedSlot | scripts/create_payment_views_duckdb.py:40 | slot `n`'s select holds only lines numbered `n` |
| Payments.UnionAllByNumber | scripts/create_payment_views_duckdb.py:32-50 | the lines numbered `i` are exactly slot `i`'s select over the claims, for `i` in 1 to n |
| Payments.UnpivotByNumber | scripts/create_payment_views_duckdb.py:32-50 | each claim row expands to exactly one line per `LINE_NUM` 1 to 13, carrying slot `i`'s columns |
| Payments.TrimBlanks | scripts/create_payment_views_duckdb.py:61 | the integer cast skips blanks at both ends and keeps every other character |
| Payments.TrimPadded | scripts/create_payment_views_duckdb.py:61 | the blanks around a text that neither starts nor ends with one are exactly what is skipped |
| Payments.DigitsNeedNoTrim | scripts/create_payment_views_duckdb.py:61 | a run of digits is read as it stands |
| Payments.ForeignCharNotSigned | scripts/create_payment_views_duckdb.py:61 | a character other than a digit or a sign rules out an integer |
| Payments.SignedValueBound | scripts/create_payment_views_duckdb.py:61 | four characters of signed digits read as a value between -999 and 9999 |
| Payments.CastYear | scripts/create_payment_views_duckdb.py:61 | YEAR is NULL exactly on a NULL date; four leading digits read as their value; any value lies in -999..9999; a conversion error needs a non-digit among the first four characters or an empty date |
| Payments.CastFailsOnForeignChar | scripts/create_payment_views_duckdb.py:61 | a character among the first four that is no digit, blank or sign makes the cast fail |
| Payments.CastReadsPaddedYear | scripts/create_payment_views_duckdb.py:61 | a signed or unsigned year with blanks around it is read as its value |
| Payments.NanDateFailsCast | scripts/create_payment_views_duckdb.py:61 | the date `'nan'` cannot be cast |
| Payments.Price | scripts/create_payment_views_duckdb.py:63-82 | an invalid line prices at 0 on all three amounts; a valid one at `COALESCE(nch, 0)`, `COALESCE(deduct, 0) + COALESCE(coins, 0)` and `COALESCE(pry, 0)` |
| Payments.PriceFollowsRule | scripts/create_payment_views_duckdb.py:63-82 | pricing follows the business rule: nothing from an invalid line, the amounts with NULL as 0 from a valid one |
| Payments.PriceAll | scripts/create_payment_views_duckdb.py:57-85 | one priced line per line |
| Payments.Entries | scripts/create_payment_views_duckdb.py:86-93 | one grouping entry per priced line |
| Payments.EntriesShareKeys | scripts/create_payment_views_duckdb.py:93 | the three amounts share the grouping keys |
| Payments.GroupSum | scripts/create_payment_views_duckdb.py:89-91 | a group's `SUM` is NaN exactly when a member is NaN |
| Payments.Aggregate | scripts/create_payment_views_duckdb.py:86-93 | one row per group |
| Payments.AggregateKeys | scripts/create_payment_views_duckdb.py:86-93 | one output row per distinct (beneficiary, year), and every line's pair has its row |
| Payments.RowEntries | scripts/create_payment_views_duckdb.py:86-93 | the output rows as grouping entries |
| Payments.AggregateIsGroupBy | scripts/create_payment_views_duckdb.py:86-93 | without NaN the aggregation is the grouping of the priced lines |
| Payments.AggregateConserves | scripts/create_payment_views_duckdb.py:86-93 | without NaN the output sums add up to the sum over all lines |
| Payments.NaNAbsorbs | scripts/create_payment_views_duckdb.py:89-91 | a NaN amount makes its group's sum NaN |
| Payments.PaymentView | scripts/create_payment_views_duckdb.py:52-105 | reading the view fails with a conversion error exactly when some line's date cannot be cast |
| Payments.NanDateFailsView | scripts/create_payment_views_duckdb.py:61 | one claim dated `'nan'` fails the whole view |
| Financial.MoneySlots | src/transform.py:1983-2040 | 13 money columns per carrier money family |
| Financial.Coerce | src/transform.py:333-341 | NULL and NaN become 0, a finite amount stays |
| Financial.NanNullZeroIndistinguishable | src/transform.py:333-341 | NULL, NaN and 0 are one amount to the financial tables, though the defect flag tells NaN from 0 |
| Financial.SideAmount | src/transform.py:394-395 | a side's amount is present exactly when the side is |
| Financial.MoneyOf | src/transform.py:394-397 | the delta is present exactly when both sides are, source plus delta is the target, and `abs_delta` is its magnitude |
| Financial.SwapNegatesDelta | src/transform.py:396-397 | swapping the snapshots negates the delta and keeps its magnitude |
| Financial.Money | src/transform.py:363-405 | the money columns of one row |
| Financial.Pairs | src/transform.py:406-419 | every source choice paired with every target choice of a key |
| Financial.FinancialFor | src/transform.py:406-419 | the rows one key produces |
| Financial.FinancialRows | src/transform.py:303-419 | the table holds exactly the key-union rows beside their matching sides |
| Financial.MatchedPairHasRow | src/transform.py:406-419 | a source and a target row that agree on every join column without NULL share a row |
| Financial.PairedRow | src/transform.py:406-419 | such a pair appears as a row |
| Financial.UnmatchedSourceHasNoDelta | src/transform.py:406-419 | a source row with no target partner stands beside NULLs, so none of its amounts is compared |
| Financial.UnmatchedTargetHasNoDelta | src/transform.py:406-419 | the mirror image for a target row |
| Financial.NullKeyRowIsEmpty | src/transform.py:406-419 | a key with a NULL component has NULL on both sides |
| Financial.FieldColumn | src/transform.py:397 | one `abs_delta` column |
| Financial.FieldTotal | src/transform.py:425-441 | a field's `sum` is NULL exactly when every row is one-sided |
| Financial.SumNonNegative | src/transform.py:425-441 | sums of non-negative values are non-negative |
| Financial.PositiveSumIff | src/transform.py:445-455 | with no negative value, a sum is positive exactly when a value is |
| Financial.FieldColumnNonNegative | src/transform.py:425-441 | every `abs_delta` and its sum are non-negative |
| Financial.SingletonSide | src/transform.py:406-419 | a one-row side of a match is that row |
| Financial.OneOnOneRows | src/transform.py:406-419 | the rows built from one source and one target row |
| Financial.WideKeyHidesDifference | src/transform.py:406-419 | as written, a pair that differs on a wide-key attribute meets no partner, so its field total is NULL |
| Financial.SameKeyUnion | src/transform.py:304-324 | two rows with one key give a one-key union |
| Financial.OneKeyRows | src/transform.py:406-419 | the rows for a single key |
| Financial.MatchedPairRows | src/transform.py:406-419 | a matching pair gives one row with both sides |
| Financial.SingleRowTotal | src/transform.py:425-441 | the total over one row is its `abs_delta` |
| Financial.MatchedPairTotal | src/transform.py:425-441 | a matching pair's total is its absolute difference |
| Financial.NarrowKeyKeepsDifference | src/transform.py:425-441 | corrected, joined on the grouping key the pair meets and the total is its absolute difference |
| Financial.FieldPositive | src/transform.py:445-455 | a total is positive exactly when some row has a positive difference |
| Financial.Members | src/transform.py:438-441 | the rows of one group |
| Financial.GroupSums | src/transform.py:425-441 | one sum per field over a group |
| Financial.GroupKeysOf | src/transform.py:438-441 | each group key once |
| Financial.ViewFor | src/transform.py:424-455 | one row per group, with its sums |
| Financial.DifferenceView | src/transform.py:424-455 | the view holds exactly the groups whose sums add up to a positive amount, each once |
| Financial.GroupReported | src/transform.py:445-455 | a group is reported exactly when one of its rows has a nonzero difference |
| Financial.InViewReported | src/transform.py:445-455 | a row of the difference view is a reported group |
| Financial.ReportedInView | src/transform.py:445-455 | a reported group of some row has its row in the difference view |
| Financial.DifferenceViewMeaning | src/transform.py:424-455 | a beneficiary-year is listed exactly when some row of it has a nonzero two-sided difference |
| Financial.MetricColumn | src/transform.py:445-455 | one metric column of the view |
| Financial.DeltaEntries | src/transform.py:425-441 | each row's group and absolute delta, NULL as 0 |
| Financial.DeltaEntry | src/transform.py:438-441 | a row's entry is keyed by its group |
| Financial.CoalesceSumAppend | src/transform.py:425-441 | a sum with NULL read as 0 grows by the appended value |
| Financial.DeltaEntriesTotal | src/transform.py:425-441 | the entries add up to the field total, NULL as 0 |
| Financial.FilterIsMembers | src/transform.py:438-441 | a group's entries are its members' entries |
| Financial.GroupTotalIsFilter | src/transform.py:438-441 | a group's total is its grouping total |
| Financial.DroppedGroupIsZero | src/transform.py:445-455 | a dropped group has only zeros and NULLs |
| Financial.ViewForLast | src/transform.py:424-455 | the last group adds its metric sum to the view's total when reported, and nothing otherwise |
| Financial.ViewForTotal | src/transform.py:424-455 | the view's metric total is the sum of its groups' totals |
| Financial.DifferenceViewConserves | src/transform.py:424-455 | the view loses no money: a field's total over the view equals its total over the table, NULL read as 0 |
| Impact.MetricName | src/transform.py:461-470 | a metric is `abs_delta_` followed by its field |
| Impact.StripMetricPrefix | src/transform.py:2883 | removing `^abs_delta_` drops the prefix exactly when present |
| Impact.MoneyFamilyOfName | src/transform.py:2882-2885 | a metric's family is its field's family |
| Impact.MoneyFamilyOfSlot | src/transform.py:2882-2885 | every slot of a carrier money column folds into its column |
| Impact.MoneyFamilyOfLetterEnding | src/transform.py:2906-2909 | a beneficiary money column is a family of its own |
| Impact.Round2 | src/transform.py:475 | `round(x, 2)` lies within half a cent of `x` and keeps the sign of a non-negative `x` |
| Impact.FieldTable | src/transform.py:457-479 | one row per metric when the view has rows, none when it is empty |
| Impact.DifferenceViewShaped | src/transform.py:425-441 | every view row has one sum per field |
| Impact.ReportedSumsPresent | src/transform.py:445-455 | a reported group's sums are all present |
| Impact.FieldTablePresent | src/transform.py:473-478 | the field table of a difference view has a present total for every metric |
| Impact.FieldTableFaithful | src/transform.py:473-478 | each metric is the table's absolute difference on its field within 0.005, and an empty table means no difference anywhere |
| Impact.Rekey | src/transform.py:2880-2888 | each metric under its family |
| Impact.ImpactItems | src/transform.py:2890-2898 | one item per family |
| Impact.ImpactWindow | src/transform.py:2879-2898 | the rows in the window's `ORDER BY FINANCIAL_VARIANCE DESC` order: one row per family, variance non-increasing, each with its running share along that order |
| Pareto.SumRealConcat | src/transform.py:2894-2898 | sums distribute over concatenation |
| Pareto.SumRealRemove | src/transform.py:2894-2898 | a sum splits off one element |
| Pareto.SumPermutation | src/transform.py:2894-2898 | rearranging does not change the sum |
| Impact.ItemsTotal | src/transform.py:2894-2898 | the items carry the grouped total |
| Impact.ImpactConserves | src/transform.py:2879-2900 | the view's variances add up to the field table's totals |
| Impact.RankedFromGroups | src/transform.py:2890-2898 | every ranked item is one grouped family |
| Impact.ImpactVariance | src/transform.py:2880-2888 | every ranked family carries the sum of its metrics |
| Impact.RankedCovers | src/transform.py:2890-2898 | a rearrangement keeps every group |
| Impact.ImpactCovers | src/transform.py:2879-2900 | every metric reaches the view through its family |
| Impact.FamiliesCovered | src/transform.py:2880-2888 | every metric's family is a group |
| Impact.RankedDistinct | src/transform.py:2890-2898 | a rearrangement of distinct groups has distinct fields |
| Impact.ImpactFamiliesDistinct | src/transform.py:2879-2900 | each family appears once |
| Impact.MetricTotalNonNegative | src/transform.py:473-478 | a metric's sum over the view is non-negative |
| Impact.ViewMetricPresent | src/transform.py:473-478 | a metric's total over a non-empty difference view is present |
| Impact.FieldTableSome | src/transform.py:473-478 | with every metric total present, every field-table row has a total |
| Impact.FieldTableNonNegative | src/transform.py:473-478 | no field table total is negative |
| Group.TotalNonNegative | src/transform.py:2886 | non-negative amounts have a non-negative total |
| Impact.RankedNonNegative | src/transform.py:2894-2898 | a rearrangement keeps amounts non-negative |
| Impact.ImpactRunningShare | src/transform.py:2894-2898 | with some money at stake the running share climbs along the window's order and reaches exactly 1 at its last row |
| Impact.ImpactListedShares | src/transform.py:2890-2900 | along the order the final `ORDER BY FINANCIAL_VARIANCE DESC` lists, which may order ties differently from the window: every share lies in [0, 1], a family of larger variance never shows a larger share than one of smaller variance, and some family shows exactly 1 |
| Impact.ImpactListedFamilies | src/transform.py:2879-2900 | in the listed order every metric reaches the view through its family, and each family is listed once |
| Impact.SameFamilySameItem | src/transform.py:2890-2898 | distinct groups with one family are one item |
| Impact.ItemsDistinct | src/transform.py:2890-2898 | each family's item occurs once |
| Profiler.Conjuncts | scripts/column_profiler.py:21 | one conjunct per key, in order |
| Profiler.TakeUntilQuote | scripts/column_profiler.py:21 | the longest prefix without a double quote |
| Profiler.ParseConjunct | scripts/column_profiler.py:21 | reading a conjunct consumes input |
| Profiler.ParseConjunctOf | scripts/column_profiler.py:21 | reading back one conjunct gives its key |
| Profiler.JoinClauseRoundTrip | scripts/column_profiler.py:21 | the clause reads back as the key list it was built from, in order |
| Profiler.ParseLastConjunct | scripts/column_profiler.py:21 | one conjunct parses back to its key |
| Profiler.ParseNextConjunct | scripts/column_profiler.py:21 | a conjunct followed by ` AND ` parses to its key in front of the rest |
| Profiler.ClauseValueHolds | scripts/column_profiler.py:21 | the clause holds exactly when every conjunct does |
| Profiler.ClauseMeansMatch | scripts/column_profiler.py:21 | the clause keeps a pair exactly when the key join does |
| Profiler.LeftValues | scripts/column_profiler.py:26 | `SELECT s.*` over the kept rows |
| Profiler.WhereAppend | scripts/column_profiler.py:28 | `WHERE` distributes over concatenation |
| Profiler.WhereNone | scripts/column_profiler.py:28 | a filter nothing passes leaves nothing |
| Profiler.UnmatchedRowSurvives | scripts/column_profiler.py:24-29 | a row with no partner survives the `IS NULL` filter once |
| Profiler.MatchedRowDropped | scripts/column_profiler.py:24-29 | a row with a partner leaves nothing |
| Profiler.AntiJoinSplit | scripts/column_profiler.py:24-29 | the anti-join, row by row |
| Profiler.AntiJoinLast | scripts/column_profiler.py:24-29 | the last row is kept exactly when nothing matches it |
| Profiler.AntiJoinIsUnmatched | scripts/column_profiler.py:24-29 | the `LEFT JOIN ... IS NULL` query keeps exactly the unmatched rows, once each, in order |
| Profiler.OrphansAndExtras | scripts/column_profiler.py:24-41 | orphans and extras are each side's unmatched rows, never match each other, and swap when the roles swap |
| Profiler.NullKeyIsBothOrphanAndExtra | scripts/column_profiler.py:24-41 | a row with a NULL key is both an orphan and, on the other side, an extra |
| Profiler.Percent | scripts/column_profiler.py:48 | the rate is non-negative, and 0 exactly for no orphans or an empty table |
| Profiler.PercentBounds | scripts/column_profiler.py:48 | a part of the whole is at most 100 percent, exactly 100 when it is the whole |
| Profiler.OrphanRateBounded | scripts/column_profiler.py:48 | the orphan rate lies in [0, 100], and is 100 exactly when no source row has a partner |
| Profiler.ComparedColumns | scripts/column_profiler.py:50-60 | the compared columns are exactly the catalogue's columns minus the upper- and lower-case key spellings |
| Profiler.SingleCaseKeysNotCompared | scripts/column_profiler.py:51-53 | a key spelled in one case is never compared |
| Profiler.MixedCaseKeyCompared | scripts/column_profiler.py:51-53 | a mixed-case key escapes the exclusion and is compared |
| Profiler.DistinctFlags | scripts/column_profiler.py:63 | one 0/1 value per joined row, 1 exactly when the column is distinct |
| Profiler.ErrorCountIsCount | scripts/column_profiler.py:63-70 | the error count is the number of joined rows distinct on the column, NULL only for an empty join |
| Profiler.ErrorCountPositive | scripts/column_profiler.py:63-70 | a column has errors exactly when some joined row is distinct on it |
| Profiler.LeftPairsUnique | scripts/column_profiler.py:66-70 | against a unique target each source row gives one joined row |
| Profiler.ErrorCountBounded | scripts/column_profiler.py:63-70 | against a unique target no column has more errors than source rows |
| Profiler.DuplicateTargetJoin | scripts/column_profiler.py:66-70 | a source row joined to two copies of its partner yields the pair twice |
| Profiler.PairsTwice | scripts/column_profiler.py:66-70 | a source row beside two copies of its partner pairs twice |
| Profiler.TwiceDiffers | scripts/column_profiler.py:63 | a differing pair seen twice counts two errors |
| Profiler.DuplicateTargetDoublesErrors | scripts/column_profiler.py:79 | with a duplicated target key, one differing row counts two errors, 200 percent |
| Profiler.ErrorRows | scripts/column_profiler.py:79-80 | the kept rows are exactly the columns with a positive count |
| Profiler.InsertByErrors | scripts/column_profiler.py:80 | insertion adds one row |
| Profiler.InsertByErrorsSorted | scripts/column_profiler.py:80 | insertion keeps descending order |
| Profiler.SortByErrors | scripts/column_profiler.py:80 | one admissible ranking by descending count |
| Profiler.SummaryMeaning | scripts/column_profiler.py:63-80 | the summary holds exactly the columns some joined row differs on, with their count and share of the source rows |
| Profiler.SummaryPctBounded | scripts/column_profiler.py:79 | against a unique target every reported percentage lies in (0, 100] |
| Profiler.Fields | scripts/column_profiler.py:86 | the summary's field names |
| Profiler.FieldsMembers | scripts/column_profiler.py:86 | exactly the summary's fields |
| Profiler.SummaryColumns | scripts/column_profiler.py:86 | the summary's columns are the compared columns some joined row differs on |
| Profiler.MismatchViewComplete | scripts/column_profiler.py:82-99 | the view exists exactly when some joined row differs on some compared column, and holds exactly those rows |
| Profiler.Analyze | scripts/column_profiler.py:14-99 | the analysis fails exactly when the key list is empty |
| Profiler.AnalyzeMeaning | scripts/column_profiler.py:14-99 | orphans and extras are the unmatched rows, the rate a percentage, the view the differing rows |
| Profiler.CountOf | scripts/column_profiler.py:115-124 | `diff` is source minus new count, positive exactly when rows were lost |
| Profiler.SourceCounts | scripts/column_profiler.py:115-124 | one count row per dataset |
| Profiler.BalancedCountsHideMissingRows | scripts/column_profiler.py:115-124 | an orphan and an extra row cancel in `diff` |
| Profiler.Tagged | scripts/column_profiler.py:126-131 | one tagged row per row |
| Profiler.ShownKey | scripts/column_profiler.py:128 | a missing row shows its beneficiary key |
| Profiler.MissingRowsStatus | scripts/column_profiler.py:126-131 | missing rows first, then extra rows, each under its status |
| Profiler.MissingRowsExclusive | scripts/column_profiler.py:126-131 | a key without NULLs never shows under both statuses |
| Profiler.MissingRowsMeaning | scripts/column_profiler.py:126-131 | each status counts its own table, and no key without NULLs is listed twice |
| Profiler.NullIdListedTwice | scripts/column_profiler.py:126-131 | a NULL id on each side is listed under both statuses |
| Profiler.AbsNum | scripts/column_profiler.py:136 | `ABS` keeps NaN and is otherwise a non-negative magnitude |
| Profiler.Variance | scripts/column_profiler.py:136 | the variance is NULL exactly when an amount is |
| Profiler.AmountListedSound | scripts/column_profiler.py:133-139 | every listed claim shows two present, unequal amounts |
| Profiler.PairJoined | scripts/column_profiler.py:137 | a matching pair is in the inner join |
| Profiler.AmountPairListed | scripts/column_profiler.py:133-139 | a matching pair with unequal amounts is listed |
| Profiler.AmountListedComplete | scripts/column_profiler.py:133-139 | every pair with one non-NULL claim id and unequal first-line amounts is listed |
| Profiler.NullAmountOnlyInErrorCounts | scripts/column_profiler.py:63 | `<>` and `IS DISTINCT FROM` part ways exactly on a NULL against a present amount |
| Profiler.ListedVariancePositive | scripts/column_profiler.py:136-138 | a listed finite difference has a positive variance |
| Compare.KeysMembers | src/compare.py:25-42 | the key list holds exactly the rows' keys |
| Compare.BeneficiaryGaps | src/compare.py:25-42 | missing and extra are each side's unmatched keys, disjoint when NULL-free, and they swap with the roles |
| Compare.MissingClaimsMeaning | src/compare.py:76-82 | a claim key is missing exactly when it is a source claim's and no target claim matches it |
| Compare.CriticalDiffIsAnyDiffers | src/compare.py:55-58 | the mismatch condition is the profiler's distinctness on the three attributes |
| Compare.JoinedIff | src/compare.py:52-54 | a pair is joined exactly when the keys match |
| Compare.MismatchPair | src/compare.py:46-59 | a pair is a mismatch exactly when joined and distinct on an attribute |
| Compare.BeneficiaryMismatchMeaning | src/compare.py:46-59 | a pair is reported exactly when its rows share a NULL-free key and differ, NULL-aware, on birth date, sex or ESRD |
| Compare.OtherColumnsIgnored | src/compare.py:46-59 | agreeing on the three attributes means not reported, whatever else differs |
| Compare.RaceChangeUnreported | src/compare.py:46-59 | a changed race code goes unreported |
| Compare.CriticalColumnsCompared | scripts/column_profiler.py:50-60 | the profiler compares the three attributes whenever the table has them |
| Compare.MismatchesWithinProfiler | src/compare.py:46-59 | every beneficiary mismatch is in the profiler's mismatch view |
| Compare.DistinctVersusCoalesce | src/compare.py:56-58 | every audit flag is a distinct pair, and a distinct pair goes unflagged exactly when one side is NULL and the other the default |
| Compare.NullVersusEmptyText | src/compare.py:56-58 | NULL against `''` is a mismatch here but no defect in the audit |
| Compare.PaymentDiff | src/compare.py:92 | `diff` is NULL exactly when an amount is |
| Compare.PaymentMismatches | src/compare.py:87-96 | one listed row per distinct pair |
| Compare.PaymentListedSound | src/compare.py:87-96 | every listed payment shows two distinct amounts, and `diff` is source minus new |
| Compare.PaymentPairListed | src/compare.py:87-96 | a matching pair with distinct payments is listed |
| Compare.PaymentListedComplete | src/compare.py:87-96 | every pair with one non-NULL id and distinct first-line payments is listed, NULL against a number included |
| Compare.AmountViewWithinPayments | src/compare.py:87-96 | the profiler's `<>` view never lists more claims than this report counts |
| Compare.PaymentDiffOpposesDelta | src/compare.py:92 | the report's `diff` is the negation of the financial tables' delta |
| Compare.UnmatchedIgnoresStranger | src/compare.py:77-82 | a target claim with an unknown id leaves the missing list alone |
| Compare.MatchingStranger | src/compare.py:77-82 | a non-matching row adds no match |
| Compare.LeftPairsIgnoreStranger | src/compare.py:93-94 | a non-matching row adds no joined pair |
| Compare.NewOnlyClaimInvisible | src/compare.py:71-103 | a claim only the new snapshot has changes nothing in the report, though the profiler lists it as extra |
| Formula.Condition | scripts/create_payment_views.py:33-36 | the condition holds no `&` |
| Formula.ViewName | scripts/create_payment_views.py:62 | the view is `view_calc_` followed by the lower-cased variable |
| Formula.Translate | scripts/create_payment_views.py:30-70 | a view exactly when the logic has ` IF ` and `LINE_`, named after the lower-cased variable, over `src_carrier_claims` keyed by `clm_id`, its condition free of `&` |
| Formula.ValueBeforeFirstIf | scripts/create_payment_views.py:31-32 | the value is the stripped text before the first ` IF ` |
| Formula.ConditionBetweenIfs | scripts/create_payment_views.py:31-36 | the condition is the stripped text between the first and second ` IF `, with `&` rewritten, and the rest dropped |
| Formula.AmpersandInLiteralRewritten | scripts/create_payment_views.py:36 | an `&` inside a quoted literal is rewritten too |
| Formula.CaseOnlyNamesCollide | scripts/create_payment_views.py:62 | variables differing only in case get one view name |
| Formula.OutpatientFormulaSkipped | scripts/create_payment_views.py:52-59 | an `NCH_`-only formula gets no view |
| Formula.CreatePaymentViews | scripts/create_payment_views.py:19-79 | the issued views are exactly the translations of the formulas |
| Formula.Catalogue | scripts/create_payment_views.py:65 | the catalogue holds exactly the issued names |
| Formula.CatalogueLastWins | scripts/create_payment_views.py:65 | each name holds the last view issued under it |
| Markdown.WrapAbsent | convert_report_to_html.py:228 | text without the delimiter is unchanged |
| Markdown.LinkAbsent | convert_report_to_html.py:230 | text without `[` has no link |
| Markdown.FormatInlinePlain | convert_report_to_html.py:225-233 | text with no `*`, `[` or backquote is unchanged |
| Markdown.BoldClose | convert_report_to_html.py:228 | a bold span closes at the first `**` after its text |
| Markdown.BoldSpan | convert_report_to_html.py:228 | `**a**` becomes `<strong>a</strong>` |
| Markdown.Cells | convert_report_to_html.py:167 | the cells are the stripped pieces between the first and last `|` |
| Markdown.Tag | convert_report_to_html.py:153-158 | a heading tag is `h` and a digit |
| Markdown.Regular | convert_report_to_html.py:235-239 | a regular line gives a paragraph of itself or nothing |
| Markdown.Drop | convert_report_to_html.py:204 | `s[n:]` is the text after the first n characters, or empty |
| Markdown.Emit | convert_report_to_html.py:151-213 | one line's blocks keep the table flag in step: a close leads them, an open is the header alone |
| Markdown.Structure | convert_report_to_html.py:153-199 | headings, rules and tables open and close no list, and a fall-through inside a table starts with `|` |
| Markdown.PipeLine | convert_report_to_html.py:163-191 | a `|` line opens a table with its header, or adds at most a row inside one (none for a line containing `|---`) |
| Markdown.ListItem | convert_report_to_html.py:201-204 | a `- ` line gives at most `<ul>` and an item |
| Markdown.TextLine | convert_report_to_html.py:201-213 | text lines touch no table, and close a list only after an item |
| Markdown.Step | convert_report_to_html.py:151-213 | the output only grows |
| Markdown.RunTablesAppend | convert_report_to_html.py:192-196 | table tracking composes over concatenation |
| Markdown.RunTablesFree | convert_report_to_html.py:192-196 | blocks without table markers keep the table state |
| Markdown.EmitTables | convert_report_to_html.py:163-199 | a line's blocks move the table state to the new flag |
| Markdown.ConvertTables | convert_report_to_html.py:151-213 | after any lines the table state is the converter's flag |
| Markdown.TablesBalanced | convert_report_to_html.py:192-217 | every opened table is closed exactly once and tables never nest |
| Markdown.ChainAppend | convert_report_to_html.py:201-208 | list well-formedness composes over concatenation |
| Markdown.ListFreeChains | convert_report_to_html.py:201-208 | blocks without list markers fit anywhere |
| Markdown.ListItemChains | convert_report_to_html.py:201-204 | a list line's blocks fit after the output so far |
| Markdown.TextLineChains | convert_report_to_html.py:201-213 | a text line's blocks fit, and never leave an open `<ul>` last |
| Markdown.EmitChains | convert_report_to_html.py:151-213 | every line's blocks fit |
| Markdown.ConvertLists | convert_report_to_html.py:151-213 | the converted blocks are list-well-formed |
| Markdown.ListsWellFormed | convert_report_to_html.py:201-208 | every item follows an item or `<ul>`, every `</ul>` follows an item, every `<ul>` is followed by an item |
| Markdown.BlockEnding | convert_report_to_html.py:154-213 | a block's text ends in its closing text |
| Markdown.ClosingFacts | convert_report_to_html.py:154-213 | the closing texts tell items and `<ul>` apart by their last characters |
| Markdown.PrologueEnding | convert_report_to_html.py:135-144 | the page head ends in `<body>` and a newline |
| Markdown.PrologueStart | convert_report_to_html.py:8-144 | the page head opens with the document type |
| Markdown.EpilogueEnding | convert_report_to_html.py:219-222 | the page foot ends in `</body>` and `</html>` |
| Markdown.MdToHtmlPage | convert_report_to_html.py:8-223 | the page opens with the document type and closes the document; its tables are balanced and its list markers are in ListsOk order (an item follows an item or `<ul>`, `</ul>` follows an item, `<ul>` is followed by an item) |
| Markdown.CloseList | convert_report_to_html.py:205-208 | leaving a list writes `</ul>` and at most the line as a paragraph |
| Markdown.PageEndsWithNewline | convert_report_to_html.py:154-213 | the page written so far ends with a newline |
| Markdown.NotListEnding | convert_report_to_html.py:202 | a page ending in a blank line or `<body>` ends in neither `</li>` nor `<ul>` |
| Markdown.ClosingDecides | convert_report_to_html.py:202 | after a non-blank block, the page ends in `</li>` or `<ul>` exactly for an item or a list start |
| Markdown.PageEndingBlank | convert_report_to_html.py:202 | after a blank block the page ends in neither |
| Markdown.PageEndingBlock | convert_report_to_html.py:202 | the page's ending follows its last block |
| Markdown.PageEndingAfter | convert_report_to_html.py:202-205 | after the head, `</li>` and `<ul>` endings hold exactly when the last block is an item or a list start |
| Markdown.PageEnding | convert_report_to_html.py:202-205 | the source's `html.endswith` tests are decided by the last block |
| Markdown.StripCovers | convert_report_to_html.py:187 | every character of a cell is whitespace or in the stripped cell |
| Markdown.MarkerCharApart | convert_report_to_html.py:179-187 | no marker begins with a number, whitespace or sigma character |
| Markdown.NoMarkerChars | convert_report_to_html.py:179-187 | a numeric cell has no marker character |
| Markdown.NoMarkers | convert_report_to_html.py:179-184 | without a marker character a cell contains no marker |
| Markdown.NumbersAreNumberCells | convert_report_to_html.py:179-188 | a cell that reads as a number, possibly with `σ`, is a number cell |
| Markdown.CellClassExamples | convert_report_to_html.py:179-188 | the first marker in priority order decides wherever it stands |
| Markdown.NumberCharCell | convert_report_to_html.py:179-188 | a cell of one number character is a number cell |
| Markdown.DashIsNumber | convert_report_to_html.py:179-188 | `-` is a number cell |
| Markdown.UnstyledExamples | convert_report_to_html.py:179-188 | `ICD9` and a lone `σ` are unstyled |
| Markdown.UnstyledText | convert_report_to_html.py:179-188 | plain text starting like no number is unstyled |
| Markdown.StripKeepsFirst | convert_report_to_html.py:192 | a line not starting with whitespace keeps its first character when stripped |
| Markdown.PipeLineBranches | convert_report_to_html.py:153-163 | a `|` line reaches the table branch |
| Markdown.TextLineInTable | convert_report_to_html.py:192-213 | a text line reached inside a table writes no item |
| Markdown.EmitInTable | convert_report_to_html.py:192-213 | while a table is open the output never ends in an item |
| Markdown.ConvertSnoc | convert_report_to_html.py:151 | converting one more line is one more step |
| Markdown.ConvertInTable | convert_report_to_html.py:192-213 | inside a table the output does not end in an item |
| Markdown.SeparatorInTableAsWritten | convert_report_to_html.py:163-211 | as written, a `|---` line inside a table becomes a paragraph and the table stays open |
| Markdown.HeaderOpensTable | convert_report_to_html.py:163-171 | a first `|` line opens a table with its cells as header |
| Markdown.SeparatorExample | convert_report_to_html.py:163-211 | header then separator gives the table head and a stray paragraph |
| Markdown.PipeTableOnlyRows | convert_report_to_html.py:163-191 | corrected, consecutive `|` lines give the header followed by rows only |
| Markdown.PipeStructure | convert_report_to_html.py:163-172 | inside a table the corrected converter drops a `|---` line and treats any other `|` line as a row |
| Markdown.PipeLineKeepsTable | convert_report_to_html.py:163-191 | inside a table a `|` line keeps the table open and adds at most a row |
| Markdown.CorrectionOnlySkipsSeparators | convert_report_to_html.py:163-211 | the correction changes only `|---` lines inside a table |
| Markdown.HeadingLeavesListOpen | convert_report_to_html.py:153-158 | a heading after an item is written without closing the `<ul>` |
| Markdown.ListEndOnlyAfterItem | convert_report_to_html.py:205-206 | `</ul>` is written only right after an item |

## Operations

The table above lists members whose contracts state a property. Many
operations of the source are plain definitions: a query, a view or a
function whose only contract is its own body. Their meaning is stated by
lemmas. Each such operation is listed below, with the lemmas that state
what it computes. Members in neither table are helpers: predicates that
the contracts above name, and proof steps (snoc, append and arithmetic
lemmas) that have no counterpart in the source.

| operation | source | described by |
|---|---|---|
| Markdown.MdToHtml | convert_report_to_html.py:8-223 | Markdown.MdToHtmlPage, Markdown.PageEnding |
| Markdown.Prologue | convert_report_to_html.py:8-144 | Markdown.PrologueStart, Markdown.PrologueEnding |
| Markdown.Convert | convert_report_to_html.py:146-216 | Markdown.ConvertTables, Markdown.ConvertLists, Markdown.ConvertInTable, Markdown.HeaderOpensTable |
| Markdown.Blocks | convert_report_to_html.py:146-217 | Markdown.TablesBalanced, Markdown.ListsWellFormed |
| Markdown.Render | convert_report_to_html.py:153-217 | Markdown.PageEnding, Markdown.PageEndsWithNewline |
| Markdown.RenderBlock | convert_report_to_html.py:153-217 | Markdown.BlockEnding |
| Markdown.HeaderCells | convert_report_to_html.py:166-171 | Markdown.HeaderOpensTable |
| Markdown.DataCells | convert_report_to_html.py:172-191 | Markdown.NumbersAreNumberCells, Markdown.CellClassExamples |
| Markdown.NextTable | convert_report_to_html.py:163-195 | Markdown.RunTablesAppend, Markdown.EmitTables |
| Markdown.RunTables | convert_report_to_html.py:163-217 | Markdown.RunTablesAppend, Markdown.TablesBalanced |
| Markdown.FormatInline | convert_report_to_html.py:225-233 | Markdown.FormatInlinePlain |
| Markdown.Wrap | convert_report_to_html.py:228, 232 | Markdown.WrapAbsent, Markdown.BoldSpan |
| Markdown.Link | convert_report_to_html.py:230 | Markdown.LinkAbsent |
| Markdown.ClassOf | convert_report_to_html.py:178-188 | Markdown.NumbersAreNumberCells, Markdown.CellClassExamples, Markdown.DashIsNumber, Markdown.UnstyledText |
| Profiler.JoinClause | scripts/column_profiler.py:21 | Profiler.JoinClauseRoundTrip |
| Profiler.AntiJoin | scripts/column_profiler.py:24-41 | Profiler.AntiJoinIsUnmatched, Profiler.AntiJoinSplit, Profiler.AntiJoinLast |
| Profiler.Orphans | scripts/column_profiler.py:24-31 | Profiler.OrphansAndExtras |
| Profiler.Extras | scripts/column_profiler.py:34-41 | Profiler.OrphansAndExtras |
| Profiler.DiffersOn | scripts/column_profiler.py:63 | Profiler.DistinctFlags, Profiler.ErrorCountIsCount |
| Profiler.ErrorCount | scripts/column_profiler.py:63-70 | Profiler.ErrorCountIsCount, Profiler.ErrorCountBounded |
| Profiler.MismatchView | scripts/column_profiler.py:82-99 | Profiler.MismatchViewComplete |
| Profiler.AnyDiffers | scripts/column_profiler.py:91 | Compare.CriticalDiffIsAnyDiffers |
| Profiler.MissingRows | scripts/column_profiler.py:126-131 | Profiler.MissingRowsMeaning, Profiler.MissingRowsStatus |
| Profiler.AmountDifferences | scripts/column_profiler.py:133-139 | Profiler.AmountListedSound, Profiler.AmountListedComplete, Profiler.AmountPairListed |
| Compare.MissingBeneficiaries | src/compare.py:25-31 | Compare.BeneficiaryGaps |
| Compare.ExtraBeneficiaries | src/compare.py:35-41 | Compare.BeneficiaryGaps |
| Compare.BeneficiaryMismatches | src/compare.py:44-59 | Compare.BeneficiaryMismatchMeaning, Compare.MismatchPair |
| Compare.CriticalDiff | src/compare.py:55-58 | Compare.CriticalDiffIsAnyDiffers |
| Compare.MissingClaims | src/compare.py:76-82 | Compare.MissingClaimsMeaning |
| Compare.PaymentPairs | src/compare.py:86-96 | Compare.PaymentMismatches |
| Compare.CompareClaims | src/compare.py:71-102 | Compare.AmountViewWithinPayments, Compare.NewOnlyClaimInvisible |
| Claims.RecordStatus | src/transform.py:995-999 | Claims.StatusPartition |
| Claims.ClaimJoin | src/transform.py:1000-1001 | Claims.StatusPartition, Claims.ClaimMatches |
| Claims.CombinedRow | src/transform.py:986-1019 | Claims.MatchedClaimReported, Claims.ReportedRowsHaveNewSide |
| Claims.Kept | src/transform.py:1025-1026 | Claims.ReportedRowsHaveNewSide, Claims.KeptMatchedReported |
| Claims.BusinessRuleView | src/transform.py:986-1019, 1025-1026 | Claims.ReportedOrigin, Claims.ReportedRowsHaveNewSide, Claims.MatchedClaimReported |
| Claims.BusinessRuleReport | src/transform.py:986-1026 | Claims.BusinessRuleReportRows, Claims.PairRowsRepeat |
| Claims.ClaimMismatches | src/transform.py:961-980 | Claims.ClaimMismatchesMeaning |
| Claims.CarrierOrphans | src/transform.py:1028-1053 | Claims.CarrierOrphansMeaning, Claims.OrphanRows |
| Audit.BuildAudit | src/transform.py:491-951 | Audit.OneRowPerKey, Audit.AltAgreesOnSourceKeys |
| Audit.AuditFor | src/transform.py:492-508 | Audit.AuditForUnique |
| Audit.RowsForKey | src/transform.py:948-951 | Audit.RowsForUniqueKey, Audit.NullKeyAllZero |
| Join.FullOuterJoin | src/transform.py:1000-1001 | Join.FullOuterJoinMeaning |
| Join.InnerJoin | src/compare.py:52-54 | Join.InnerJoinMeaning |
| Beneficiaries.OneSided | src/transform.py:88-102 | Beneficiaries.OneSidedMeaning |
| Beneficiaries.DeathRule | src/transform.py:100-102 | Beneficiaries.PairCondition |
| Beneficiaries.BeneficiaryErrors | src/transform.py:88-117 | Beneficiaries.BeneficiaryErrorsMeaning, Beneficiaries.ErrorReported |
| Beneficiaries.AttributeErrors | src/transform.py:119-142 | Beneficiaries.AttributeErrorsMeaning |
| Beneficiaries.DateDifferences | src/transform.py:144-153 | Beneficiaries.DateDifferencesMeaning, Beneficiaries.DatesAgreeWhenPresent |
| Rules.IsValid | src/transform.py:1013-1017 | Rules.ValidIff |
| Payments.YearOf | scripts/create_payment_views_duckdb.py:61 | Payments.CastYear, Payments.PriceAll |
| Payments.LineValid | scripts/create_payment_views_duckdb.py:63-82 | Payments.Price, Payments.PriceFollowsRule |
| Payments.SlotName | scripts/create_payment_views_duckdb.py:32-50 | Payments.UnpivotByNumber |
| Financial.Reported | src/transform.py:445-455 | Financial.GroupReported, Financial.InViewReported, Financial.ReportedInView |
| Financial.MetricTotal | src/transform.py:424-455 | Financial.ViewForTotal, Financial.DifferenceViewConserves |
| Impact.FamilyVariance | src/transform.py:2879-2900 | Impact.ImpactConserves, Impact.ImpactVariance |
| Impact.MoneyFamily | src/transform.py:2882-2885 | Impact.MoneyFamilyOfName |
| Impact.ImpactView | src/transform.py:2879-2900 | Impact.ImpactListedShares, Impact.ImpactListedFamilies |
| Formula.ValueColumn | scripts/create_payment_views.py:31-32 | Formula.ValueBeforeFirstIf |

## Left out

- `sigma_level` (`src/transform.py:45-49`) is not modelled. It is a fractional `POWER` over doubles, and the SIGMA_LEVEL columns are left out with it.
- Floating point is not modelled: amounts and ratios are exact reals, and NaN is an explicit constructor. DuckDB's double rounding, `round(..., 2)`, the orphan rate's `round(..., 4)` and pandas' `.round(2)` are approximated as follows.
- Impact.Round2: `round(x, 2)` is only bounded to within half a cent of `x`. Ties and binary representation are not modelled.
- Profiler.Percent: the orphan rate and the error percentage are exact. The rounding to four and two decimals is not modelled.
- Quality.DatasetScore: DPMO and YIELD are exact ratios. `CAST(... AS FLOAT)` rounding is not modelled.
- Impact.ImpactView: the variance ordering has no tie-break, so both orders DuckDB picks are parameters: the window's arrangement, constrained to a descending arrangement of the families, and the listed order, constrained to a descending rearrangement of the window's rows. The two are independent, so along the listed order the running share is promised to rise only between families of different variance (`Impact.ImpactListedShares`); tied families may show falling shares (`Pareto.ListedTieFalls`).
- Markdown.MdToHtmlPage: a list interrupted by a heading, a `---` rule or a table, and a list still open at the end of the input, are written without `</ul>`, as the converter writes them (`Markdown.HeadingLeavesListOpen`). Only tables are closed at the end. So the page's lists are in ListsOk order, not necessarily closed.
- Profiler.Analyze: the pandas sort is unstable, so the ranked summary is a parameter, constrained to a descending arrangement.
- The result order of queries without `ORDER BY` is the model's sequence order; the `ORDER BY` of the field tables and of the column view is not modelled.
- Case mapping is ASCII-only. `\d` in the cell-number pattern is read as the ASCII digits.
- General regular-expression semantics are left out. The three `format_inline` rewrites are scanners for their own delimiters, and the family rule is written for its one pattern.
- HTML escaping is not modelled because the converter performs none. Cell and heading text is copied as is.
- The CSS stylesheet of `md_to_html` is a parameter of `Markdown.Prologue`; its text has no logic.
- DB and file plumbing have no logic to verify and are left out: `execute_sql_script`, connections, sessions, `CREATE INDEX`, `ANALYZE`, `VACUUM`, view persistence, `print` and logging. The same goes for `get_row_counts` and `run_comparison` in `src/compare.py`, and for the module-level connection in `scripts/column_profiler.py:5-12`.
- DB exceptions are modelled only where they change the result: the fallback to the alternative carrier path and the failed YEAR cast. Other failures abort and are left out.
- Claims.RuleRows: lists each kept claim once. The view itself repeats a claim once per pairing of lookup matches on both summary sides (`src/transform.py:1020-1023`); that multiplicity is modelled by `Claims.BusinessRuleReport`, and the lemmas about the rule view speak of which rows appear, not how often.
- Payments.CastYear: decimal points, exponents, digit separators and hexadecimal prefixes, which DuckDB's integer cast also accepts, are read as conversion errors. Within four characters they can only matter for dates such as `'1.5 '` or `'1e3'`.
- The column naming of views (`src_`, `new_`, `_DIFF` suffixes) and the duplicate `CLM_FROM_DT` column name of the single-statement carrier build are left out.
- `UNPIVOT` is modelled as dropping NULL flags. Column order within a dataset is the audit table's.
- The equality of `view_calc_src_payments` and `view_calc_new_payments` on equal inputs needs no lemma: both are `Payments.PaymentView` applied to a table.
- `compare_beneficiaries` and `compare_claims` return pandas samples (`head()`); only the counts and the row sets are modelled.
- Empty key lists in `analyze_migration_full` raise `IndexError` at `join_keys[0]`; the model returns no analysis (`Profiler.Analyze` is `None`).
- Implicit casts between value types are left out. Values compare structurally, so each column is taken to hold one type, as the schema declares.
- Beneficiaries.TextLe3: DuckDB's collation is taken to be code-point order on text.

## Findings

| source | as written | input that shows it | evidently intended | confidence | as-written member | corrected member |
|---|---|---|---|---|---|---|
| src/transform.py:2704 | carrier opportunities are `COUNT(*) * 102` while the `+` chain sums 138 slot flags | one audit row with all 138 slot flags 1: 138 defects against 102 opportunities, DPMO about 1 352 941 and YIELD about -0.35 | 138 opportunities per claim, as the beneficiary view uses 31 for its 31 flags | not executed; high | Quality.CarrierAsWrittenExceedsBound | Quality.CarrierScoreBounded |
| src/transform.py:406-419 | the financial tables join each side on the key plus birth date, death date, sex and race (carrier: the four claim columns), while the difference view groups by `DESYNPUF_ID, YEAR` | one beneficiary-year whose race code changed and whose `MEDREIMB_IP` went from 100 to 200: two one-sided rows, NULL deltas, the view omits it | join on the key the view groups by, so the money difference is reported | not executed; medium | Financial.WideKeyHidesDifference | Financial.NarrowKeyKeepsDifference |
| convert_report_to_html.py:163-211 | a `|---` separator line inside a table skips every table branch and is written as `<p>|---|</p>` inside `<tbody>` | the lines `| a |` and `|---|` | separator lines are dropped, as the `'|---'` guards at lines 163 and 172 show | not executed; high | Markdown.SeparatorInTableAsWritten | Markdown.PipeTableOnlyRows |
