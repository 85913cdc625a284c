# Car crash analysis: a Dafny model of the query algebra

`CarCrashAnalysis` loads six CSV tables of US car-crash records into Spark:

- primary persons
- units (vehicles)
- charges
- damages
- endorsements
- restrictions

It then answers eight questions by composing dataframe queries, and
`execute_analysis` appends each answer to a report before writing it out.

This project models those queries over in-memory relations. It proves what each answer means in terms of the input rows.

## Representation

A table is a sequence of rows. A row maps a column name to a cell. Every CSV column is read as text, so a cell is `Option<string>`, and `None` is Spark's null.

Filters follow SQL's three-valued logic. A comparison, `isin`, `~isin` or `contains` on a null cell drops the row.

Text columns used as numbers go through an explicit coercion, `ParseInt`. Where a column is compared with an integer literal, as in `DEATH_CNT > 0`, the cast is to a 32-bit integer (`CastInt32`), so a number outside that range is null. If a cell does not parse:

- a comparison on it fails;
- a sum that includes it is null;
- a null sum sorts last in a descending order.

The modules follow the structure of the queries:

| module | file | content |
|---|---|---|
| `Cells` | `cells.dfy` | cells and rows, the filter predicates, `contains`, the text-to-number coercion |
| `Query` | `query.dfy` | `filter`, `select`, `limit`, `distinct`, the inner and left equi-joins on `CRASH_ID` |
| `Grouping` | `grouping.dfy` | `groupBy(key).agg(count(col))`: one pass that bumps a table of groups, proved equal to a reference count |
| `Ranking` | `ranking.dfy` | descending sort, top-`n` keys of a group table, `row_number()` over a window |
| `CrashAnalysis` | `analyses.dfy` | the eight analyses |
| `Report` | `report.dfy` | `execute_analysis`: the eight answers in order, or the error that aborts the run |

### Joins

A join yields pairs of rows. A column reference qualified with a table, such as `charges_use_df.CHARGES`, is therefore read from that side of the pair.

A null join key matches nothing. A left join pairs an unmatched left row with `None`.

Analysis 8's three-way join is `((unit, charge), person)`. The persons are joined on the merged key, which is the unit's `CRASH_ID`.

### Sorting

Spark's sort is not stable. `SortDesc` is therefore specified only as a descending permutation of its input, and no property depends on how ties are ordered.

A "top `n`" answer is stated as `IsTopRanking`. It holds when:

- the answer has at most `n` distinct keys, and each one occurs in the relation;
- the keys are in non-increasing order of their reference count;
- every key left out counts no more than the last key returned;
- the answer has fewer than `n` keys only when every key is returned.

### Where the code and its doc-comments disagree

The model follows the code. The behaviour the doc-comment promises is a separate, separately named function.

- **Analysis 3.** The code counts female person *rows* per licence state, so a crash with three female occupants counts three times. It also takes `collect()[0]`, which fails when there is no female row.
  - `StateWithMostFemaleRows` models the code.
  - `StateWithMostFemaleCrashes` counts distinct crashes and returns no state on empty input.
- **Analysis 5.** The code returns every (body style, ethnicity, count) triple, as its own comment admits. It never reduces them to the top ethnicity per style.
  - `EthnicityTriples` models the code.
  - `TopEthnicityPerStyle` is the reduction the doc-comment asks for.
- **Analysis 7.** The code returns the list of distinct crash ids, not a count.
  - `HighDamageCrashIds` models the code.
  - `DistinctHighDamageCount` is the count.
- **Analysis 7's null test.** The filter's first operand is the bound method `isNull` rather than its call.
  - The model uses the test that was evidently meant: the damage side of the left join is absent (`DamageAbsent`).

In these further places the model also follows the code as written, where a cleaner reading of the question would differ:

- **Analysis 6** counts joined (person, unit) rows per zip code with `count("CRASH_ID")`, not distinct crashes.
- **Analysis 4** numbers rows with `row_number()`, so tied rows get consecutive numbers rather than a shared dense rank.
- **Ties** in every ranking are left in whatever order the engine's sort produces, rather than in first-encountered order.
- **Empty intermediate results** do not always give an empty answer: analysis 3 fails on one, and that failure aborts the whole run before anything is written.

## Model

| member | source | states |
|---|---|---|
| Cells.ParseInt | car_crash_analysis.py:51 | a cell's text coerces to a number exactly when it is an optional minus sign followed by digits; a digit string coerces to a non-negative number |
| Cells.ParseIntRoundTrip | car_crash_analysis.py:78-79 | every integer written in decimal coerces back to itself |
| Cells.CastInt32 | car_crash_analysis.py:51 | the cast for a comparison with an integer literal yields a number only when the text parses to a value in the 32-bit range, and then that value |
| Cells.CastInt32RoundTrip | car_crash_analysis.py:51 | a decimal spelling casts back to its number when that number fits in 32 bits, and to null otherwise |
| Cells.SubstringHasPosition | car_crash_analysis.py:148 | `contains(sub)` holding means `sub` sits at some position of the text |
| Cells.SubstringAt | car_crash_analysis.py:148 | `sub` sitting at any position of the text makes `contains(sub)` hold |
| Query.Filter | car_crash_analysis.py:51-52 | a row is kept exactly when it is in the table and satisfies the condition, and the result is no longer than the table |
| Query.FilterAppend | car_crash_analysis.py:51-52 | filtering a concatenation is the concatenation of the filtered parts, so filtering preserves row order |
| Query.Select | car_crash_analysis.py:70 | `select` yields one value per row, in the same order: the i-th is the projection of the i-th row |
| Query.Take | car_crash_analysis.py:80 | `limit(n)` keeps the first `n` rows, or all rows when there are fewer |
| Query.FilterSubMultiset | car_crash_analysis.py:118-122 | a filter keeps a sub-multiset of the rows |
| Query.Distinct | car_crash_analysis.py:122 | `distinct()` holds each value of its input once and nothing else |
| Query.Join | car_crash_analysis.py:92-93 | the inner join holds exactly the pairs of a left row and a right row whose crash ids are equal and non-null |
| Query.JoinMultiplicity | car_crash_analysis.py:92-93 | each matching pair occurs once per pairing of the two rows' occurrences, so duplicates multiply; a non-matching pair never occurs |
| Query.LeftJoin | car_crash_analysis.py:118 | the left join holds every matching pair, and pairs a unit with the absent marker exactly when no damage row matches it |
| Query.NoDuplicatesCardinality | car_crash_analysis.py:122 | a duplicate-free list of ids is as long as the set of those ids |
| Grouping.GroupCount | car_crash_analysis.py:69 | `groupBy(key).agg(count(col))` has one group per key occurring in the table, counting that key's rows whose counted column is non-null |
| Grouping.GroupCountLookup | car_crash_analysis.py:69 | the group table agrees with the reference count on every key, including keys that do not occur, which count 0 |
| Ranking.SortDesc | car_crash_analysis.py:79-80 | `orderBy(desc)` returns a permutation of its input in non-increasing order, with nulls last |
| Ranking.LimitKeepsHighest | car_crash_analysis.py:78-80 | `orderBy(desc).limit(n)` keeps a sub-multiset of the rows, and no row left out ranks above a row kept |
| Ranking.DropHighest | car_crash_analysis.py:81-82 | dropping the first rows of a descending order leaves a descending order, and every dropped row ranks at least as high as every kept row |
| Ranking.NumberFrom | car_crash_analysis.py:81-82 | `row_number()` over the descending window pairs the i-th row (from 0) with the number `first + i`, one number per row |
| Ranking.RowsBetweenSlice | car_crash_analysis.py:81-82 | numbering rows from 1 and keeping numbers `lo` to `hi` yields the rows at positions `lo - 1` up to `hi`, cut at the table's end |
| Ranking.TopOfRanked | car_crash_analysis.py:135-137 | the first `n` keys of a descending group table are a top-`n` ranking of that table |
| Ranking.TopKeysOfRelation | car_crash_analysis.py:135-137 | grouping, counting, sorting, taking `n` and selecting the key gives a top-`n` ranking of the relation by its reference count |
| Ranking.TopKeysWhereOfRelation | car_crash_analysis.py:140-143 | filtering the sorted groups on their key before the limit gives a top-`n` ranking among the keys that pass the filter |
| Ranking.TopKeyOfRelation | car_crash_analysis.py:68-70 | the first key exists exactly when the relation has a row, occurs in it, and no key counts more |
| CrashAnalysis.CountWhere | car_crash_analysis.py:51-52 | `filter(p).count()` is at most the number of rows, and 0 exactly when no row satisfies `p` |
| CrashAnalysis.CountWhereAppend | car_crash_analysis.py:60-61 | an added row raises `filter(p).count()` by one exactly when it satisfies `p` |
| CrashAnalysis.HasDeathsSpelled | car_crash_analysis.py:51 | a death count written in decimal passes `DEATH_CNT > 0` exactly when it is positive and at most 2147483647 |
| CrashAnalysis.MaleFatalities | car_crash_analysis.py:51-52 | the count is at most the number of person rows, and it is 0 exactly when no row is male with a death count that parses to a positive number |
| CrashAnalysis.MaleFatalitiesAppend | car_crash_analysis.py:51-52 | an added person row raises the count by one exactly when it is a male fatality |
| CrashAnalysis.MaleFatalitiesExample | car_crash_analysis.py:51-52 | two male rows with death counts "1" and "0" count 1 |
| CrashAnalysis.TwoWheelers | car_crash_analysis.py:60-61 | the count is 0 exactly when no unit's body style is MOTORCYCLE or POLICE MOTORCYCLE |
| CrashAnalysis.TwoWheelersAppend | car_crash_analysis.py:60-61 | an added unit raises the count by one exactly when it is a two-wheeler |
| CrashAnalysis.TwoWheelersExample | car_crash_analysis.py:60-61 | MOTORCYCLE, SEDAN and POLICE MOTORCYCLE count 2 |
| CrashAnalysis.StateWithMostFemaleRows | car_crash_analysis.py:68-70 | fails exactly when there is no female person row; otherwise returns the licence state of some female row, and no state has more female rows with a crash id |
| CrashAnalysis.StateWithMostFemaleCrashes | car_crash_analysis.py:64-67 | the doc-comment's variant: no state exactly when there is no female row; otherwise some female row's state, and no state has more distinct crashes with a female involved |
| CrashAnalysis.FemaleCrashCountIsDistinct | car_crash_analysis.py:64-69 | the variant's count for a state is the number of distinct non-null crash ids among that state's female rows |
| CrashAnalysis.Severity | car_crash_analysis.py:78-79 | `TOT_INJRY_CNT + DEATH_CNT` is null exactly when either column does not parse |
| CrashAnalysis.SeveritySpelled | car_crash_analysis.py:78-79 | two counts written in decimal sum to their total |
| CrashAnalysis.Top15ByInjury | car_crash_analysis.py:78-80 | fifteen units, or all of them, taken from the table, and no unit left out has a higher injury-plus-death total than a unit kept |
| CrashAnalysis.InjuryRanked5To15 | car_crash_analysis.py:81-82 | the fifteen less their four highest: at most eleven units, in non-increasing total, each ranking no higher than the four skipped |
| CrashAnalysis.TopInjuryMakes | car_crash_analysis.py:82-83 | at most eleven makes, the i-th being the make of the i-th ranked unit |
| CrashAnalysis.EthnicityTriples | car_crash_analysis.py:92-94 | one triple per (body style, ethnicity) pair that a unit and a person of the same crash carry, and nothing else; each counts that pair's joined rows whose ethnicity is non-null |
| CrashAnalysis.Best | car_crash_analysis.py:89 | the chosen group is in the list and no group in it has a larger count |
| CrashAnalysis.TopEthnicityPerStyle | car_crash_analysis.py:87-91 | the doc-comment's variant: exactly one triple per body style occurring in the join, and none of that style's triples counts more |
| CrashAnalysis.AlcoholCrashRows | car_crash_analysis.py:103-106 | a (person, unit) pair is kept exactly when both share a non-null crash id, the unit is a 2- or 4-door passenger car and the person's alcohol result is Positive |
| CrashAnalysis.TopAlcoholZips | car_crash_analysis.py:103-108 | a top-5 ranking of driver zip codes by their number of kept pairs |
| CrashAnalysis.HighDamageCrashIds | car_crash_analysis.py:117-122 | each crash id once, and exactly the ids of units that have no damage record, both damage levels among DAMAGED 4 to DAMAGE 7 HIGHEST, and a financial responsibility present and not NA |
| CrashAnalysis.DistinctHighDamageCount | car_crash_analysis.py:112-122 | the doc-comment's count: the number of distinct crash ids of such units |
| CrashAnalysis.TopColours | car_crash_analysis.py:135-138 | a top-10 ranking of unit colours by their number of units with a crash id |
| CrashAnalysis.TopStates | car_crash_analysis.py:140-144 | a top-25 ranking, by number of person rows, among licence states that are present and neither NA nor Unknown |
| CrashAnalysis.SpeedingOffences | car_crash_analysis.py:146-151 | a (unit, charge, person) triple is kept exactly when all three share the unit's non-null crash id, the charge contains SPEED, the licence class is present and valid, the state is a top state and the colour a top colour |
| CrashAnalysis.TopSpeedingMakes | car_crash_analysis.py:146-153 | a top-5 ranking of makes by their number of kept triples, and no make at all when there are no charges |
| Report.Append | car_crash_analysis.py:53 | an answer appended to the report keeps the earlier fragments and lands at its analysis's position |
| Report.ExecuteAnalysis | car_crash_analysis.py:186-221 | with analysis 7's absent-damage test as intended, the run fails exactly when there is no female person row, because analysis 3 aborts it; otherwise the report holds the eight answers in analysis order |

## Left out

- Spark session, configuration file, CSV loading and header handling: I/O. The tables are parameters of `Report.ExecuteAnalysis`.
- Writing, removing and printing the output file, and the exception handlers' messages: I/O. A failing run is modelled as a `Failure` result that carries no report.
- The label text of each report line, and the formatting of rows returned by `collect()`: presentation only. A fragment is the analysis number and its answer.
- The endorsements and restrictions tables: they are loaded but no analysis reads them.
- Cells.ParseInt: Spark coerces the text implicitly: to a double in the sum of analysis 4, and to the other operand's type in the comparison of analysis 1 (modelled as `Cells.CastInt32`). Those casts accept forms such as surrounding spaces, a `+` sign or decimals. The model accepts only an optional minus sign followed by digits, and any other text is treated as null. Floating point is outside the model.
- CrashAnalysis.Severity: the sum of analysis 4 is a double in Spark, and the model does not follow it in two ways. First, the cast accepts "NaN" and "Infinity", and Spark orders both above every finite number, so such a unit sorts first in Spark. In the model it is null and sorts last. Second, counts beyond 2^53 lose precision in Spark, but the model adds them exactly.
- Ranking.SortDesc: the order of tied rows is left unspecified because the engine does not fix it. No property states which of several tied keys a top-`n` answer keeps, only that they tie.
- Query.Distinct: Spark does not fix the order of `distinct()` output. The model keeps first occurrences, and only its membership and duplicate-freedom are stated.
- CrashAnalysis.HighDamageCrashIds: the filter of `count_distinct_crash_ids_with_damages` uses the method object `isNull` uncalled. What Spark does with that operand is not modelled; the model uses the absent damage row that the condition evidently meant.
- Report.ExecuteAnalysis: its success case assumes that analysis 7 applies its intended absent-damage test. As written, the uncalled `isNull` at line 119 hands a Python method to Spark's `&`, which most plausibly raises. `execute_analysis` re-raises that error, so every run that reaches analysis 7 would then fail and write nothing. The model does not capture that failure.
- Partitioning, parallel execution and the single-partition window warning: concurrency and performance, with no effect on the answers modelled.
