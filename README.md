# stylusdb query execution, modelled in Dafny

This project models the query-execution core of stylusdb, a small in-memory
SQL engine written in JavaScript. The model covers:

- the WHERE evaluator, `evaluateCondition`;
- the three joins and the row builder they share;
- the SELECT pipeline after the tables are loaded: join, filter, whole-table
  aggregate, GROUP BY, ORDER BY, exact COUNT(DISTINCT ...), projection,
  DISTINCT and LIMIT;
- the body of INSERT;
- the filter step of DELETE.

Parsing and CSV storage are outside the model. A statement arrives as its
parsed descriptor (`Select.Query`, `Insert.InsertStatement`, a clause list).
The loaded tables arrive as `seq<Row>`. Each operation returns the rows it
would write, or the answer it would return.

Values follow JavaScript rather than SQL:

- A row is `map<string, Value>`.
- A `Value` is a string, a number, `null` or `undefined`. A missing key reads
  as `undefined`.
- Numbers are integers plus `NaN` and the two infinities.
- Truthiness, `||`, `===`, the mixed-kind `<`, `isNaN`, `parseFloat`,
  `parseInt`, `String(...)` and `Array.prototype.join` are written out in
  `JsValues` and `JsText`.

Every exception the core can throw is a `Failure` of `JsValues.Error`:

- an unsupported operator;
- an unsupported join type;
- a missing INSERT value, which in JavaScript is a `TypeError` from reading a
  value past the end of the list.

SELECT wraps its failures in `QueryExecution`, as its `catch` does.

Modules:

| module | models |
|---|---|
| `Condition` | `evaluateCondition`, `every`, and the `filter` over it |
| `Delete` | the DELETE filter |
| `Joins` | `performInnerJoin`, `performLeftJoin`, `performRightJoin`, `getValueFromRow`, `createResultRow` (a method with both loops) |
| `Keyed` | joined group and DISTINCT keys, and first-appearance order |
| `Aggregates` | the aggregate regular expressions and the whole-table aggregate row |
| `GroupBy` | `applyGroupBy` (methods over the running dictionary), proved against a per-group fold |
| `Ordering` | the ORDER BY comparator and a stable sort |
| `Select` | `executeSELECTQuery` (method `ExecuteSelect`, with the DISTINCT `Map` as a loop) against the function `Select` |
| `Insert` | `executeINSERTQuery` (method `ExecuteInsert`) against the function `InsertResult` |

Where the code and its stated intent disagree, the model follows the code:

- DELETE with no WHERE clauses writes the table back unchanged. It does not
  delete every row.
- INSERT pushes the synthesised id's text at the end of the values list. So the
  new `id` cell holds that text only when the statement has as many values as
  columns. With more values than columns, the cell holds the first surplus
  value.

## Model

| member | source | states |
|---|---|---|
| Condition.Evaluate | src/index.js:193-227 | fails exactly for an operator outside LIKE, =, !=, >, <, >=, <=, with UnsupportedOperator(op); LIKE matches the raw cell text against the pattern |
| Condition.Convert | src/index.js:199-202 | a side that `isNaN` keeps its raw value; any other side becomes a number |
| Condition.Compare | src/index.js:211-226 | the switch fails exactly on an operator it does not list |
| Condition.Every | src/index.js:60 | `every` is true iff all outcomes are true; false iff a false comes before any error; otherwise the first error is raised |
| Condition.FilterOutcomes | src/index.js:57-62 | succeeds iff every predicate call succeeds, otherwise raises one of their errors; the result is an order-preserving subsequence in which each row occurs exactly as often as it occurs at positions whose predicate gave the kept answer |
| Condition.KeptCountByClauses | src/index.js:57-62 | the positions the clause conjunction keeps hold a row as often as the table does when it satisfies the conjunction as required, and never otherwise |
| Condition.LikeConcat | src/index.js:205-208 | a pattern split in two matches a text iff the text splits into two parts that match the two halves |
| Condition.LikePercent | src/index.js:205-206 | `%` alone matches every text without a line terminator, the empty text included |
| Condition.LikeLiteral | src/index.js:205-207 | a pattern without `%` or `_` matches exactly the texts equal to it ignoring ASCII case |
| Condition.LikePrefixPercent | src/index.js:205-207 | `c%` matches exactly the texts that start with c in either case |
| Condition.LikeUnderscoreInside | src/index.js:205-207 | `_` matches exactly one character |
| Condition.ConvertIntLiteral | src/index.js:199-202 | an integer literal converts to its value |
| Condition.NumericSidesCompareAsNumbers | src/index.js:199-223 | two numeric sides compare as numbers |
| Condition.CompareNumbers | src/index.js:211-223 | on two finite numbers each operator is the integer comparison it names |
| Condition.CompareTextNumber | src/index.js:211-223 | a text that does not read as a number, against a finite number, satisfies only `!=` |
| Condition.TextSideAgainstNumber | src/index.js:199-223 | a non-numeric text against a numeric literal satisfies only `!=` |
| Condition.CompareNumberText | src/index.js:211-223 | a finite number against a text that does not read as a number satisfies only `!=` |
| Condition.NumberSideAgainstText | src/index.js:199-223 | a numeric text side against a literal that does not read as a number satisfies only `!=` |
| Condition.TextSidesCompareAsText | src/index.js:212-219 | two non-numeric texts compare as text: `=` is equality, `<` and `>` are code-unit order |
| Condition.ShortCircuit | src/index.js:60 | a false first clause stops the evaluation, so a later bad operator is never raised |
| Condition.FilterNoClauses | src/index.js:57-62 | with no clauses, the kept rows are all rows |
| Condition.FilterAllKept | src/index.js:57-62 | when every row gives the kept answer, the filter returns its input |
| Condition.FilterNoneKept | src/index.js:57-62 | when no row gives the kept answer, the filter returns nothing |
| Delete.ExecuteDelete | src/deleteQuery.js:8-12 | no clauses keeps the table; otherwise the survivors are an order-preserving subsequence holding every row for which not every clause holds as often as the table does, and no other row; fails exactly when some row's evaluation fails, with that row's error |
| Delete.DeleteIdempotent | src/deleteQuery.js:9 | deleting twice with the same clauses is the same as deleting once |
| Delete.NoClausesKeepsEveryRow | src/deleteQuery.js:8-12 | with no clauses no row is deleted, although filtering by `!every` would delete them all |
| Delete.NonNumericAgeSurvives | src/deleteQuery.js:21-24 | `age > n` is false for a non-numeric age, so that row survives |
| Delete.UnsupportedOperatorRaised | src/deleteQuery.js:46-47 | an unknown operator raises UnsupportedOperator on a non-empty table |
| Joins.GetValueFromQualified | src/joins.js:62-65 | for `t.f`, the result is `Or(row["t.f"], row["f"])`, the JavaScript logical or |
| Joins.OuterMatches | src/joins.js:22-26 | an order-preserving subsequence of the join table, as long as the number of matching join rows, holding each row whose compared values are strictly equal as often as the join table does, and no other row |
| Joins.InnerJoinSize | src/joins.js:1-17 | the output length is the number of strictly equal (left, right) pairs |
| Joins.InnerJoinAppend | src/joins.js:2 | the output is in left-major order: joining a concatenation concatenates the outputs |
| Joins.InnerMatchesAppend | src/joins.js:3-16 | within one left row, the matches are in right-table order |
| Joins.InnerJoinMembers | src/joins.js:1-17 | an output row is exactly the projection of some strictly matching pair |
| Joins.InnerRowQualified | src/joins.js:10-15 | an inner row has exactly the projected fields as keys; `t.f` comes from the left row iff t is the main table |
| Joins.InnerRowUnqualified | src/joins.js:11-13 | an unqualified field reads the key `undefined`, since its split has no second part |
| Joins.LeftRows | src/joins.js:28-34 | no matches gives one row with no join row; otherwise one row per match, in order |
| Joins.LeftJoinSize | src/joins.js:20-36 | each left row contributes max(1, number of matching join rows) output rows, counted independently of the matching; so the output is at least as long as the left table |
| Joins.LeftJoinCoversMainRows | src/joins.js:20-36 | every left row appears, padded or with a match |
| Joins.LeftJoinContains | src/joins.js:21-35 | every row a main row contributes appears in the output |
| Joins.FirstTrue | src/joins.js:48-52 | `find`: the first matching position, or none |
| Joins.RightJoinSize | src/joins.js:47-59 | exactly one output row per right row |
| Joins.RightJoinRow | src/joins.js:47-59 | the i-th row pairs the i-th right row with the first matching left row, or with the stand-in when none matches |
| Joins.CreateResultRow | src/joins.js:67-98 | the two loops build exactly `ResultRow` |
| Joins.MainFieldEntries | src/joins.js:76-82 | the first loop puts every main-row key under `table.key` |
| Joins.ResultRowShape | src/joins.js:76-95 | the keys are the prefixed main keys plus the projected fields; a prefixed key no projected field overrides keeps the main value |
| Joins.ProjectedFieldSource | src/joins.js:85-95 | an unqualified field comes from the main row; a field of another table comes from the join row, or is null without one |
| Keyed.Members | src/index.js:232-245 | a group's rows: an order-preserving subsequence of the table holding exactly the rows with that key; non-empty iff some row has the key |
| Keyed.MembersOccurrences | src/index.js:232-245 | a group holds every row with its key as often as the table does, and no other row |
| Keyed.DistinctKeys | src/index.js:147-155 | the keys in first-appearance order, each once, and no others |
| Keyed.LastWithKey | src/index.js:148-153 | the row a Map keeps for a key has that key (last write wins) |
| Keyed.KeySet | src/index.js:150 | the set of listed keys is the set of the rows' keys |
| Aggregates.WordRun | src/index.js:70 | the length of the leading run of `\w` characters |
| Aggregates.SearchFrom | src/index.js:70 | a match found by the regular expression has a word name, and a word argument unless `*` is allowed |
| Aggregates.ParseCallOfCall | src/index.js:70 | `NAME(field)` with word parts parses to that call |
| Aggregates.ParseCallOfStar | src/index.js:70 | `NAME(*)` parses when `*` is allowed |
| Aggregates.AggregateRowEntries | src/index.js:69-103 | the row has exactly the fields whose aggregate is COUNT, SUM, MIN or MAX, each with its value |
| Aggregates.AggregateCount | src/index.js:74-75 | `COUNT(x)` is the number of filtered rows |
| Aggregates.AggregateSum | src/index.js:77-81 | with numeric cells, `SUM(x)` is the total of the column |
| Aggregates.SumValue | src/index.js:77-81 | `SUM(x)` is the fold of `+` over the parsed cells from 0 |
| Aggregates.SumOfFinite | src/index.js:78-80 | over finite numbers, the fold is the integer total |
| Aggregates.MinMaxBounds | src/index.js:90-98 | without NaN, MIN and MAX are members bounding every cell; on no rows they are Infinity and -Infinity |
| Aggregates.MinMaxNaN | src/index.js:90-98 | one NaN cell makes MIN and MAX NaN |
| GroupBy.AbsorbRow | src/index.js:245-272 | the per-row loop over the aggregate list is the fold `Absorb` |
| GroupBy.CountRow | src/index.js:232-273 | one row keeps the dictionary and its insertion order in step with the rows seen |
| GroupBy.CollectGroups | src/index.js:230-273 | after the rows, the dictionary holds, for every key, the fold of that key's rows, and its order is first appearance |
| GroupBy.EmitGroups | src/index.js:276-303 | the output loop gives exactly `GroupRows` |
| GroupBy.ApplyGroupBy | src/index.js:229-304 | the method's result is `GroupRows`: one row per distinct key in first-appearance order, each built from the fold over that key's rows only |
| GroupBy.GroupRows | src/index.js:276 | one output row per distinct key |
| GroupBy.GroupRowsCount | src/index.js:234-242 | the row count is the number of distinct hyphen-joined keys |
| GroupBy.GroupOrder | src/index.js:232-276 | groups come out in first-appearance order: an earlier group's key occurs before any row of a later group |
| GroupBy.GroupRowOf | src/index.js:276-303 | the k-th row is the final row of the fold over the k-th key's members |
| GroupBy.FoldCount | src/index.js:245 | folding rows adds their number to the count and leaves the group fields alone |
| GroupBy.FinalRowEntries | src/index.js:279-300 | the output has the group fields and the recognised aggregates, and nothing else |
| GroupBy.GroupCount | src/index.js:245-295 | `COUNT(x)` is the number of rows with that key |
| GroupBy.GroupField | src/index.js:239-279 | a group field holds the value of the group's first row |
| GroupBy.GroupSum | src/index.js:253-286 | with numeric cells, `SUM(x)` is the group's own total, times the number of times `SUM(x)` is listed |
| GroupBy.FoldSum | src/index.js:253-256 | folding rows adds the listed-times multiple of their total to the running sum |
| GroupBy.AddAllSum | src/index.js:246-256 | one row adds its cell once per listed `SUM(x)` |
| GroupBy.RowTotalIsTotal | src/index.js:250-255 | the running total equals the total of the readings, and it stays finite iff every reading is |
| GroupBy.FinalSum | src/index.js:285-286 | the output `SUM(x)` is the running slot |
| GroupBy.MinMaxStep | src/index.js:257-267 | the new MIN (MAX) is min(old, v) (max(old, v)) when the old slot is truthy, and v otherwise |
| GroupBy.MinForgetsZero | src/index.js:257-262 | a stored MIN of 0 counts as unset and is replaced by the next value |
| GroupBy.MaxForgetsZero | src/index.js:263-268 | a stored MAX of 0 counts as unset and is replaced by the next value |
| Ordering.OrderCompare | src/index.js:113-119 | the comparator gives -1, 0 or 1, and 0 with no keys |
| Ordering.OrderCompareAntisymmetric | src/index.js:113-119 | swapping the rows negates the comparison |
| Ordering.SortRows | src/index.js:113-135 | sorting keeps the length |
| Ordering.SortPermutes | src/index.js:113-135 | sorting permutes the rows |
| Ordering.SortInOrder | src/index.js:113-135 | after sorting, no adjacent pair compares as out of order |
| Ordering.SortKeepsOrderedRows | src/index.js:113-135 | rows already in comparator order are returned unchanged |
| Ordering.SortStable | src/index.js:113-135 | the sort is stable: if every occurrence of a row x precedes every occurrence of a different row y and x does not compare above y (in particular when they tie), the same holds after sorting |
| Select.Joined | src/index.js:40-55 | no join leaves the table; a join fails exactly for an unknown type, with UnsupportedJoinType |
| Select.FilterKeepsMatchingRows | src/index.js:57-62 | the filtered rows are an order-preserving subsequence of the joined rows holding every row on which every clause holds as often as the joined rows do, and no other row |
| Select.ProjectNarrowing | src/index.js:160-167 | projecting onto a subset of already projected fields gives the same rows as projecting onto that subset directly |
| Select.AggregateAnswer | src/index.js:65-105 | the whole-table aggregate returns one row whose `COUNT(x)` is the number of filtered rows |
| Select.GroupedAnswer | src/index.js:107-124 | the grouped answer is a permutation of the groups, one per distinct key, and the groups unchanged without ORDER BY |
| Select.CountDistinctAnswer | src/index.js:147-155 | exact COUNT(DISTINCT) is one row holding the number of distinct bar-joined keys |
| Select.Deduplicated | src/index.js:171-180 | as many rows as distinct keys |
| Select.DeduplicatedUnique | src/index.js:171-180 | no two DISTINCT rows share a bar-joined key |
| Select.DeduplicatedCovers | src/index.js:171-180 | every kept row is an input row, and every input row's key is kept |
| Select.DeduplicatedCount | src/index.js:171-180 | the DISTINCT row count is the number of distinct keys |
| Select.Deduplicate | src/index.js:172-179 | the Map loop gives exactly `Deduplicated` (first-seen order, last write wins) |
| Select.MapHoldsStep | src/index.js:173-178 | one Map write keeps key order and last-written row in step with the rows seen |
| Select.Slice | src/index.js:182-185 | `slice(0, n)`: the prefix of length min(n, length), or length + n for a negative n |
| Select.DistinctAnswer | src/index.js:171-180 | with DISTINCT, no two answer rows share a key |
| Select.LimitAnswer | src/index.js:182-185 | with LIMIT n, the answer is the prefix of length min(n, m) of the unlimited answer |
| Select.UnknownJoinTypeRaised | src/index.js:52-191 | an unknown join type fails, wrapped as a query error |
| Select.UnknownOperatorRaised | src/index.js:224-226 | an unknown WHERE operator fails, wrapped as a query error |
| Select.FastCountAnswer | src/index.js:27-35 | approximate COUNT(*) with no WHERE goes to the table estimate |
| Select.ExecuteSelect | src/index.js:8-192 | the method returns exactly `Select` |
| Insert.Ids | src/queryExecutor.js:11 | exactly the integers some row reads as |
| Insert.Largest | src/queryExecutor.js:12 | `Math.max`: a member at least every id |
| Insert.NextFresh | src/queryExecutor.js:11-13 | the next id is above every parsed id and one more than one of them, or 1 when none parses |
| Insert.InsertedId | src/queryExecutor.js:8-50 | an id is returned iff there is no `id` column, the table is non-empty and its first row has `id`; it is the next id |
| Insert.IndexOf | src/queryExecutor.js:22 | `indexOf`: the first position, or -1 exactly when absent |
| Insert.StripQuotes | src/queryExecutor.js:25-27 | one pair of enclosing quotes is removed; anything else is kept, a lone `'` included |
| Insert.BuildRow | src/queryExecutor.js:19-32 | the header loop fails exactly when a header picks a column with no value; otherwise it gives exactly the row of all headers |
| Insert.CollectReturning | src/queryExecutor.js:41-46 | the loop builds exactly the RETURNING map |
| Insert.ExecuteInsert | src/queryExecutor.js:8-52 | the method returns exactly `InsertResult` |
| Insert.TableGrows | src/queryExecutor.js:35 | the table grows by one row at the end, with the earlier rows unchanged |
| Insert.NewRowKeys | src/queryExecutor.js:19-21 | the new row's keys are the first row's keys, or the columns for an empty table |
| Insert.NewRowCells | src/queryExecutor.js:22-31 | a supplied header stores its value without one pair of quotes; an unsupplied one is "" |
| Insert.SynthesizedIdStored | src/queryExecutor.js:14-27 | with a synthesised id, the `id` cell is its text when there are as many values as columns |
| Insert.SynthesizedIdReadsBack | src/queryExecutor.js:11-15 | the stored id text reads back as the id |
| Insert.MissingValueRaised | src/queryExecutor.js:22-25 | INSERT fails exactly when some header's column index is past the values |
| Insert.ReturningContents | src/queryExecutor.js:41-46 | the RETURNING map has exactly the requested columns, each holding the new row's value |
| JsValues.NumberAdd | src/index.js:78-80 | finite numbers add; NaN is absorbing |
| JsValues.NumberMin | src/index.js:258 | `Math.min`: one of the arguments, the lesser; NaN on NaN |
| JsValues.NumberMax | src/index.js:264 | `Math.max`: one of the arguments, the greater; NaN on NaN |
| JsValues.StrictEqualsNeedsSameKind | src/index.js:213 | `===` holds only between values of the same kind, never for NaN |
| JsValues.LessThanAsymmetric | src/index.js:115-116 | `a < b` and `b < a` never both hold |
| JsValues.ParseFloatAgreesWithParseInt | src/index.js:201 | for text that does not start with Infinity, parseFloat reads the integer prefix |
| JsText.IntToStringParses | src/queryExecutor.js:11-15 | an integer's text parses back as the integer |

## Left out

- Storage: `readCSV`, `writeCSV` and the parsers are not part of this model. Loaded tables are inputs, parsed statements are datatypes, and rows to write are results.
- async/await is left out; each operation is sequential.
- The error message text is left out; errors are `Error` values.
- Floating point is left out: numbers are integers with NaN and the infinities. `parseFloat` reads an optional sign and digits, or `Infinity`; fractions and exponents are not read.
- AVG (src/index.js:83-88) divides, so it needs fractions. `Aggregates.AggregateRow` gives no entry for it.
- Approximate counting (src/index.js:33-34, 140-145) calls `readCSVForHLL` and `hll`, which index.js never imports. The model stops at what would be estimated: `TableEstimate(table)` or `SketchEstimate(column, keys)`. It does not model the estimate, or the ReferenceError the missing imports would raise.
- LIKE is a direct `%`/`_` matcher with ASCII case folding, and `.` does not match line terminators. Other regular-expression metacharacters in a pattern are not modelled.
- Text is a sequence of characters: no UTF-16 surrogates. `JsText.Upper` maps only the ASCII letters, so neither LIKE nor the `joinType.toUpperCase()` switch (src/index.js:42) sees Unicode case mappings: a join type such as `ınner`, with a dotless i, is INNER in JavaScript and an unsupported join type in the model.
- JavaScript whitespace is modelled as space, tab, line feed, carriage return, vertical tab, form feed, no-break space (U+00A0), line and paragraph separator (U+2028, U+2029) and the byte order mark (U+FEFF). The other Unicode space separators (U+1680, U+2000-U+200A, U+202F, U+205F, U+3000) are left out.
- JsText.ParseIntPrefix, JsValues.ParseInt and Insert.IdOf: `parseInt` without a radix reads a `0x`/`0X` prefix as hexadecimal (`parseInt("0x1F")` is 31); the model reads only decimal digits, so it gives 0 for that text.
- JsValues.TextToNumber: `Number` accepts `0x`, `0o` and `0b` literals, so `isNaN("0x1F")` is false and the WHERE conversion then gives `parseFloat("0x1F")`, which is 0; the model treats such a text as not a number and compares it as text.
- JavaScript object key order: integer-like keys enumerate first. The model uses insertion order, which matches only while group keys are not integer-like (src/index.js:276).
- Object keys for group fields named `count`, `sums`, `mins` or `maxes`, and `Object.prototype` names such as `__proto__`, are not modelled.
- The new row's fields form a map, and a returning map is a map. `Object.keys` order of the new row is not modelled.
- A join whose `joinType` is null crashes in `toUpperCase`. The model takes the join type as a string.
- Ordering.SortRows: `Array.prototype.sort` is modelled as a stable insertion sort. JavaScript's `<` is not transitive across strings, numbers and NaN, so the comparator can be inconsistent. Then the engine's order is implementation-defined. So the model proves only adjacent order, plus stability between each pair of rows.
- `Math.min`/`Math.max` spread-argument limits on very large tables are not modelled.
- GroupBy.GroupSum and Aggregates.AggregateSum are stated only for columns whose cells are all numeric; with a NaN or an infinity the running value follows the JavaScript rules, but no closed form is proved.
