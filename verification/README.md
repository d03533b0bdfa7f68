# SQLite cell-value filter compiler

A Dafny model of the SQLite dialect of Teable's cell-value filter
(`CellValueFilterSqlite`). Given a field descriptor (`dbFieldName`,
`cellValueType`, field `type`, `isMultipleCellValue`), an operator tag and an
operand, the dialect

- appends exactly one raw WHERE fragment with its ordered bound parameters to
  the query builder for the operators it overrides — `isNot`,
  `doesNotContain` and `isNoneOf` — coalescing NULL to `''` in each;
- qualifies a column by the filter's table alias (`tableDbFieldName`);
- chooses the JSON expression a filter reads for Link, User, Attachment and
  other fields (`getJsonQueryColumn`), by field kind, multiplicity and operator.

The query builder is an append-only list of `(sql, params)` clauses, so
`whereRaw` is "append". JavaScript operands are a small value datatype
(`null`, booleans, integer-or-NaN numbers, strings, arrays) with `Number(x)`
and `String(x)` written out. A thrown validation error is modelled as an
outcome that carries the error and leaves the builder as it was.

To say what an emitted fragment *means*, `RowSemantics` evaluates a fragment
over one row's cell with SQLite's three-valued logic, and `LikeMatching`
defines SQLite's `LIKE` (`%`, `_`, ASCII case folding, no escape). With them
the model proves that NULL and `''` are indistinguishable to every fragment,
that `doesNotContain v` is case-insensitive substring negation when `v` has no
wildcard, and that it over-matches for every `v` that has one: for each such
`v` there is a cell text that does not contain `v` and is still rejected,
because `%` and `_` in the operand are passed through unescaped, exactly as
the compiler emits them.

Files: `results.dfy` (Option/Result), `js_values.dfy` (JavaScript values and
coercions), `sql_text.dfy` (SQL text pieces, placeholder counting),
`query_builder.dfy` (clauses and builder), `filter_types.dfy` (field
descriptor, operators, literal-list validation), `cell_value_filter_sqlite.dfy`
(the dialect), `like.dfy` (SQLite `LIKE`), `row_semantics.dfy` (one-row
evaluator).

## Model

| member | source | states |
|---|---|---|
| CellValueFilterSqlite.IsNotOperatorHandler | apps/nestjs-backend/src/db-provider/filter-query/sqlite/cell-value-filter/cell-value-filter.sqlite.ts:14-23 | Earlier clauses are kept and exactly one clause is appended: `ifnull(<dbFieldName>, '') != ?` with one parameter, which is `Number(value)` on a Number field and the operand unchanged on any other. |
| CellValueFilterSqlite.IsNotBindsNumbers | apps/nestjs-backend/src/db-provider/filter-query/sqlite/cell-value-filter/cell-value-filter.sqlite.ts:19-21 | On a Number field, an operand that is the integer n or its decimal text is bound as the number n, never as a string. |
| CellValueFilterSqlite.DoesNotContainOperatorHandler | apps/nestjs-backend/src/db-provider/filter-query/sqlite/cell-value-filter/cell-value-filter.sqlite.ts:25-33 | Earlier clauses are kept and exactly one clause is appended: `ifnull(<dbFieldName>, '') not like ?`, whose single parameter is `%` + String(value) + `%`; a string operand appears verbatim between the two `%`. |
| CellValueFilterSqlite.IsNoneOfOperatorHandler | apps/nestjs-backend/src/db-provider/filter-query/sqlite/cell-value-filter/cell-value-filter.sqlite.ts:35-51 | Throws exactly when the operand is not a valid literal list, and then the builder is unchanged. Otherwise it appends one clause `ifnull(<dbFieldName>, '') not in (<one ? per element>)` whose parameters are the list itself, in order. |
| CellValueFilterSqlite.IsNoneOfRejectsEmptyList | apps/nestjs-backend/src/db-provider/filter-query/sqlite/cell-value-filter/cell-value-filter.sqlite.ts:44 | An empty list operand throws an empty-array validation error and adds no `not in ()` clause. |
| CellValueFilterSqlite.HandlersKeepBalance | apps/nestjs-backend/src/db-provider/filter-query/sqlite/cell-value-filter/cell-value-filter.sqlite.ts:21-49 | If every fragment already has one `?` per bound parameter, each handler keeps that true, provided the column name has no `?`. |
| CellValueFilterSqlite.SqlTextIndependentOfOperand | apps/nestjs-backend/src/db-provider/filter-query/sqlite/cell-value-filter/cell-value-filter.sqlite.ts:21-49 | The emitted SQL text does not depend on the operand value (for `isNoneOf`, only on the list length): operands reach the query only as bound parameters. |
| CellValueFilterSqlite.TableDbFieldName | apps/nestjs-backend/src/db-provider/filter-query/sqlite/cell-value-filter/cell-value-filter.sqlite.ts:53-55 | The result is the table alias, a dot and the column name: for a column name without a dot, splitting the result at its last dot gives back exactly the alias and the column name. |
| CellValueFilterSqlite.QualifiedNameSplits | apps/nestjs-backend/src/db-provider/filter-query/sqlite/cell-value-filter/cell-value-filter.sqlite.ts:54 | For any qualifier and any dot-free column name, `<qualifier>.<column>` splits at its last dot into exactly those two parts. |
| CellValueFilterSqlite.ResolveJsonColumn | apps/nestjs-backend/src/db-provider/filter-query/sqlite/cell-value-filter/cell-value-filter.sqlite.ts:57-76 | A JSON extraction happens iff the field is Link or User. The document is the unnested row view iff the field is multi-valued, and otherwise the field's own column. The path is `$.title` iff the field is Link and the operator is contains/doesNotContain, and `$.id` otherwise. Attachment and every other kind read the bare row-view value. |
| CellValueFilterSqlite.GetJsonQueryColumn | apps/nestjs-backend/src/db-provider/filter-query/sqlite/cell-value-filter/cell-value-filter.sqlite.ts:57-76 | The SQL text built branch by branch is exactly the rendering of the choice `ResolveJsonColumn` characterises. |
| CellValueFilterSqlite.JsonColumnRoundTrip | apps/nestjs-backend/src/db-provider/filter-query/sqlite/cell-value-filter/cell-value-filter.sqlite.ts:58-71 | Every rendered JSON column expression parses back to the same document and path, unless a column is itself named `json_each.value`. |
| CellValueFilterSqlite.GetJsonQueryColumnDecodes | apps/nestjs-backend/src/db-provider/filter-query/sqlite/cell-value-filter/cell-value-filter.sqlite.ts:57-76 | From the emitted expression alone one can recover which document is read and which path is extracted. |
| FilterTypes.ParseLiteralList | apps/nestjs-backend/src/db-provider/filter-query/sqlite/cell-value-filter/cell-value-filter.sqlite.ts:44 | Validation succeeds iff the operand is a non-empty array of strings, booleans and non-NaN numbers, and then it returns the array unchanged. Each failure names its reason: not an array, an empty array, or the first non-literal position. |
| SqlText.Placeholders | apps/nestjs-backend/src/db-provider/filter-query/sqlite/cell-value-filter/cell-value-filter.sqlite.ts:46-48 | The placeholder list for n values has exactly n `?`, alternating with commas, and length 2n-1 (empty for n = 0). |
| JsValues.DecimalRoundTrip | apps/nestjs-backend/src/db-provider/filter-query/sqlite/cell-value-filter/cell-value-filter.sqlite.ts:19 | `Number` applied to the decimal text of an integer gives that integer back: `Number(String(n)) == n` for every modelled integer (in JavaScript this holds for the safe integers, see Left out). |
| QueryBuilder.WhereRaw | apps/nestjs-backend/src/db-provider/filter-query/sqlite/cell-value-filter/cell-value-filter.sqlite.ts:21 | `whereRaw` keeps every earlier clause and adds exactly one, the given text with the given parameters, at the end. |
| QueryBuilder.WhereRawBindings | apps/nestjs-backend/src/db-provider/filter-query/sqlite/cell-value-filter/cell-value-filter.sqlite.ts:49 | The builder's parameters after an append are the earlier parameters followed by the new ones, so binding order follows fragment order. |
| QueryBuilder.BalancedBuilderPlaceholders | apps/nestjs-backend/src/db-provider/filter-query/sqlite/cell-value-filter/cell-value-filter.sqlite.ts:21-49 | If every fragment is balanced, the whole WHERE clause has exactly as many `?` as the builder has bound parameters. |
| RowSemantics.NullActsAsEmptyString | apps/nestjs-backend/src/db-provider/filter-query/sqlite/cell-value-filter/cell-value-filter.sqlite.ts:21-46 | Every emitted fragment gives the same truth value for a NULL cell as for an empty-string cell. |
| RowSemantics.IsNotOnTextField | apps/nestjs-backend/src/db-provider/filter-query/sqlite/cell-value-filter/cell-value-filter.sqlite.ts:19-21 | On a non-Number field, `isNot v` selects a row iff its coalesced cell is not the text v. So a NULL cell is selected iff v is non-empty. |
| RowSemantics.IsNotOnNumberField | apps/nestjs-backend/src/db-provider/filter-query/sqlite/cell-value-filter/cell-value-filter.sqlite.ts:19-21 | On a Number field whose operand reads as the integer n, `isNot` selects a row iff its coalesced cell is not the integer n. A NULL cell coalesces to text and is always selected. |
| RowSemantics.IsNotNaNSelectsNoRow | apps/nestjs-backend/src/db-provider/filter-query/sqlite/cell-value-filter/cell-value-filter.sqlite.ts:19-21 | On a Number field whose operand is not a number, NaN is bound and stored as NULL, so the comparison is unknown for every row and no row is selected. |
| RowSemantics.DoesNotContainOnNullCell | apps/nestjs-backend/src/db-provider/filter-query/sqlite/cell-value-filter/cell-value-filter.sqlite.ts:31 | For a string operand v, a NULL cell satisfies `doesNotContain v` iff v has a character other than `%`; otherwise the fragment is false. |
| RowSemantics.DoesNotContainIsSubstringTest | apps/nestjs-backend/src/db-provider/filter-query/sqlite/cell-value-filter/cell-value-filter.sqlite.ts:31 | For an operand with no `%` or `_`, `doesNotContain v` selects a row iff the coalesced cell text does not contain v as a substring, ignoring ASCII case. |
| RowSemantics.DoesNotContainOverMatches | apps/nestjs-backend/src/db-provider/filter-query/sqlite/cell-value-filter/cell-value-filter.sqlite.ts:31 | Wildcards in the operand are not escaped. For every string operand v holding `%` or `_`, the row whose cell is v with each `%` dropped and each `_` read as `x` does not contain v, yet `doesNotContain v` rejects it. |
| RowSemantics.DoesNotContainPercentRejectsAll | apps/nestjs-backend/src/db-provider/filter-query/sqlite/cell-value-filter/cell-value-filter.sqlite.ts:31 | An operand made only of `%` characters, the empty operand included, makes `doesNotContain` reject every row. |
| RowSemantics.DoesNotContainOverMatchesExample | apps/nestjs-backend/src/db-provider/filter-query/sqlite/cell-value-filter/cell-value-filter.sqlite.ts:31 | Concretely, `doesNotContain "a_c"` rejects the row "abc", which does not contain "a_c". |
| RowSemantics.IsNoneOfSelects | apps/nestjs-backend/src/db-provider/filter-query/sqlite/cell-value-filter/cell-value-filter.sqlite.ts:44-49 | Over a validated list of strings and numbers, `isNoneOf` selects a row iff its coalesced cell equals none of the bound values. A NULL cell is selected iff "" is not in the list. |
| LikeMatching.WildcardWrapIsSubstring | apps/nestjs-backend/src/db-provider/filter-query/sqlite/cell-value-filter/cell-value-filter.sqlite.ts:31 | For a wildcard-free q, SQLite's `LIKE '%q%'` holds iff q occurs in the text, ignoring ASCII case. |
| LikeMatching.WildcardOperandOverMatches | apps/nestjs-backend/src/db-provider/filter-query/sqlite/cell-value-filter/cell-value-filter.sqlite.ts:31 | For a q holding `%` or `_`, `LIKE '%q%'` holds on a text in which q does not occur as a substring. |

## Left out

- The abstract base class (`cell-value-filter.abstract`) is not part of this model: operator dispatch, the handlers of the other operators, and `_table` (passed here as the `table` argument of `TableDbFieldName`).
- SqlText.Placeholders: `createSqlPlaceholders` is in the base class and is not shown; it is assumed to emit one `?` per value, joined by commas.
- FilterTypes.ParseLiteralList: `literalValueListSchema` is not shown. It is assumed to accept the non-empty arrays of strings, booleans and numbers, and zod's number check is assumed to reject NaN. The thrown error is reduced to its first issue.
- JsValues.ToNumber: JavaScript numbers are IEEE doubles; the model uses unbounded integers plus NaN. Strings that JavaScript reads as a fraction, an exponent, a hexadecimal/octal/binary literal or `Infinity` are mapped to NaN here, where JavaScript gives a number. Digit strings beyond 2^53 are read exactly here, where JavaScript rounds them (`"9007199254740993"` gives 9007199254740992), and digit strings beyond the double range give a huge integer here, where JavaScript gives `Infinity`. Negative zero is identified with zero.
- JsValues.ToJsString: `String` of a non-integer number is not modelled, because such numbers are not modelled at all. Integers are always printed in plain decimal, where JavaScript prints |n| >= 10^21 in exponent form (`String(1e21)` is `"1e+21"`). So for such operands the `%...%` pattern `doesNotContain` binds differs from the real one.
- RowSemantics.Bind: how the driver binds booleans and arrays is not modelled (`None`). REAL and BLOB storage classes are left out too.
- RowSemantics.EvalClause: it evaluates one fragment against one cell of the named column. It only recognises the three fragment shapes this dialect emits, not general SQL.
- Strings are sequences of Unicode scalar values, not JavaScript UTF-16 code units; surrogate pairs are not distinguished.
- Knex internals (how `whereRaw` fragments are combined into the final statement) and SQL execution are left out; the builder is the append-only clause list.
- The logger module and the grid view component are framework wiring and UI with no algorithmic contract, and are not modelled.
