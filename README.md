# Row filter of the Santander exploratory helpers

A Dafny model of `filter(data, condition)`, the string-predicate row filter of
the Santander customer-satisfaction analysis script. A condition reads
`'<field> <op> <value>'`. `filter` splits it on single spaces into exactly three
tokens. It reads the value token as a number when it can, and otherwise as a
string with its surrounding quotes removed. It then dispatches on one of six
comparison operators and keeps the rows whose `field` satisfies the comparison,
in their original order, renumbered from zero.

Modules, in the order the function works:

- `Outcomes`: `Option`, `Result` and the four failures `filter` can reach, in
  that order: a wrong token count, an invalid operator, a missing column, and
  ordering a number against a string. The last one follows Python 3, where such
  an ordering raises a type error.
- `Tokens`: splitting on the space character and stripping quotes.
- `Numbers`: the decimal literals that stand in for Python's `float()`, read as
  exact reals.
- `Conditions`: the operators, the literal coercion and `ParseCondition`.
- `RowFilter`: tables, cell comparison, boolean-mask selection, the reference
  definition `Retained`, and `Apply`/`Filter` with their properties.
- `Scenarios`: small worked examples.

A table is `Table(columns, rows)` and a row is a `map<string, Value>`. A row
with no entry for a column holds a missing value (pandas' NaN or None). Missing
values compare false under every operator except `!=`, where they compare true.
The row index is the position in `rows`, so the `reset_index(drop=True)` at the
end of `filter` is the fact that the result is a plain sequence.
`RowFilter.FilterReindexes` states which input row lands at each position.

`filter` splits the condition with `condition.split(" ")`, on each single space
character rather than on runs of whitespace. Two adjacent spaces therefore give
an empty token, and such a condition is rejected for having four tokens
(`Scenarios.DoubleSpaceExample`).

Under pandas' missing-value rule, `==` and `!=` split every table that has the
column, missing values included. So `RowFilter.EqualNotEqualPartition` needs no
"no missing values" hypothesis. The ordering pair `>`/`<=` does need one
(`RowFilter.GreaterLessEqualPartition`).

## Model

| member | source | states |
|---|---|---|
| `Tokens.SplitSpaces` | santander_visualizations.py:14 | splitting on `' '` yields one more token than there are spaces; no token holds a space; joining the tokens with single spaces gives back the condition |
| `Tokens.SplitAfterWord` | santander_visualizations.py:14 | a space-free word followed by a space splits off as the first token, ahead of the split of the rest |
| `Tokens.SplitJoin` | santander_visualizations.py:14 | splitting undoes joining for space-free tokens |
| `Tokens.SplitThree` | santander_visualizations.py:14 | `a + " " + b + " " + c` with space-free parts splits into exactly `[a, b, c]` |
| `Tokens.SkipLeadingQuotes` | santander_visualizations.py:19 | scanning forward stops at the first non-quote character (or the end), and every character skipped is a quote |
| `Tokens.SkipTrailingQuotes` | santander_visualizations.py:19 | scanning backward stops just after the last non-quote character at or after the lower bound, and every character skipped is a quote |
| `Tokens.StripQuotes` | santander_visualizations.py:19 | the stripped value neither starts nor ends with `'` or `"`, and it is a contiguous slice of the token with only quotes before and after it |
| `Tokens.StripQuotesUnique` | santander_visualizations.py:19 | any split of a token into quotes, a middle without edge quotes, and quotes has exactly the stripped value as its middle |
| `Tokens.StripQuotesIdempotent` | santander_visualizations.py:19 | stripping a stripped value changes nothing |
| `Tokens.StripQuotesKeepsUnquoted` | santander_visualizations.py:19 | a value with no quote at either end is not changed by stripping |
| `Tokens.StripQuotesUnwraps` | santander_visualizations.py:19 | stripping `'lit'` gives `lit` when `lit` has no edge quotes |
| `Numbers.IndexOf` | santander_visualizations.py:17 | returns the first position of the character (or the length when it is absent), and no earlier position holds it |
| `Numbers.ParseParts` | santander_visualizations.py:17 | the digits before and after the point are accepted exactly when both parts are digits and there is at least one digit, and then they read as a non-negative number |
| `Numbers.ParseUnsigned` | santander_visualizations.py:17 | an accepted unsigned literal is non-empty, made of digits and at most one point, and reads as a non-negative number |
| `Numbers.DigitsValueAppend` | santander_visualizations.py:17 | the value of the digits `w` followed by `f` is `w` shifted by one power of ten per digit of `f`, plus `f` |
| `Numbers.ScaleSplit` | santander_visualizations.py:17 | a whole number plus a fraction scaled down by `k` places is the shifted sum scaled down by `k` places |
| `Numbers.ParseUnsignedDecimal` | santander_visualizations.py:17 | the first point of `w.f` splits it into the whole part `w` and the fraction `f` |
| `Numbers.PartsValue` | santander_visualizations.py:17 | a whole part and a fraction read as the digits `wf` divided by ten to the number of fractional digits |
| `Numbers.ParseNumberUnsigned` | santander_visualizations.py:17 | a token that starts with neither sign is read as an unsigned literal |
| `Numbers.ParseDecimal` | santander_visualizations.py:16-17 | every literal `w.f` with at least one digit is accepted ("2.5", ".5", "5.") and reads as the digits `wf` divided by ten to the power of the number of fractional digits |
| `Numbers.ParseNumber` | santander_visualizations.py:17 | a token that reads as a number is non-empty and made only of digits, a point and a sign, and a sign can stand only at its first position |
| `Numbers.ParseNumberSigned` | santander_visualizations.py:17 | after a leading `-` or `+` the rest is read as an unsigned literal: the token fails exactly when the rest fails, a minus negates the value and a plus keeps it |
| `Numbers.NegatedLiteral` | santander_visualizations.py:17 | a minus in front of an accepted unsigned literal gives the negated value |
| `Numbers.UnsignedDecimalValue` | santander_visualizations.py:17 | an unsigned literal `w.f` with at least one digit reads as the digits `wf` divided by ten to the number of fractional digits |
| `Numbers.ParseNegDecimal` | santander_visualizations.py:16-17 | every literal `-w.f` with at least one digit is accepted ("-2.5", "-.5", "-5.") and reads as the negated value of `w.f` |
| `Numbers.NatToStringValue` | santander_visualizations.py:17 | the decimal digits of `n` read back as `n` |
| `Numbers.ParseUnsignedDigits` | santander_visualizations.py:17 | a plain digit string reads as its integer value |
| `Numbers.ParseNumberDigits` | santander_visualizations.py:17 | an unsigned digit token reads as its value |
| `Numbers.ParseNumberNegDigits` | santander_visualizations.py:17 | a minus followed by digits reads as the negated value |
| `Numbers.ParseIntToString` | santander_visualizations.py:16-17 | every integer written in decimal reads back as that number |
| `Conditions.ParseOp` | santander_visualizations.py:21-34 | an operator token is recognised exactly when it is one of `>`, `<`, `>=`, `<=`, `==`, `!=` |
| `Conditions.ParseOpSymbol` | santander_visualizations.py:21-34 | a token parses to an operator exactly when it is that operator's symbol |
| `Conditions.Coerce` | santander_visualizations.py:16-19 | the literal is a number exactly when the token reads as one, and then it is that number; otherwise it is the token with its leading and trailing quotes stripped, which has no edge quotes and is no longer than the token |
| `Conditions.CoerceStringStable` | santander_visualizations.py:19 | a coerced string literal is unchanged by stripping again |
| `Conditions.QuotedTokenIsString` | santander_visualizations.py:16-19 | a token holding a quote character never reads as a number, so its literal is the stripped string |
| `Conditions.ParseCondition` | santander_visualizations.py:14-34 | the token-count error arises exactly when the condition does not hold two spaces, and it reports spaces + 1 tokens; the only parse failures are a wrong token count and an invalid operator; a parsed field holds no space |
| `Conditions.ParseConditionText` | santander_visualizations.py:14-34 | a well-spaced condition parses to the invalid-operator error or to (field, operator, coerced value), as its operator token decides |
| `Conditions.ParseQuotedLiteral` | santander_visualizations.py:14-19 | `field op 'lit'` parses back to the string literal `lit` |
| `Conditions.ParseIntegerLiteral` | santander_visualizations.py:14-17 | `field op n` with a decimal integer parses back to the number `n` |
| `Conditions.UnknownOperatorRejected` | santander_visualizations.py:33-34 | an operator token outside the six gives the invalid-operator error |
| `RowFilter.StrLess` | santander_visualizations.py:22-28 | Python's string order used by `>`, `<`, `>=`, `<=` on string columns: a smaller string differs from the larger, and a proper prefix is smaller |
| `RowFilter.StrLessTrichotomy` | santander_visualizations.py:22-28 | trichotomy and irreflexivity: for distinct strings exactly one is smaller, and no string is smaller than itself |
| `RowFilter.StrLessTransitive` | santander_visualizations.py:22-28 | the string order is transitive, so together with trichotomy it is a strict total order |
| `RowFilter.CompareCell` | santander_visualizations.py:22-32 | `==` is value equality and `!=` its negation on every cell, missing included; only ordering a present cell of the other kind has no answer; a missing cell orders false |
| `RowFilter.ComplementaryCompare` | santander_visualizations.py:21-32 | `>`/`<=`, `<`/`>=` and `==`/`!=` give opposite answers on a present cell of the literal's kind; `==`/`!=` do so on any cell |
| `RowFilter.MaskOf` | santander_visualizations.py:22-32 | the mask has one entry per row, an entry is true exactly when that row satisfies the condition, and a true entry marks a comparable row |
| `RowFilter.Select` | santander_visualizations.py:37 | mask selection never adds rows: its result is a sub-multiset of the input |
| `RowFilter.KeptIndices` | santander_visualizations.py:37 | the kept positions are in range, strictly increasing, all marked, and include every marked position |
| `RowFilter.SelectReindexes` | santander_visualizations.py:37 | row k of the selection is the input row at the k-th kept position |
| `RowFilter.Retained` | santander_visualizations.py:21-37 | the rows satisfying the condition, in input order, are never more than the input's rows |
| `RowFilter.RetainedMembers` | santander_visualizations.py:21-37 | every kept row is an input row that satisfies the condition, an input row is kept exactly when it satisfies it, and the kept rows are a sub-multiset of the input |
| `RowFilter.RetainedSnoc` | santander_visualizations.py:37 | appending a row appends it to the result exactly when it satisfies the condition |
| `RowFilter.SelectMaskIsRetained` | santander_visualizations.py:22-37 | selecting with the condition's mask gives exactly the rows that satisfy it, in order |
| `RowFilter.RetainedIdempotent` | santander_visualizations.py:37 | keeping satisfying rows twice is the same as once |
| `RowFilter.RetainedCommute` | santander_visualizations.py:37 | keeping by two conditions in either order gives the same rows |
| `RowFilter.RetainedPartition` | santander_visualizations.py:37 | two conditions that disagree on every row split the rows: the counts add up and the multisets sum to the input |
| `RowFilter.Apply` | santander_visualizations.py:21-37 | the filter succeeds exactly when the column exists and every cell is comparable; otherwise it fails with the missing field or the type error (Python 3), in that order; on success the columns are unchanged and the rows are the satisfying rows in order |
| `RowFilter.Filter` | santander_visualizations.py:5-38 | a condition without exactly two spaces fails with the token count; a result keeps the columns, has no more rows than the input, is a sub-multiset of it, and holds an input row exactly when that row satisfies the parsed condition |
| `RowFilter.FilterIdempotent` | santander_visualizations.py:37 | filtering a filtered table with the same condition returns the same table |
| `RowFilter.FilterCommutes` | santander_visualizations.py:37 | two conditions that each filter the table can be chained in either order with the same outcome |
| `RowFilter.ApplyCommutes` | santander_visualizations.py:21-37 | two parsed conditions that each succeed on the table succeed on each other's result, and chaining them in either order gives the same table |
| `RowFilter.FilterChainIsConjunction` | santander_visualizations.py:37 | two chained filters keep exactly the rows satisfying both conditions |
| `RowFilter.FilterReindexes` | santander_visualizations.py:37 | result row k is the input row at the k-th matching position, and those positions increase: the index runs 0..n-1 with no gaps |
| `RowFilter.ApplyPartition` | santander_visualizations.py:21-37 | complementary operators on the same column and literal both succeed, and their results split the table |
| `RowFilter.EqualNotEqualPartition` | santander_visualizations.py:29-32 | `field == v` and `field != v` both succeed on a table with that column, their row counts sum to the input's, and their multisets sum to the input's |
| `RowFilter.GreaterLessEqualPartition` | santander_visualizations.py:21-28 | with every cell present and of the literal's kind, `field > v` and `field <= v` split the table |
| `RowFilter.FilterText` | santander_visualizations.py:14-37 | filtering with a well-spaced condition text is applying its parsed condition |
| `RowFilter.NumericLiteralComparedAsNumber` | santander_visualizations.py:16-32 | with a numeric value token, a numeric cell is kept exactly when the real comparison holds, and ordering a string cell has no answer |
| `RowFilter.InvalidOperatorNoTable` | santander_visualizations.py:21-34 | an unknown operator fails the filter with the invalid-operator error, even before the column is looked up |
| `RowFilter.WellTypedApplySucceeds` | santander_visualizations.py:21-37 | an existing column whose present cells have the literal's kind never makes the filter fail, and neither does `==`/`!=` on any existing column |
| `RowFilter.MissingFieldNoTable` | santander_visualizations.py:21-32 | a valid condition on a column the table lacks fails with the missing field |
| `Scenarios.GreaterThanExample` | santander_visualizations.py:5-38 | `A > 2` on rows with A = 1, 5, 10 gives the last two rows as rows 0 and 1 |
| `Scenarios.GreaterThanParses` | santander_visualizations.py:14-17 | `A > 2` parses to column A, operator `>` and the number 2 |
| `Scenarios.KeepLastTwo` | santander_visualizations.py:21-37 | on three comparable rows of which only the first fails, the filter keeps the other two, in order |
| `Scenarios.DropFirstOfThree` | santander_visualizations.py:37 | of three rows where only the first fails the condition, the last two are retained |
| `Scenarios.DoubleSpaceExample` | santander_visualizations.py:14 | a condition with a double space fails with four tokens |
| `Scenarios.UnknownOperatorExample` | santander_visualizations.py:33-34 | `age ~ 5` fails with the invalid-operator error |

## Left out

- `satisfaction_stats` (santander_visualizations.py:40-83) is not modelled. It joins the outcome column, plots two histograms with matplotlib, and prints a message. Its filter loop calls `filter_data`, a name the file never defines, and its message uses the Python 2 `print` statement. Plotting, printing and that loop are left out.
- The unused minimum/maximum/range computation (lines 62-64) and the TARGET = 0 / TARGET = 1 split that feeds the histograms (lines 67-68) are left out, since they serve only the plot.
- `Numbers.ParseNumber` recognises only an optional sign, then ASCII digits with an optional decimal point. Python's `float()` also accepts exponents (`1e5`), `inf`, `nan`, non-ASCII decimal digits in Unicode text (`float(u'٣') == 3.0`), and surrounding tabs or newlines. Python 3.6 and later also accept underscores between digits, which Python 2 rejects. Such tokens are numbers in the source but strings in the model.
- Numbers are exact reals. IEEE rounding, NaN literals, infinities, and the int64/float64 distinction between columns are not modelled.
- `RowFilter.CompareCell` treats ordering a number against a string as a failure (`Incomparable`), which is the Python 3 behaviour: there Python and pandas raise a type error. The file itself is Python 2 code (the `print` statement at santander_visualizations.py:47). Under Python 2 such an ordering does not raise: numbers order before strings, and pandas returns a mask. What the source does for these inputs depends on the Python version, and the Python 2 outcome is not reproduced.
- `RowFilter.CompareCell` also decides comparability cell by cell. Under Python 3, pandas raises its type error from the column's dtype, so ordering a numeric column against a string fails there even when the table is empty or every cell is missing, while the model succeeds in those cases.
- The text of the exceptions is not modelled. Each failure is a `FilterError` value that carries the offending token, field or count.
- The pandas index object is not modelled. After `reset_index(drop=True)` it is exactly the positions 0..n-1 of the result sequence.
- Duplicate column names are not modelled: a row is a map, so a table has at most one cell per column name.
- `RowFilter.Table` admits rows with keys that are not among its columns, such as `Table(["B"], [map["A" := Num(1.0)]])`, which no DataFrame can hold. The lemmas do not assume well-formedness; for such a table the model reports `MissingField` from the column list, as pandas would from its columns.
