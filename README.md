# WHERE-condition extractor and JSON merger in Dafny

This project models two small Python utilities and proves properties of the models.

**`where_extractor.py`** pulls filter predicates out of SQL text. Each predicate is a record with a column name, a table name, an operator and a value. `extract_where_conditions` runs `parse_query` on the whole text. One level of `parse_query` does four things:

- It extends the caller's alias dictionary in place with the level's own `FROM`/`JOIN` aliases.
- It finds every `(SELECT` subquery by counting parentheses, and walks each one recursively with a copy of the dictionary.
- It cuts out the level's `WHERE` clause and puts a placeholder where each subquery stood.
- It splits the clause on `AND`/`OR` and parses each part against a fixed, ordered operator list. Each column expression is normalised by peeling off scalar functions, `AS type` clauses and parentheses.

**`merge.py`** merges two JSON trees recursively:

- Objects under a shared key merge.
- Lists under a shared key concatenate.
- Any other shared value takes the right-hand side.
- A key on one side only is copied across.

`combine_json_strings` folds the merge over a list of parsed inputs, starting from `{}`.

Files, in dependency order:

- `option.dfy` (`Options`): the optional value.
- `text.dfy` (`Text`): the character classes behind `\s` and `\w`, `str.upper`, `str.strip`, `str.replace` and the small scanners that the regular expressions are built from.
- `normalize.dfy` (`ColumnExpr`): `strip_functions`.
- `condition.dfy` (`Conditions`): `parse_condition` and its operator search.
- `clause.dfy` (`WhereClauses`): the `WHERE` search, `re.split` on the connectors, the placeholder substitution and `parse_where_clause`.
- `aliases.dfy` (`Aliases`): `extract_table_aliases`.
- `subqueries.dfy` (`Subqueries`): the `(SELECT` search, the parenthesis counter and the spans the scan isolates.
- `extractor.dfy` (`WhereExtractor`): `parse_query` and `extract_where_conditions`. The alias dictionary is the class `AliasTable`.
- `json_merge.dfy` (`JsonMerge`): `merge_json_objects` and `combine_json_strings`.

Each regular expression the program uses is modelled by a dedicated scanner, a recursive function. For the searches (`re.search`, `re.split`) a lemma proves that the scanner finds the leftmost match, and where the pattern is lazy, the shortest one. For the two `re.sub` calls a lemma proves that exactly the matches of the left-to-right, non-overlapping scan are cut out. For the two `re.finditer` loops, lemmas prove that the scan yields matches in text order, each one a real match, and that every position where a match could start is covered by one of them. Each loop of the source is a method proved equal to a specification function, and the properties are proved about those functions.

The walk `Walk` is stated for any condition parser, `Parsers`. The program's own parser is `ConditionParser`.

Some details of the model:

- **Subquery loop.** The loop is written `while startIdx < |query|` with a `break` when the search fails. This behaves the same as the source's `while True` loop with its two `break`s.
- **Subquery text.** `Inner` falls back to the empty text for a span that does not lie inside the query. `SpansWellFormed` shows that the scan never produces such a span.
- **Key order.** `MergeJsonObjects` visits the keys of `obj2` in an unspecified order, where Python uses insertion order. Every key is visited once and no visit reads another key's entry, so the result does not depend on the order.

Some behaviour of the code that a reader might not expect, and that the model keeps:

- The `WHERE` search runs on the level's whole text, subqueries included (where_extractor.py:62). So a level with no `WHERE` of its own picks up the first `WHERE` inside a subquery.
- Subqueries are replaced inside the clause text only, by `str.replace` of `(subquery)`, which replaces every occurrence (where_extractor.py:69-70).
- Every `\s+AS\s+\w+` is removed from a column expression, not only a trailing one (where_extractor.py:133).
- `NOT IN` is in the operator list but is never reported. `IN` comes earlier in the list and matches wherever `NOT IN` does, so such a condition is reported with operator `IN` (`Conditions.NotInNeverFirst`).

## Model

| member | source | states |
|---|---|---|
| Text.Upper | where_extractor.py:30 | `query.upper()` keeps the length and upper-cases each character in place, so indices found in the upper-cased copy are valid in the query |
| Text.TrimWithin | where_extractor.py:107 | every character of the stripped text comes from the text, and no character other than whitespace is lost |
| Text.TrimIdempotent | where_extractor.py:145 | stripping twice is the same as stripping once |
| Text.TrimSlice | where_extractor.py:107 | `strip()` returns the contiguous slice of the text left after cutting whitespace, and only whitespace, from both ends |
| Text.StripQuotes | where_extractor.py:169 | `strip("'\"")` returns the contiguous slice of the value left after cutting quotes, and only quotes, from both ends, so it neither starts nor ends with a quote |
| Text.RemoveCharRemoves | where_extractor.py:134 | `replace('(', '')` leaves no `(`, and keeps every other character that occurs in the text |
| Text.ReplaceAllAbsent | where_extractor.py:70 | a text in which the pattern's first character does not occur is left unchanged by `replace` |
| Text.ReplaceAllSplits | where_extractor.py:69-70 | `s.replace(pat, rep)` is `rep.join(s.split(pat))`: the text splits at the leftmost non-overlapping occurrences into pieces that hold no occurrence, joining the pieces with `pat` gives back the text, and `replace` joins them with `rep` instead |
| ColumnExpr.FindCallIsFirst | where_extractor.py:128-129 | the search for `\bFUNC\s*\(` finds the leftmost call, and fails only when there is no call |
| ColumnExpr.RemoveCallsShortens | where_extractor.py:129-130 | a substitution that finds a call makes the text strictly shorter, which is why each `while` loop ends |
| ColumnExpr.StripCalls | where_extractor.py:129-130 | once the `while` loop for a name ends, no call of that name is left |
| ColumnExpr.RemoveCallsCuts | where_extractor.py:130 | `re.sub` of `\bFUNC\s*\(` returns `s[..m1] + s[e1..m2] + ... + s[en..]`, where each `s[mk..ek]` is a call head, each scan resumes at the end of the previous head, and no call head starts at a kept position |
| ColumnExpr.RemoveAsClausesCuts | where_extractor.py:133 | `re.sub` of `\s+AS\s+\w+` returns `s[..m1] + s[e1..m2] + ... + s[en..]`, where each `s[mk..ek]` is a whole `AS` clause, each scan resumes at the end of the previous clause, and no clause starts at a kept position |
| ColumnExpr.ScanUnique | where_extractor.py:130-133 | there is only one such left-to-right scan for a given pattern, so the two lemmas above pin each substitution's result |
| ColumnExpr.RemoveAsClausesWithin | where_extractor.py:133 | the `AS type` substitution only deletes characters: its result is a subsequence of the text, kept in order at strictly increasing positions, so every character it keeps comes from the text |
| ColumnExpr.Cleaned | where_extractor.py:124-134 | after the function loops, the `AS` substitution and the two `replace` calls, no parenthesis is left |
| ColumnExpr.ReferenceShape | where_extractor.py:137-141 | when the text has a word character, the search returns the slice that is the leftmost `column` or `table.column` reference, and among references starting there the longest. Otherwise no slice is a reference and the result is the stripped text, which then has no word character |
| ColumnExpr.NormalizeShape | where_extractor.py:118-141 | the result of `strip_functions` is the leftmost, longest reference in the cleaned text when that has a word character, and otherwise the stripped cleaned text. It has no parenthesis, and is either a column reference or a stripped text without word characters |
| ColumnExpr.ReferenceIsNormal | where_extractor.py:118-141 | a column reference is returned unchanged |
| ColumnExpr.NormalizeIdempotent | where_extractor.py:118-141 | normalising twice is the same as normalising once |
| ColumnExpr.NoWordCharIsNormal | where_extractor.py:138-141 | a text with no word character and no parenthesis is only stripped |
| ColumnExpr.StripFunctions | where_extractor.py:118-141 | the `for` and inner `while` loops compute `Normalize` |
| Conditions.FirstSplitIsFirst | where_extractor.py:152-153 | the lazy `(.+?)` stops at the first split point where the operator pattern follows, and the search fails only where there is none |
| Conditions.FirstOperatorIsFirst | where_extractor.py:151-155 | the operator loop settles on the first operator in list order whose pattern matches, and fails only when none matches |
| Conditions.ParseConditionFirstMatch | where_extractor.py:143-178 | there is a record exactly when some operator matches the stripped condition, and its operator is the first such one |
| Conditions.MatchOperators | where_extractor.py:151-176 | the `for op in operators` loop, returning at the first operator whose pattern matches, computes `ParseCondition` |
| Conditions.ParseConditionWellFormed | where_extractor.py:143-178 | every record has an operator from the list other than `NOT IN`, a column without parentheses that is a word or has no word character, an empty value for `IS [NOT] NULL`, and a value not wrapped in quotes. Its table name has no parenthesis when the alias table has none |
| Conditions.ResolveColumnShape | where_extractor.py:160-165 | for a normalised expression, the column the split yields has no parenthesis and is a single word or free of word characters. The split is the source's: at the first dot, with the alias lookup falling back to the text before the dot, and an empty table without a dot |
| Conditions.NotInMatchesIn | where_extractor.py:148-153 | wherever the `NOT IN` pattern matches, the `IN` pattern matches too |
| Conditions.NotInNeverFirst | where_extractor.py:148-155 | the operator search never settles on `NOT IN` |
| WhereClauses.FindWhere | where_extractor.py:62 | the search finds the leftmost `\bWHERE\s+`, and fails only when there is none |
| WhereClauses.ClauseEnd | where_extractor.py:62 | the lazy `(.*?)` stops at the first `GROUP BY`, `ORDER BY`, `HAVING`, `LIMIT` or end of text |
| WhereClauses.WhereClause | where_extractor.py:62-66 | there is a clause exactly when `WHERE` followed by whitespace occurs, and the clause holds no closing keyword of its own |
| WhereClauses.WhereClauseSlice | where_extractor.py:62-66 | the clause is the text from the end of the whitespace run after the leftmost `WHERE` up to the first closing keyword or end of text from there on |
| WhereClauses.FindConnectorLeftmost | where_extractor.py:104 | the connector search finds the leftmost `AND` or `OR` between whitespace runs, and fails only when there is none |
| WhereClauses.SplitRoundTrip | where_extractor.py:104 | joining the pieces with the dropped separators gives back the clause, every separator is a whole connector, and no piece holds a connector |
| WhereClauses.SubstituteWithoutParens | where_extractor.py:69-70 | a clause without `(` is left unchanged by the placeholder substitution |
| WhereClauses.PartConditionsSelect | where_extractor.py:106-114 | there is an increasing list of positions that are exactly the parts that are non-empty, not the placeholder and accepted by the parser once stripped. The collected records are those parts' records, one each, in that order |
| WhereClauses.PartConditionsWellFormed | where_extractor.py:99-116 | every collected record is well formed, and none has a table name with a parenthesis when the alias table has none |
| WhereClauses.ParseWhereClause | where_extractor.py:99-116 | `parse_where_clause` returns the records of the split clause's parts, in order |
| WhereClauses.CollectConditions | where_extractor.py:106-114 | the loop skips empty and placeholder parts and appends what the parser finds, in order |
| Aliases.MatchAtWhen | where_extractor.py:82 | `\bKW\s+(\w+)(?:\s+AS)?\s+(\w+)` matches at a position exactly when a word boundary, the keyword and the two word groups with the whitespace between them occur there. The `JOIN` pattern at line 90 is the same with `JOIN` |
| Aliases.MatchAtGroups | where_extractor.py:82-85 | group 1 is the whole word after the keyword. Group 2 is the word after `AS` when `AS` and another word follow, and otherwise `AS` itself or the word in that place. The match ends at the end of a word. Lines 90-93 read the `JOIN` groups the same way |
| Aliases.MatchesSound | where_extractor.py:83 | every match `re.finditer` yields starts at or after the scan position and is the match found at its start |
| Aliases.MatchesInOrder | where_extractor.py:83 | the matches do not overlap and come in text order |
| Aliases.MatchesComplete | where_extractor.py:83 | every position where the pattern matches lies inside one of the yielded matches, so no match is skipped except one overlapping an earlier match. The same holds for the `JOIN` loop at line 91 |
| Aliases.BindBindsLast | where_extractor.py:83-87 | folding the matches binds a key exactly when it was bound before or some admitted match names it, and then to the table of the last such match |
| Aliases.TableAliasesResolve | where_extractor.py:77-97 | an alias is bound exactly when an admitted `FROM` or `JOIN` match names it. A `JOIN` binding overrides a `FROM` binding, and within one kind the last match wins. An alias excluded for a kind is never bound by that kind |
| Aliases.TableAliasesAreWords | where_extractor.py:82-95 | every alias and table name is a non-empty run of word characters |
| Aliases.BindMatches | where_extractor.py:83-87 | one `re.finditer` loop computes the fold of its matches into the dictionary |
| Aliases.ExtractTableAliases | where_extractor.py:77-97 | `extract_table_aliases` returns `TableAliases`: the `FROM` bindings, then the `JOIN` bindings on top, all of them words |
| Subqueries.FindSelectIsFirst | where_extractor.py:33 | the `(SELECT\s+` search finds the leftmost candidate, and fails only when there is none |
| Subqueries.MatchingParenIsShortestBalanced | where_extractor.py:37-49 | the counter stops at the first index where the depth returns to zero, so the span is the shortest balanced one, and it fails exactly when the depth never returns to zero |
| Subqueries.FindClosingParen | where_extractor.py:37-49 | the counter loop reports `paren_count == 0` exactly when a closing parenthesis exists, and then `paren_end` is that parenthesis. Otherwise `paren_end` stays at the opening one |
| Subqueries.SpansWellFormed | where_extractor.py:32-59 | each isolated span starts on a `(SELECT` candidate and ends at the parenthesis the counter finds, and the next span starts after it |
| Subqueries.WellFormedSpansOrdered | where_extractor.py:32-59 | isolated spans lie inside the query, are disjoint and are in left-to-right order |
| Subqueries.SpansComplete | where_extractor.py:32-59 | every balanced `(SELECT` candidate that is not inside an isolated span is itself isolated |
| WhereExtractor.AliasTable.Update | where_extractor.py:23 | `dict.update`: the new bindings are added, and win over the old ones |
| WhereExtractor.AliasTable.Copy | where_extractor.py:55 | `dict.copy`: a new table with the same bindings |
| WhereExtractor.ParseQuery | where_extractor.py:15-75 | `parse_query` returns `Walk` of the query and the inherited table, and the caller's table ends extended by exactly this level's aliases |
| WhereExtractor.IsolateSubqueries | where_extractor.py:27-59 | the subquery loop collects the texts of exactly the spans `Spans` isolates, and the walks of those texts, in order |
| WhereExtractor.FindNextSubquery | where_extractor.py:32-49 | one search: when there are no more candidates the search has failed, a balanced candidate is the next isolated span, and an unbalanced one is skipped by one character |
| WhereExtractor.TakeSubquery | where_extractor.py:51-56 | a balanced candidate appends its text to the subqueries and its walk to the conditions |
| WhereExtractor.ParseSubquery | where_extractor.py:55 | the recursive call works on a copy, so it returns the subquery's walk and leaves the caller's table untouched |
| WhereExtractor.ParseLevelClause | where_extractor.py:61-73 | the level's records come from its `WHERE` clause with each subquery replaced by the placeholder, and there are none without a `WHERE` |
| WhereExtractor.QueryConditionsWellFormed | where_extractor.py:15-75 | at every depth of the walk, every reported record is well formed and has no parenthesis in its table name |
| WhereExtractor.ExtractWhereConditions | where_extractor.py:181 | `extract_where_conditions` walks the text from an empty table, and every record it returns is well formed |
| JsonMerge.MergeEntries | merge.py:8-25 | a non-object right side is the result. Otherwise the keys are the union, a one-sided key keeps its value, and a shared key merges two objects, concatenates two lists, or else takes the right-hand value |
| JsonMerge.MergeKeys | merge.py:11-25 | the merged object's key set is the union of both key sets |
| JsonMerge.MergeEmptyRight | merge.py:11-26 | merging in `{}` gives back `obj1` |
| JsonMerge.MergeEmptyLeft | merge.py:11-26 | merging an object into `{}` gives back that object |
| JsonMerge.MergeKeepsRightPaths | merge.py:12-25 | every key path of `obj2` exists in the result at any depth, and where it ends at a scalar the result holds `obj2`'s scalar |
| JsonMerge.AliasedKeepsPaths | merge.py:11-19 | the call never adds or removes a key of `obj1` at any depth |
| JsonMerge.AliasedListsAreShared | merge.py:17-19 | each value of `obj1` that is not an object is either left alone or is a list that becomes exactly the list the result holds at the same path |
| JsonMerge.MergeJsonObjects | merge.py:4-26 | the loop over `obj2`'s keys returns `Merge(obj1, obj2)` and leaves `obj1` holding `Aliased(obj1, obj2)` |
| JsonMerge.MergeKey | merge.py:13-25 | visiting one key updates the result, and `obj1`'s lists and nested objects, at that key only |
| JsonMerge.Combine | merge.py:32-41 | when every parsed input is an object, the fold yields an object |
| JsonMerge.CombineSkipsUnparsed | merge.py:35-39 | an input that fails to parse, wherever it stands, leaves the combined result unchanged |
| JsonMerge.CombineKeys | merge.py:32-41 | when every parsed input is an object, the combined keys are exactly the keys found in any input |
| JsonMerge.CombineSingle | merge.py:32-37 | a single object input comes back unchanged |
| JsonMerge.CombineJsonStrings | merge.py:28-41 | the accumulator loop computes the left fold `Combine` |

## Left out

- Unicode. Characters are handled as ASCII: `upper()`, `\s` and `\w` act on ASCII only. Only then does `query.upper()` keep positions aligned with `query`.
- General regular expressions. Each pattern the program uses is a dedicated scanner. The unused `subquery_pattern` (where_extractor.py:26) is dead code and is not modelled.
- The condition parser inside the walk is a function value (`Parsers`). `QueryConditionsWellFormed` and `ExtractWhereConditions` fix it to `parse_condition`.
- WhereClauses.PartConditionsWellFormed: the bound on table names holds only for alias tables whose values have no parenthesis. Every table that `extract_table_aliases` builds is of that kind.
- The `__main__` examples and every `print` (where_extractor.py:184-224, merge.py:39, merge.py:43-106) are console output only.
- `json.loads` is not modelled. Each input string arrives already parsed, as `Some(value)` or as `None` for a string that raises `JSONDecodeError`.
- JSON numbers are `JInt` or `JFloat(real)`. Floating-point rounding plays no part in a merge.
- JSON object key order is not kept: objects are maps.
- JsonMerge.MergeJsonObjects: requires `obj1` to be an object whenever `obj2` is one. Python's `dict(obj1)` raises for most other values, but it also accepts an empty list, a list of pairs or the empty string. Those cases are not modelled.
- JsonMerge.CombineJsonStrings: requires that no parsed object follows a parsed non-object, for the same reason.
- JsonMerge.MergeJsonObjects: object identity is not modelled. The value `obj1` holds afterwards is returned as `obj1After` and stated by `Aliased`. The fact that the extended list is the very object stored in both `obj1` and the result is not expressible over values.
