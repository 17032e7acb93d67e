/** The query walk: `parse_query` (where_extractor.py:15-75) and its entry
    point `extract_where_conditions` (where_extractor.py:4, 181). One level of
    the walk extends the inherited alias table with the level's own aliases,
    descends into every isolated subquery with a copy of that table, then
    parses its own WHERE clause with the subqueries replaced by a
    placeholder.

    The walk is stated for any condition parser `parsers(aliases)`; the
    program's own is `ConditionParser`, `parse_condition` with the table
    fixed. */
module WhereExtractor {
  import opened Text
  import opened Options
  import opened Aliases
  import opened Subqueries
  import opened Conditions
  import opened WhereClauses

  /** The alias dictionary `parse_query` receives and updates in place. */
  class AliasTable {
    var entries: map<string, string>

    constructor (entries: map<string, string>)
      ensures this.entries == entries
    {
      this.entries := entries;
    }

    /** `dict.update`: the other map's bindings win. */
    method Update(other: map<string, string>)
      modifies this
      ensures entries == old(entries) + other
    {
      entries := entries + other;
    }

    /** `dict.copy`: a new table with the same bindings. */
    method Copy() returns (t: AliasTable)
      ensures fresh(t) && t.entries == entries
    {
      t := new AliasTable(entries);
    }
  }

  /** A condition parser for each alias table. */
  type Parsers = map<string, string> -> (string -> Option<Condition>)

  /** The text between the parentheses of `s` (where_extractor.py:53);
      every span the scan isolates lies inside the query, so the empty
      text never stands in for one. */
  function Inner(q: string, s: Span): string {
    if s.lo < s.hi < |q| then q[s.lo + 1..s.hi] else ""
  }

  /** The text between the parentheses of each span (`subqueries`). */
  function SubTexts(q: string, spans: seq<Span>): (r: seq<string>)
    ensures |r| == |spans|
    decreases |spans|
  {
    if spans == [] then [] else SubTexts(q, spans[..|spans| - 1]) + [Inner(q, spans[|spans| - 1])]
  }

  lemma SubTextsSnoc(q: string, spans: seq<Span>, s: Span)
    ensures SubTexts(q, spans + [s]) == SubTexts(q, spans) + [Inner(q, s)]
  {
    var longer := spans + [s];
    assert longer[..|longer| - 1] == spans;
    assert longer[|longer| - 1] == s;
  }

  /** The conditions one level of the walk reports for `q` when the caller's
      table is `inherited`: those of each isolated subquery, in order, each
      found with the level's table, then those of the level's own WHERE
      clause. */
  function Walk(q: string, inherited: map<string, string>, parsers: Parsers): seq<Condition>
    decreases |q|, 1
  {
    var aliases := inherited + TableAliases(q);
    var spans := Spans(q, Upper(q), 0);
    var subs := SubTexts(q, spans);
    SubConditions(subs, |q|, aliases, parsers) + LevelConditions(q, subs, parsers(aliases))
  }

  /** The conditions of the subquery texts `subs`, in order, each walked
      with the table `aliases`; a text is walked only when it is shorter
      than `bound`, the length of the query it was cut from, which every
      isolated subquery is. */
  function SubConditions(subs: seq<string>, bound: nat, aliases: map<string, string>, parsers: Parsers): seq<Condition>
    decreases bound, 0, |subs|
  {
    if subs == [] then []
    else
      SubConditions(subs[..|subs| - 1], bound, aliases, parsers) + SubWalk(subs[|subs| - 1], bound, aliases, parsers)
  }

  /** The walk of one subquery text, which is shorter than `bound`. */
  function SubWalk(t: string, bound: nat, aliases: map<string, string>, parsers: Parsers): seq<Condition>
    decreases bound, 0, 0
  {
    if |t| < bound then Walk(t, aliases, parsers) else []
  }

  /** Adding a text at the end adds its conditions at the end. */
  lemma SubConditionsSnoc(subs: seq<string>, t: string, bound: nat, aliases: map<string, string>, parsers: Parsers)
    ensures SubConditions(subs + [t], bound, aliases, parsers) ==
      SubConditions(subs, bound, aliases, parsers) + SubWalk(t, bound, aliases, parsers)
  {
    var longer := subs + [t];
    assert longer[..|longer| - 1] == subs;
    assert longer[|longer| - 1] == t;
  }

  /** The conditions of the level's own WHERE clause, with each text of
      `subs` in parentheses replaced by the placeholder; none when the level
      has no WHERE clause. */
  function LevelConditions(q: string, subs: seq<string>, parse: string -> Option<Condition>): seq<Condition> {
    match WhereClause(q)
    case None => []
    case Some(w) => PartConditions(Split(Substitute(w, subs)), parse)
  }

  /** What `extract_where_conditions` returns for `q` with the program's
      own condition parser. */
  function QueryConditions(q: string, inherited: map<string, string>): seq<Condition> {
    Walk(q, inherited, ConditionParser)
  }

  /** Each condition of the walk is well formed and names a table without
      parentheses, provided the inherited table holds none: every alias the
      walk adds is a word. */
  lemma {:induction false} QueryConditionsWellFormed(q: string, inherited: map<string, string>)
    requires forall a :: a in inherited ==> NoParens(inherited[a])
    ensures AllWellFormed(QueryConditions(q, inherited))
    decreases |q|, 1
  {
    var aliases := inherited + TableAliases(q);
    TableAliasesAreWords(q);
    forall a | a in aliases ensures NoParens(aliases[a]) {
      if a in TableAliases(q) { WordHasNoParens(TableAliases(q)[a]); }
    }
    var spans := Spans(q, Upper(q), 0);
    var subs := SubTexts(q, spans);
    SubConditionsWellFormed(subs, |q|, aliases);
    match WhereClause(q)
    case None =>
    case Some(w) =>
      PartConditionsWellFormed(Split(Substitute(w, subs)), aliases);
    ConcatWellFormed(SubConditions(subs, |q|, aliases, ConditionParser), LevelConditions(q, subs, ConditionParser(aliases)));
  }

  lemma {:induction false} SubConditionsWellFormed(subs: seq<string>, bound: nat, aliases: map<string, string>)
    requires forall a :: a in aliases ==> NoParens(aliases[a])
    ensures AllWellFormed(SubConditions(subs, bound, aliases, ConditionParser))
    decreases bound, 0, |subs|
  {
    if subs != [] {
      var t := subs[|subs| - 1];
      SubConditionsWellFormed(subs[..|subs| - 1], bound, aliases);
      if |t| < bound {
        QueryConditionsWellFormed(t, aliases);
      }
      ConcatWellFormed(SubConditions(subs[..|subs| - 1], bound, aliases, ConditionParser), SubWalk(t, bound, aliases, ConditionParser));
    }
  }

  lemma WordHasNoParens(w: string)
    requires IsWord(w)
    ensures NoParens(w)
  {
  }

  lemma ConcatWellFormed(a: seq<Condition>, b: seq<Condition>)
    requires AllWellFormed(a) && AllWellFormed(b)
    ensures AllWellFormed(a + b)
  {
    forall i | 0 <= i < |a + b| ensures WellFormed((a + b)[i]) && NoParens((a + b)[i].tableName) {
      if i < |a| { assert (a + b)[i] == a[i]; } else { assert (a + b)[i] == b[i - |a|]; }
    }
  }

  /** One more replacement applies the next subquery text. */
  lemma SubstituteStep(w: string, subs: seq<string>, k: nat)
    requires k < |subs|
    ensures Substitute(w, subs[..k + 1]) == ReplaceAll(Substitute(w, subs[..k]), "(" + subs[k] + ")", Placeholder)
  {
    assert subs[..k + 1][..k] == subs[..k];
  }

  /** A candidate with a closing parenthesis is the next span. */
  lemma SpansTake(q: string, t: string, start: nat, done: seq<Span>, ps: nat, pe: nat)
    requires |t| == |q| && start <= |q|
    requires FindSelect(t, start) == Some(ps) && MatchingParen(q, ps) == Some(pe)
    ensures done + Spans(q, t, start) == (done + [Span(ps, pe)]) + Spans(q, t, pe + 1)
  {
  }

  /** A candidate without one is skipped by one character. */
  lemma SpansSkip(q: string, t: string, start: nat, done: seq<Span>, ps: nat)
    requires |t| == |q| && start <= |q|
    requires FindSelect(t, start) == Some(ps) && MatchingParen(q, ps).None?
    ensures done + Spans(q, t, start) == done + Spans(q, t, ps + 1)
  {
  }

  /** When the search fails, or has reached the end, the spans found so far
      are all of them. */
  lemma NoMoreSpans(q: string, t: string, start: nat, done: seq<Span>)
    requires |t| == |q| && start <= |q|
    requires start == |q| || FindSelect(t, start).None?
    ensures done + Spans(q, t, start) == done
  {
    assert Spans(q, t, start) == [];
  }

  /** `t` is as long as `q` and has its `(` exactly where `q` has. */
  predicate SameParens(q: string, t: string) {
    |t| == |q| && forall j :: 0 <= j < |q| ==> (t[j] == '(' <==> q[j] == '(')
  }

  /** Upper-casing keeps every `(` in place. */
  lemma UpperSameParens(q: string)
    ensures SameParens(q, Upper(q))
  {
  }

  /** One level of the walk, with the spans and the table named. */
  lemma WalkLevel(q: string, inherited: map<string, string>, parsers: Parsers)
    ensures Walk(q, inherited, parsers) ==
      SubConditions(SubTexts(q, Spans(q, Upper(q), 0)), |q|, inherited + TableAliases(q), parsers)
        + LevelConditions(q, SubTexts(q, Spans(q, Upper(q), 0)), parsers(inherited + TableAliases(q)))
  {
  }

  /** `parse_query`: `table` is the caller's dictionary, extended in place
      with this level's aliases and otherwise left alone (the subqueries
      work on copies). */
  method ParseQuery(query: string, table: AliasTable, parsers: Parsers) returns (conditions: seq<Condition>)
    modifies table
    ensures table.entries == old(table.entries) + TableAliases(query)
    ensures conditions == Walk(query, old(table.entries), parsers)
    decreases |query|, 3
  {
    ghost var inherited := table.entries;
    var aliases := ExtractTableAliases(query);
    table.Update(aliases);
    var tempQuery := Upper(query);
    UpperSameParens(query);
    var subqueries;
    conditions, subqueries := IsolateSubqueries(query, tempQuery, table, parsers);
    var found := ParseLevelClause(query, subqueries, parsers(table.entries));
    conditions := conditions + found;
    WalkLevel(query, inherited, parsers);
  }

  /** The WHERE part of `parse_query` (where_extractor.py:61-73): find the
      clause, put the placeholder in for each isolated subquery in turn,
      and parse what remains. */
  method ParseLevelClause(query: string, subqueries: seq<string>, parse: string -> Option<Condition>)
    returns (found: seq<Condition>)
    ensures found == LevelConditions(query, subqueries, parse)
  {
    found := [];
    var whereMatch := WhereClause(query);
    if whereMatch.Some? {
      var whereClause := whereMatch.value;
      for k := 0 to |subqueries|
        invariant whereClause == Substitute(whereMatch.value, subqueries[..k])
      {
        SubstituteStep(whereMatch.value, subqueries, k);
        whereClause := ReplaceAll(whereClause, "(" + subqueries[k] + ")", Placeholder);
      }
      WholePrefix(subqueries);
      found := ParseWhereClause(whereClause, parse);
    }
  }

  /** The subquery loop of `parse_query` (where_extractor.py:27-59): search
      the upper-cased copy for `(SELECT`, find the closing parenthesis in the
      query, walk the text in between with a copy of the table, and resume
      after what was consumed. */
  method IsolateSubqueries(query: string, tempQuery: string, table: AliasTable, parsers: Parsers)
    returns (conditions: seq<Condition>, subqueries: seq<string>)
    requires SameParens(query, tempQuery)
    ensures subqueries == SubTexts(query, Spans(query, tempQuery, 0))
    ensures conditions == SubConditions(subqueries, |query|, table.entries, parsers)
    decreases |query|, 2
  {
    conditions := [];
    subqueries := [];
    var startIdx := 0;
    ghost var done: seq<Span> := [];
    while startIdx < |query|
      invariant startIdx <= |query|
      invariant done + Spans(query, tempQuery, startIdx) == Spans(query, tempQuery, 0)
      invariant subqueries == SubTexts(query, done)
      invariant conditions == SubConditions(subqueries, |query|, table.entries, parsers)
      decreases |query| - startIdx
    {
      var more, balanced, parenStart, parenEnd := FindNextSubquery(query, tempQuery, startIdx, done);
      if !more {
        break;
      }
      if balanced {
        conditions, subqueries := TakeSubquery(query, done, Span(parenStart, parenEnd), table, parsers, conditions, subqueries);
        done := done + [Span(parenStart, parenEnd)];
      }
      startIdx := parenEnd + 1;
    }
    NoMoreSpans(query, tempQuery, startIdx, done);
  }

  /** One search of the subquery loop (where_extractor.py:32-49): the next
      `(SELECT` candidate at or after `startIdx`, if any, and whether the
      counter finds its closing parenthesis. `done` stands for the spans
      isolated so far; the result says how the spans still to come follow
      from the position the loop resumes at. */
  method FindNextSubquery(query: string, tempQuery: string, startIdx: nat, ghost done: seq<Span>)
    returns (more: bool, balanced: bool, parenStart: nat, parenEnd: nat)
    requires SameParens(query, tempQuery) && startIdx <= |query|
    ensures !more ==> FindSelect(tempQuery, startIdx).None?
    ensures more ==> startIdx <= parenStart <= parenEnd < |query|
    ensures more && balanced ==> parenStart < parenEnd
    ensures more && balanced ==>
      done + Spans(query, tempQuery, startIdx) == (done + [Span(parenStart, parenEnd)]) + Spans(query, tempQuery, parenEnd + 1)
    ensures more && !balanced ==> done + Spans(query, tempQuery, startIdx) == done + Spans(query, tempQuery, parenEnd + 1)
  {
    var found := FindSelect(tempQuery, startIdx);
    if found.None? {
      return false, false, 0, 0;
    }
    parenStart := found.value;
    var parenCount;
    parenCount, parenEnd := FindClosingParen(query, parenStart);
    more := true;
    balanced := parenCount == 0;
    if balanced {
      SpansTake(query, tempQuery, startIdx, done, parenStart, parenEnd);
    } else {
      SpansSkip(query, tempQuery, startIdx, done, parenStart);
    }
  }

  /** A balanced candidate (where_extractor.py:52-56): its text is added to
      the subqueries and its walk, with a copy of the table, to the
      conditions. */
  method TakeSubquery(query: string, ghost done: seq<Span>, s: Span, table: AliasTable, parsers: Parsers,
                      conditions: seq<Condition>, subqueries: seq<string>)
    returns (conditions': seq<Condition>, subqueries': seq<string>)
    requires s.lo < s.hi < |query|
    requires subqueries == SubTexts(query, done)
    requires conditions == SubConditions(subqueries, |query|, table.entries, parsers)
    ensures subqueries' == SubTexts(query, done + [s])
    ensures conditions' == SubConditions(subqueries', |query|, table.entries, parsers)
    decreases |query|, 1
  {
    var subquery := query[s.lo + 1..s.hi];
    SubTextsSnoc(query, done, s);
    subqueries' := subqueries + [subquery];
    SubConditionsSnoc(subqueries, subquery, |query|, table.entries, parsers);
    var found := ParseSubquery(query, subquery, table, parsers);
    assert found == SubWalk(subquery, |query|, table.entries, parsers);
    conditions' := conditions + found;
  }

  /** `parse_query(subquery, table_aliases.copy())` (where_extractor.py:55):
      the subquery is walked with a copy, so the caller's table is not
      touched. */
  method ParseSubquery(query: string, subquery: string, table: AliasTable, parsers: Parsers)
    returns (conditions: seq<Condition>)
    requires |subquery| < |query|
    ensures conditions == Walk(subquery, table.entries, parsers)
    decreases |query|, 0
  {
    var copy := table.Copy();
    conditions := ParseQuery(subquery, copy, parsers);
  }

  /** `extract_where_conditions`: the walk from a fresh, empty table with
      the program's condition parser. Every condition it reports is well
      formed. */
  method ExtractWhereConditions(sql: string) returns (conditions: seq<Condition>)
    ensures conditions == QueryConditions(sql, map[])
    ensures AllWellFormed(conditions)
  {
    var table := new AliasTable(map[]);
    conditions := ParseQuery(sql, table, ConditionParser);
    QueryConditionsWellFormed(sql, map[]);
  }
}
