/** WHERE clause handling: the clause search of `parse_query`
    (where_extractor.py:62-73) and `parse_where_clause`
    (where_extractor.py:99-116), which splits the clause at `AND`/`OR` and
    parses every part that is neither empty nor a subquery placeholder. */
module WhereClauses {
  import opened Text
  import opened Options
  import opened Conditions

  /** `\bWHERE\s+` starts at `p`. */
  predicate WhereAt(q: string, p: nat) {
    WordStart(q, p) && LiteralAt(q, p, "WHERE") && p + 5 < |q| && IsSpace(q[p + 5])
  }

  function FindWhere(q: string, p: nat): (r: Option<nat>)
    requires p <= |q|
    ensures r.Some? ==> p <= r.value < |q| && WhereAt(q, r.value)
    ensures r.Some? ==> forall j :: p <= j < r.value ==> !WhereAt(q, j)
    ensures r.None? ==> forall j :: p <= j < |q| ==> !WhereAt(q, j)
    decreases |q| - p
  {
    if p == |q| then None
    else if WhereAt(q, p) then Some(p)
    else FindWhere(q, p + 1)
  }

  /** `\s+KW\s+BY` starting from the keyword position `c`. */
  predicate ByPairAt(q: string, c: nat, kw: string) {
    && LiteralAt(q, c, kw)
    && SkipSpaces(q, c + |kw|) > c + |kw|
    && LiteralAt(q, SkipSpaces(q, c + |kw|), "BY")
  }

  /** One of the keywords `GROUP BY`, `ORDER BY`, `HAVING`, `LIMIT` starts at
      `c`. */
  predicate ClosingKeywordAt(q: string, c: nat) {
    || ByPairAt(q, c, "GROUP")
    || ByPairAt(q, c, "ORDER")
    || LiteralAt(q, c, "HAVING")
    || LiteralAt(q, c, "LIMIT")
  }

  /** One of `\s+GROUP\s+BY`, `\s+ORDER\s+BY`, `\s+HAVING`, `\s+LIMIT`
      starts at `k`. The keywords start with letters, so the whitespace run
      in front of them is taken whole. */
  predicate KeywordAt(q: string, k: nat) {
    k < |q| && IsSpace(q[k]) && ClosingKeywordAt(q, SkipSpaces(q, k))
  }

  /** `$` without MULTILINE: at the end, or in front of a final newline. */
  predicate EndAt(q: string, k: nat) {
    k == |q| || (k + 1 == |q| && q[k] == '\n')
  }

  predicate TerminatorAt(q: string, k: nat) {
    KeywordAt(q, k) || EndAt(q, k)
  }

  /** Where the lazy `(.*?)` that starts at `k` stops: the first terminator. */
  function ClauseEnd(q: string, k: nat): (e: nat)
    requires k <= |q|
    ensures k <= e <= |q| && TerminatorAt(q, e)
    ensures forall j :: k <= j < e ==> !TerminatorAt(q, j)
    decreases |q| - k
  {
    if TerminatorAt(q, k) then k else ClauseEnd(q, k + 1)
  }

  /** Group 1 of the WHERE search, which runs over the whole text with
      IGNORECASE and DOTALL. The `(.*?)` starts after the whole whitespace run
      that follows `WHERE`; it can always stop at the end of the text, so
      that run is never given back. */
  function WhereClause(q: string): (r: Option<string>)
    ensures r.Some? <==> exists p :: 0 <= p < |q| && WhereAt(q, p)
    ensures r.Some? ==> forall j :: 0 <= j < |r.value| ==> !KeywordAt(r.value, j)
  {
    match FindWhere(q, 0)
    case None => None
    case Some(p) =>
      var c := SkipSpaces(q, p + 5);
      var e := ClauseEnd(q, c);
      ClauseHasNoKeyword(q, c, e);
      Some(q[c..e])
  }

  /** The clause is the text after the first `WHERE` and its whitespace, up to
      the first terminator from there on. */
  lemma WhereClauseSlice(q: string)
    ensures WhereClause(q).Some? ==>
      exists p, e ::
        && 0 <= p < |q| && WhereAt(q, p)
        && (forall j :: 0 <= j < p ==> !WhereAt(q, j))
        && SkipSpaces(q, p + 5) <= e <= |q| && TerminatorAt(q, e)
        && (forall j :: SkipSpaces(q, p + 5) <= j < e ==> !TerminatorAt(q, j))
        && WhereClause(q).value == q[SkipSpaces(q, p + 5)..e]
  {
    match FindWhere(q, 0)
    case None =>
    case Some(p) =>
      var e := ClauseEnd(q, SkipSpaces(q, p + 5));
      assert WhereClause(q).value == q[SkipSpaces(q, p + 5)..e];
  }

  /** A slice free of terminators in the whole text holds no keyword of its
      own. */
  lemma ClauseHasNoKeyword(q: string, c: nat, e: nat)
    requires c <= e <= |q|
    requires forall j :: c <= j < e ==> !TerminatorAt(q, j)
    ensures forall j :: 0 <= j < e - c ==> !KeywordAt(q[c..e], j)
  {
    forall j | 0 <= j < e - c ensures !KeywordAt(q[c..e], j) {
      KeywordInSlice(q, c, e, j);
      assert !TerminatorAt(q, c + j);
    }
  }

  /** A keyword found in a slice is also found in the whole text. */
  lemma KeywordInSlice(q: string, a: nat, b: nat, j: nat)
    requires a <= b <= |q| && j < b - a
    ensures KeywordAt(q[a..b], j) ==> KeywordAt(q, a + j)
  {
    var t := q[a..b];
    if KeywordAt(t, j) {
      assert t[j] == q[a + j];
      var c := SkipSpaces(t, j);
      ClosingKeywordInside(t, c);
      SkipSpacesSlice(q, a, b, j);
      ClosingKeywordInSlice(q, a, b, c);
      assert SkipSpaces(q, a + j) == a + c;
    }
  }

  lemma ClosingKeywordInside(t: string, c: nat)
    ensures ClosingKeywordAt(t, c) ==> c < |t|
  {
  }

  lemma ClosingKeywordInSlice(q: string, a: nat, b: nat, c: nat)
    requires a <= b <= |q| && c < b - a
    requires ClosingKeywordAt(q[a..b], c)
    ensures ClosingKeywordAt(q, a + c)
  {
    var t := q[a..b];
    if ByPairAt(t, c, "GROUP") {
      ByPairInSlice(q, a, b, c, "GROUP");
    } else if ByPairAt(t, c, "ORDER") {
      ByPairInSlice(q, a, b, c, "ORDER");
    } else if LiteralAt(t, c, "HAVING") {
      LiteralSlice(q, a, b, c, "HAVING");
    } else {
      LiteralSlice(q, a, b, c, "LIMIT");
    }
  }

  lemma ByPairInSlice(q: string, a: nat, b: nat, c: nat, kw: string)
    requires a <= b <= |q| && ByPairAt(q[a..b], c, kw)
    ensures ByPairAt(q, a + c, kw)
  {
    var t := q[a..b];
    LiteralSlice(q, a, b, c, kw);
    var d := SkipSpaces(t, c + |kw|);
    SkipSpacesSlice(q, a, b, c + |kw|);
    LiteralSlice(q, a, b, d, "BY");
  }

  /** `AND` or `OR` at `c` followed by whitespace; the result is the end of
      that whitespace. */
  function ConnectorTail(s: string, c: nat): (r: Option<nat>)
    ensures r.Some? ==> c < r.value <= |s|
  {
    if LiteralAt(s, c, "AND") && SkipSpaces(s, c + 3) > c + 3 then Some(SkipSpaces(s, c + 3))
    else if LiteralAt(s, c, "OR") && SkipSpaces(s, c + 2) > c + 2 then Some(SkipSpaces(s, c + 2))
    else None
  }

  /** `\s+(?:AND|OR)\s+` matches at `p`; the result is the end of the match.
      Both runs of whitespace are taken whole: the first because a letter
      follows it, the second because the pattern ends there. */
  function ConnectorAt(s: string, p: nat): (r: Option<nat>)
    ensures r.Some? ==> p < r.value <= |s|
  {
    if p < |s| && IsSpace(s[p]) then ConnectorTail(s, SkipSpaces(s, p)) else None
  }

  /** `re.search` for a connector at or after `p`. */
  function FindConnector(s: string, p: nat): (r: Option<nat>)
    requires p <= |s|
    ensures r.Some? ==> p <= r.value < |s| && ConnectorAt(s, r.value).Some?
    decreases |s| - p
  {
    if p == |s| then None
    else if ConnectorAt(s, p).Some? then Some(p)
    else FindConnector(s, p + 1)
  }

  /** The connector search finds the leftmost connector, and fails only
      where there is none. */
  lemma {:induction false} FindConnectorLeftmost(s: string, p: nat)
    requires p <= |s|
    ensures var r := FindConnector(s, p);
      && (r.Some? ==> forall j :: p <= j < r.value ==> ConnectorAt(s, j).None?)
      && (r.None? ==> forall j :: p <= j < |s| ==> ConnectorAt(s, j).None?)
    decreases |s| - p
  {
    if p < |s| && ConnectorAt(s, p).None? {
      FindConnectorLeftmost(s, p + 1);
    }
  }

  /** `re.split(r'\s+(?:AND|OR)\s+', s, flags=re.IGNORECASE)`: the text is cut
      at the leftmost connector and the rest is split in turn. A connector
      found in the rest is one in `s`, since the pattern looks neither
      behind its start nor past its end. */
  function Split(s: string): (r: seq<string>)
    ensures |r| > 0
    decreases |s|
  {
    match FindConnector(s, 0)
    case None => [s]
    case Some(p) => [s[..p]] + Split(s[ConnectorAt(s, p).value..])
  }

  /** The separators `re.split` drops, in order. */
  function Separators(s: string): (r: seq<string>)
    ensures |r| + 1 == |Split(s)|
    decreases |s|
  {
    match FindConnector(s, 0)
    case None => []
    case Some(p) =>
      var e := ConnectorAt(s, p).value;
      [s[p..e]] + Separators(s[e..])
  }

  /** Pieces and separators, interleaved. */
  function Rejoin(pieces: seq<string>, seps: seq<string>): string
    requires |pieces| == |seps| + 1
  {
    if seps == [] then pieces[0] else pieces[0] + seps[0] + Rejoin(pieces[1..], seps[1..])
  }

  predicate IsConnector(sep: string) {
    ConnectorAt(sep, 0) == Some(|sep|)
  }

  /** Splitting loses nothing: the pieces and the dropped separators give
      back the clause, every separator is a whole connector match, and no
      piece contains a connector of its own. */
  lemma {:induction false} SplitRoundTrip(s: string)
    ensures Rejoin(Split(s), Separators(s)) == s
    ensures forall i :: 0 <= i < |Separators(s)| ==> IsConnector(Separators(s)[i])
    ensures forall i :: 0 <= i < |Split(s)| ==> FindConnector(Split(s)[i], 0).None?
    decreases |s|
  {
    match FindConnector(s, 0)
    case None =>
    case Some(p) =>
      var e := ConnectorAt(s, p).value;
      var rest := s[e..];
      SplitRoundTrip(rest);
      assert Split(s) == [s[..p]] + Split(rest);
      assert Separators(s) == [s[p..e]] + Separators(rest);
      assert ([s[..p]] + Split(rest))[1..] == Split(rest);
      assert ([s[p..e]] + Separators(rest))[1..] == Separators(rest);
      assert s[..p] + s[p..e] + rest == s;
      ConnectorInSlice(s, p, e);
      PieceHasNoConnector(s, p);
  }

  /** The separator cut out at `p` is a connector match on its own. */
  lemma ConnectorInSlice(s: string, p: nat, e: nat)
    requires ConnectorAt(s, p) == Some(e)
    ensures IsConnector(s[p..e])
  {
    var t := s[p..e];
    var c := SkipSpaces(s, p);
    assert t[0] == s[p];
    SkipSpacesSlice(s, p, e, 0);
    assert SkipSpaces(t, 0) == c - p;
    ConnectorTailIntoSlice(s, p, e, c);
  }

  /** Keywords with different first letters cannot both start at `c`. */
  lemma FirstLetterDecides(s: string, c: nat, k1: string, k2: string)
    requires |k1| > 0 && |k2| > 0 && ToUpper(k1[0]) != ToUpper(k2[0])
    requires LiteralAt(s, c, k1)
    ensures !LiteralAt(s, c, k2)
  {
    assert SameIgnoringCase(s[c + 0], k1[0]);
  }

  lemma ConnectorTailIntoSlice(s: string, p: nat, e: nat, c: nat)
    requires p <= c && ConnectorTail(s, c) == Some(e)
    ensures ConnectorTail(s[p..e], c - p) == Some(e - p)
  {
    if LiteralAt(s, c, "AND") && SkipSpaces(s, c + 3) > c + 3 {
      LiteralIntoSlice(s, p, e, c, "AND");
      SkipSpacesSlice(s, p, e, c - p + 3);
    } else {
      assert LiteralAt(s, c, "OR");
      FirstLetterDecides(s, c, "OR", "AND");
      LiteralIntoSlice(s, p, e, c, "OR");
      SkipSpacesSlice(s, p, e, c - p + 2);
    }
  }

  /** A connector inside the piece in front of the leftmost match would be a
      connector of `s` further left. */
  lemma PieceHasNoConnector(s: string, p: nat)
    requires FindConnector(s, 0) == Some(p)
    ensures FindConnector(s[..p], 0).None?
  {
    assert s[..p] == s[0..p];
    FindConnectorLeftmost(s, 0);
    forall j | 0 <= j < p ensures ConnectorAt(s[0..p], j).None? {
      PrefixConnector(s, p, j);
    }
  }

  lemma PrefixConnector(s: string, p: nat, j: nat)
    requires j < p <= |s|
    ensures ConnectorAt(s[0..p], j).Some? ==> ConnectorAt(s, j).Some?
  {
    var t := s[0..p];
    if ConnectorAt(t, j).Some? {
      assert t[j] == s[j];
      var c := SkipSpaces(t, j);
      SkipSpacesSlice(s, 0, p, j);
      ConnectorTailSlice(s, p, c);
    }
  }

  lemma ConnectorTailSlice(s: string, p: nat, c: nat)
    requires p <= |s| && ConnectorTail(s[0..p], c).Some?
    ensures ConnectorTail(s, c).Some?
  {
    var t := s[0..p];
    if LiteralAt(t, c, "AND") && SkipSpaces(t, c + 3) > c + 3 {
      LiteralSlice(s, 0, p, c, "AND");
      SkipSpacesSlice(s, 0, p, c + 3);
    } else {
      LiteralSlice(s, 0, p, c, "OR");
      SkipSpacesSlice(s, 0, p, c + 2);
    }
  }

  /** What `parse_query` puts in place of a subquery inside the clause. */
  const Placeholder: string := " __SUBQUERY__ "

  /** The `for sq in subqueries` loop: each `(sq)` is replaced, in order. */
  function Substitute(w: string, subs: seq<string>): string {
    if subs == [] then w
    else ReplaceAll(Substitute(w, subs[..|subs| - 1]), "(" + subs[|subs| - 1] + ")", Placeholder)
  }

  /** A clause without `(` holds no subquery text, and is left alone. */
  lemma {:induction false} SubstituteWithoutParens(w: string, subs: seq<string>)
    requires forall i :: 0 <= i < |w| ==> w[i] != '('
    ensures Substitute(w, subs) == w
  {
    if subs != [] {
      SubstituteWithoutParens(w, subs[..|subs| - 1]);
      ReplaceAllAbsent(w, "(" + subs[|subs| - 1] + ")", Placeholder);
    }
  }

  /** The parts `parse_where_clause` parses: stripped, neither empty nor the
      placeholder. */
  predicate Parsed(part: string) {
    Trim(part) != [] && Trim(part) != "__SUBQUERY__"
  }

  /** `parse_condition` with the alias table fixed, as the loop of
      `parse_where_clause` applies it to each part. */
  function ConditionParser(aliases: map<string, string>): string -> Option<Condition> {
    c => ParseCondition(c, aliases)
  }

  /** The conditions the loop of `parse_where_clause` collects from `parts`,
      in order, when each part that is kept is handed to `parse`. */
  function PartConditions(parts: seq<string>, parse: string -> Option<Condition>): (r: seq<Condition>)
    ensures |r| <= |parts|
  {
    if parts == [] then []
    else
      var rest := PartConditions(parts[..|parts| - 1], parse);
      var part := Trim(parts[|parts| - 1]);
      if !Parsed(parts[|parts| - 1]) then rest
      else match parse(part)
        case None => rest
        case Some(c) => rest + [c]
  }

  /** A part that the loop keeps and for which `parse` finds a condition. */
  predicate Yields(part: string, parse: string -> Option<Condition>) {
    Parsed(part) && parse(Trim(part)).Some?
  }

  /** `idx` lists, in increasing order, exactly the positions of `parts` that
      yield a condition, and `cs[j]` is the condition found at `idx[j]`. */
  predicate Selects(parts: seq<string>, parse: string -> Option<Condition>, cs: seq<Condition>, idx: seq<nat>) {
    && |idx| == |cs|
    && Entries(parts, parse, cs, idx)
    && Increasing(idx)
    && (forall i :: 0 <= i < |parts| && Yields(parts[i], parse) ==> i in idx)
  }

  /** `cs[j]` is the condition of the part at `idx[j]`. */
  predicate Entries(parts: seq<string>, parse: string -> Option<Condition>, cs: seq<Condition>, idx: seq<nat>)
    requires |idx| == |cs|
  {
    forall j :: 0 <= j < |idx| ==>
      idx[j] < |parts| && Yields(parts[idx[j]], parse) && cs[j] == parse(Trim(parts[idx[j]])).value
  }

  predicate Increasing(idx: seq<nat>) {
    forall j, k :: 0 <= j < k < |idx| ==> idx[j] < idx[k]
  }

  /** The collected conditions are those of the parts that yield one, each
      exactly once and in the order of the parts; every other part (empty,
      the placeholder, or rejected by `parse`) contributes nothing. */
  lemma {:induction false} PartConditionsSelect(parts: seq<string>, parse: string -> Option<Condition>)
    ensures exists idx :: Selects(parts, parse, PartConditions(parts, parse), idx)
    decreases |parts|
  {
    if parts == [] {
      assert Selects(parts, parse, PartConditions(parts, parse), []);
    } else {
      var n := |parts| - 1;
      PartConditionsSelect(parts[..n], parse);
      var rest := PartConditions(parts[..n], parse);
      var idx0 :| Selects(parts[..n], parse, rest, idx0);
      PartConditionsStep(parts, n, parse);
      assert parts[..n + 1] == parts;
      if Yields(parts[n], parse) {
        SelectsExtend(parts, parse, rest, idx0);
      } else {
        SelectsSkip(parts, parse, rest, idx0);
      }
    }
  }

  lemma SelectsExtend(parts: seq<string>, parse: string -> Option<Condition>, cs: seq<Condition>, idx: seq<nat>)
    requires |parts| > 0 && Yields(parts[|parts| - 1], parse)
    requires Selects(parts[..|parts| - 1], parse, cs, idx)
    ensures Selects(parts, parse, cs + [parse(Trim(parts[|parts| - 1])).value], idx + [|parts| - 1])
  {
    var n := |parts| - 1;
    EntriesExtend(parts, parse, cs, idx);
    IncreasingExtend(idx, n);
    forall i | 0 <= i < |parts| && Yields(parts[i], parse) ensures i in idx + [n] {
      if i < n { assert parts[..n][i] == parts[i]; assert i in idx; }
    }
  }

  lemma EntriesExtend(parts: seq<string>, parse: string -> Option<Condition>, cs: seq<Condition>, idx: seq<nat>)
    requires |parts| > 0 && Yields(parts[|parts| - 1], parse)
    requires |idx| == |cs| && Entries(parts[..|parts| - 1], parse, cs, idx)
    ensures Entries(parts, parse, cs + [parse(Trim(parts[|parts| - 1])).value], idx + [|parts| - 1])
  {
    var n := |parts| - 1;
    var cs' := cs + [parse(Trim(parts[n])).value];
    var idx' := idx + [n];
    forall j | 0 <= j < |idx'|
      ensures idx'[j] < |parts| && Yields(parts[idx'[j]], parse) && cs'[j] == parse(Trim(parts[idx'[j]])).value
    {
      if j < |idx| {
        assert idx'[j] == idx[j] && cs'[j] == cs[j];
        assert parts[..n][idx[j]] == parts[idx[j]];
      }
    }
  }

  lemma IncreasingExtend(idx: seq<nat>, n: nat)
    requires Increasing(idx) && forall j :: 0 <= j < |idx| ==> idx[j] < n
    ensures Increasing(idx + [n])
  {
    var idx' := idx + [n];
    forall j, k | 0 <= j < k < |idx'| ensures idx'[j] < idx'[k] {
      if k < |idx| { assert idx'[j] == idx[j] && idx'[k] == idx[k]; }
      else { assert idx'[j] == idx[j]; }
    }
  }

  lemma SelectsSkip(parts: seq<string>, parse: string -> Option<Condition>, cs: seq<Condition>, idx: seq<nat>)
    requires |parts| > 0 && !Yields(parts[|parts| - 1], parse)
    requires Selects(parts[..|parts| - 1], parse, cs, idx)
    ensures Selects(parts, parse, cs, idx)
  {
    var n := |parts| - 1;
    forall i | 0 <= i < |parts| && Yields(parts[i], parse) ensures i in idx {
      assert parts[..n][i] == parts[i];
    }
  }

  /** One more part appends its condition when it yields one. */
  lemma PartConditionsStep(parts: seq<string>, i: nat, parse: string -> Option<Condition>)
    requires i < |parts|
    ensures PartConditions(parts[..i + 1], parse) ==
      PartConditions(parts[..i], parse) +
      (if Parsed(parts[i]) && parse(Trim(parts[i])).Some? then [parse(Trim(parts[i])).value] else [])
  {
    assert parts[..i + 1][..i] == parts[..i];
  }

  /** Every condition of `cs` is well formed, and none names a table with a
      parenthesis. */
  predicate AllWellFormed(cs: seq<Condition>) {
    forall i :: 0 <= i < |cs| ==> WellFormed(cs[i]) && NoParens(cs[i].tableName)
  }

  /** Every collected condition is well formed, and none names a table with
      a parenthesis when the alias table holds none. */
  lemma {:induction false} PartConditionsWellFormed(parts: seq<string>, aliases: map<string, string>)
    requires forall a :: a in aliases ==> NoParens(aliases[a])
    ensures AllWellFormed(PartConditions(parts, ConditionParser(aliases)))
    decreases |parts|
  {
    if parts != [] {
      var parse := ConditionParser(aliases);
      var init := parts[..|parts| - 1];
      var last := parts[|parts| - 1];
      PartConditionsWellFormed(init, aliases);
      var found := parse(Trim(last));
      assert found == ParseCondition(Trim(last), aliases);
      if Parsed(last) && found.Some? {
        ParseConditionWellFormed(Trim(last), aliases);
        AppendWellFormed(PartConditions(init, parse), found.value);
      }
    }
  }

  lemma AppendWellFormed(cs: seq<Condition>, c: Condition)
    requires AllWellFormed(cs) && WellFormed(c) && NoParens(c.tableName)
    ensures AllWellFormed(cs + [c])
  {
    var r := cs + [c];
    forall i | 0 <= i < |r| ensures WellFormed(r[i]) && NoParens(r[i].tableName) {
      if i < |cs| { assert r[i] == cs[i]; } else { assert r[i] == c; }
    }
  }

  /** `parse_where_clause` as written: the clause is split, and the parts are
      handled in order by `parse`, which is `parse_condition` with the
      caller's alias table (`ConditionParser`). */
  method ParseWhereClause(whereClause: string, parse: string -> Option<Condition>) returns (conditions: seq<Condition>)
    ensures conditions == PartConditions(Split(whereClause), parse)
  {
    var parts := Split(whereClause);
    conditions := CollectConditions(parts, parse);
  }

  /** The loop of `parse_where_clause`: each part is stripped and skipped
      when empty or the placeholder; the others are handed to the condition
      parser, and what it finds is appended. */
  method CollectConditions(parts: seq<string>, parse: string -> Option<Condition>) returns (conditions: seq<Condition>)
    ensures conditions == PartConditions(parts, parse)
  {
    conditions := [];
    for i := 0 to |parts|
      invariant conditions == PartConditions(parts[..i], parse)
    {
      PartConditionsStep(parts, i, parse);
      var part := Trim(parts[i]);
      if part == [] || part == "__SUBQUERY__" {
        continue;
      }
      var condition := parse(part);
      if condition.Some? {
        conditions := conditions + [condition.value];
      }
    }
    WholePrefix(parts);
  }
}
