/** Alias Resolver: `extract_table_aliases` (where_extractor.py:77-97).
    Two `re.finditer` scans, one over `\bFROM\s+(\w+)(?:\s+AS)?\s+(\w+)` and
    one over the same pattern with JOIN, each binding alias -> table unless the
    upper-cased alias is in that scan's exclusion list. */
module Aliases {
  import opened Text
  import opened Options

  /** Upper-cased candidates never bound after FROM (where_extractor.py:86). */
  const FromExcluded: seq<string> := ["WHERE", "JOIN", "INNER", "LEFT", "RIGHT", "OUTER", "ON"]
  /** Upper-cased candidates never bound after JOIN (where_extractor.py:94). */
  const JoinExcluded: seq<string> := ["ON", "WHERE", "AND", "OR"]

  /** One match of the pattern: group 1, group 2, and where the match starts
      and ends. */
  datatype AliasMatch = AliasMatch(table: string, alias: string, start: nat, end: nat)

  predicate WordMap(m: map<string, string>) {
    forall a :: a in m ==> IsWord(a) && IsWord(m[a])
  }

  /** `AS`, whitespace and a word start at `g`: the optional `\s+AS` can be
      taken there and still leave `\s+(\w+)` a match. */
  predicate AsThenWord(q: string, g: nat) {
    && LiteralAt(q, g, "AS")
    && SkipSpaces(q, g + 2) > g + 2
    && SkipWord(q, SkipSpaces(q, g + 2)) > SkipSpaces(q, g + 2)
  }

  /** The pattern `\bKW\s+(\w+)(?:\s+AS)?\s+(\w+)` (case-insensitive) tried at
      position `p`. Greedy runs never need to give characters back here, so
      the only backtracking that matters is dropping the optional `\s+AS`. */
  function MatchAt(q: string, p: nat, kw: string): (r: Option<AliasMatch>)
    requires p <= |q|
    ensures r.Some? ==> r.value.start == p < r.value.end <= |q|
    ensures r.Some? ==> IsWord(r.value.table) && IsWord(r.value.alias)
  {
    if !(WordStart(q, p) && LiteralAt(q, p, kw)) then None
    else
      var afterKw := p + |kw|;
      var tableStart := SkipSpaces(q, afterKw);
      var tableEnd := SkipWord(q, tableStart);
      var gap := SkipSpaces(q, tableEnd);
      if tableStart == afterKw || tableEnd == tableStart || gap == tableEnd then None
      else if AsThenWord(q, gap) then
        var aliasStart := SkipSpaces(q, gap + 2);
        var aliasEnd := SkipWord(q, aliasStart);
        WordSlice(q, tableStart);
        WordSlice(q, aliasStart);
        Some(AliasMatch(q[tableStart..tableEnd], q[aliasStart..aliasEnd], p, aliasEnd))
      else
        var aliasEnd := SkipWord(q, gap);
        if aliasEnd == gap then None
        else
          WordSlice(q, tableStart);
          WordSlice(q, gap);
          Some(AliasMatch(q[tableStart..tableEnd], q[gap..aliasEnd], p, aliasEnd))
  }

  /** The pattern matches at `p` exactly when the keyword starts a word there
      and is followed by whitespace, a word, whitespace and another word
      (with `\s+AS\s+\w+` present, `\s+\w+` alone matches as well). */
  lemma MatchAtWhen(q: string, p: nat, kw: string)
    requires p <= |q|
    ensures MatchAt(q, p, kw).Some? <==>
      WordStart(q, p) && LiteralAt(q, p, kw) && TwoWordsFollow(q, p + |kw|)
  {
    if WordStart(q, p) && LiteralAt(q, p, kw) {
      var ts := SkipSpaces(q, p + |kw|);
      var gap := SkipSpaces(q, SkipWord(q, ts));
      if AsThenWord(q, gap) {
        assert SameIgnoringCase(q[gap + 0], "AS"[0]);
        assert IsWordChar(q[gap]);
      }
    }
  }

  /** Whitespace, a word, whitespace and another word start at `k`. */
  predicate TwoWordsFollow(q: string, k: nat)
    requires k <= |q|
  {
    var ts := SkipSpaces(q, k);
    var gap := SkipSpaces(q, SkipWord(q, ts));
    ts > k && SkipWord(q, ts) > ts && gap > SkipWord(q, ts) && SkipWord(q, gap) > gap
  }

  /** Group 1 is the whole word after the keyword. Group 2 is the word after
      `AS` when `AS`, whitespace and a word follow the table, and otherwise
      the word right after the table; either way it is a whole word and the
      match ends with it. */
  lemma MatchAtGroups(q: string, p: nat, kw: string)
    requires p <= |q| && MatchAt(q, p, kw).Some?
    ensures var m := MatchAt(q, p, kw).value;
      var ts := SkipSpaces(q, p + |kw|); var gap := SkipSpaces(q, SkipWord(q, ts));
      var aliasStart := if AsThenWord(q, gap) then SkipSpaces(q, gap + 2) else gap;
      && m.table == q[ts..SkipWord(q, ts)]
      && aliasStart <= m.end
      && m.alias == q[aliasStart..m.end]
      && (m.end == |q| || !IsWordChar(q[m.end]))
  {
    var ts := SkipSpaces(q, p + |kw|);
    var gap := SkipSpaces(q, SkipWord(q, ts));
    if AsThenWord(q, gap) {
      assert MatchAt(q, p, kw).value.end == SkipWord(q, SkipSpaces(q, gap + 2));
    } else {
      assert MatchAt(q, p, kw).value.end == SkipWord(q, gap);
    }
  }

  /** The run `SkipWord` passes over, when non-empty, is a word. */
  lemma WordSlice(q: string, p: nat)
    requires p <= |q| && SkipWord(q, p) > p
    ensures IsWord(q[p..SkipWord(q, p)])
  {
    SkipWordRun(q, p);
    var w := q[p..SkipWord(q, p)];
    forall i | 0 <= i < |w| ensures IsWordChar(w[i]) { assert w[i] == q[p + i]; }
  }

  /** `re.finditer` from position `p`: leftmost match, then resume at its end. */
  function Matches(q: string, kw: string, p: nat): (r: seq<AliasMatch>)
    requires p <= |q|
    ensures forall i :: 0 <= i < |r| ==> IsWord(r[i].table) && IsWord(r[i].alias)
    decreases |q| - p
  {
    if p == |q| then []
    else match MatchAt(q, p, kw)
      case Some(m) => [m] + Matches(q, kw, m.end)
      case None => Matches(q, kw, p + 1)
  }

  /** Every reported match is the pattern's match at its own start, at or
      after `p`. */
  predicate MatchesAtStarts(q: string, kw: string, p: nat, ms: seq<AliasMatch>) {
    forall i :: 0 <= i < |ms| ==> p <= ms[i].start < |q| && MatchAt(q, ms[i].start, kw) == Some(ms[i])
  }

  /** Each reported match ends before the next one starts. */
  predicate InOrder(ms: seq<AliasMatch>) {
    forall i :: 0 <= i < |ms| - 1 ==> ms[i].end <= ms[i + 1].start
  }

  /** Every position at or after `p` where the pattern matches lies within a
      reported match: it is the start of one, or inside one and skipped. */
  predicate Covered(q: string, kw: string, p: nat, ms: seq<AliasMatch>) {
    forall k :: p <= k < |q| && MatchAt(q, k, kw).Some? ==>
      exists i :: 0 <= i < |ms| && ms[i].start <= k < ms[i].end
  }

  /** The positions where the pattern matches. */
  function Hits(q: string, kw: string): nat -> bool {
    (k: nat) => k <= |q| && MatchAt(q, k, kw).Some?
  }

  /** `Covered` for any set of positions `hit`. */
  predicate CoveredBy(hit: nat -> bool, p: nat, n: nat, ms: seq<AliasMatch>) {
    forall k :: p <= k < n && hit(k) ==> exists i :: 0 <= i < |ms| && ms[i].start <= k < ms[i].end
  }

  /** Every match the scan reports is the pattern's match at its own start. */
  lemma {:induction false} MatchesSound(q: string, kw: string, p: nat)
    requires p <= |q|
    ensures MatchesAtStarts(q, kw, p, Matches(q, kw, p))
    decreases |q| - p
  {
    if p < |q| {
      match MatchAt(q, p, kw)
      case Some(m) =>
        MatchesSound(q, kw, m.end);
        StartsCons(q, kw, p, m, Matches(q, kw, m.end));
      case None =>
        MatchesSound(q, kw, p + 1);
    }
  }

  /** The reported matches do not overlap: each ends before the next starts. */
  lemma {:induction false} MatchesInOrder(q: string, kw: string, p: nat)
    requires p <= |q|
    ensures InOrder(Matches(q, kw, p))
    decreases |q| - p
  {
    if p < |q| {
      match MatchAt(q, p, kw)
      case Some(m) =>
        var rest := Matches(q, kw, m.end);
        MatchesInOrder(q, kw, m.end);
        MatchesSound(q, kw, m.end);
        OrderCons(m, rest);
      case None =>
        MatchesInOrder(q, kw, p + 1);
    }
  }

  /** The scan misses no match: wherever the pattern matches at or after
      `p`, that position is the start of a reported match or lies inside
      one. With `MatchesSound` and `MatchesInOrder`, the scan reports exactly
      the leftmost non-overlapping matches, as `re.finditer` does. */
  lemma MatchesComplete(q: string, kw: string, p: nat)
    requires p <= |q|
    ensures Covered(q, kw, p, Matches(q, kw, p))
  {
    var ms := Matches(q, kw, p);
    MatchesCover(q, kw, p);
    forall k | p <= k < |q| && MatchAt(q, k, kw).Some?
      ensures exists i :: 0 <= i < |ms| && ms[i].start <= k < ms[i].end
    {
      assert Hits(q, kw)(k);
      CoveredAt(Hits(q, kw), p, |q|, ms, k);
    }
  }

  lemma {:induction false} MatchesCover(q: string, kw: string, p: nat)
    requires p <= |q|
    ensures CoveredBy(Hits(q, kw), p, |q|, Matches(q, kw, p))
    decreases |q| - p
  {
    if p < |q| {
      match MatchAt(q, p, kw)
      case Some(m) =>
        MatchesCover(q, kw, m.end);
        CoverFound(q, kw, p, m);
      case None =>
        MatchesCover(q, kw, p + 1);
        CoverSkip(q, kw, p);
    }
  }

  lemma CoverFound(q: string, kw: string, p: nat, m: AliasMatch)
    requires p < |q| && MatchAt(q, p, kw) == Some(m)
    requires CoveredBy(Hits(q, kw), m.end, |q|, Matches(q, kw, m.end))
    ensures CoveredBy(Hits(q, kw), p, |q|, Matches(q, kw, p))
  {
    CoveredCons(Hits(q, kw), p, |q|, m, Matches(q, kw, m.end));
    assert Matches(q, kw, p) == [m] + Matches(q, kw, m.end);
  }

  lemma CoverSkip(q: string, kw: string, p: nat)
    requires p < |q| && MatchAt(q, p, kw).None?
    requires CoveredBy(Hits(q, kw), p + 1, |q|, Matches(q, kw, p + 1))
    ensures CoveredBy(Hits(q, kw), p, |q|, Matches(q, kw, p))
  {
    assert !Hits(q, kw)(p);
    CoveredSkip(Hits(q, kw), p, |q|, Matches(q, kw, p + 1));
    assert Matches(q, kw, p) == Matches(q, kw, p + 1);
  }

  lemma StartsCons(q: string, kw: string, p: nat, m: AliasMatch, rest: seq<AliasMatch>)
    requires p < |q| && MatchAt(q, p, kw) == Some(m)
    requires MatchesAtStarts(q, kw, m.end, rest)
    ensures MatchesAtStarts(q, kw, p, [m] + rest)
  {
    var ms := [m] + rest;
    forall i | 0 <= i < |ms| ensures p <= ms[i].start < |q| && MatchAt(q, ms[i].start, kw) == Some(ms[i]) {
      if i > 0 { assert ms[i] == rest[i - 1]; }
    }
  }

  lemma OrderCons(m: AliasMatch, rest: seq<AliasMatch>)
    requires InOrder(rest) && (|rest| > 0 ==> m.end <= rest[0].start)
    ensures InOrder([m] + rest)
  {
    var ms := [m] + rest;
    forall i | 0 <= i < |ms| - 1 ensures ms[i].end <= ms[i + 1].start {
      assert ms[i + 1] == rest[i];
      if i > 0 { assert ms[i] == rest[i - 1]; }
    }
  }

  lemma CoveredCons(hit: nat -> bool, p: nat, n: nat, m: AliasMatch, rest: seq<AliasMatch>)
    requires p == m.start < m.end && CoveredBy(hit, m.end, n, rest)
    ensures CoveredBy(hit, p, n, [m] + rest)
  {
    var ms := [m] + rest;
    forall k | p <= k < n && hit(k)
      ensures exists i :: 0 <= i < |ms| && ms[i].start <= k < ms[i].end
    {
      if k < m.end {
        assert ms[0].start <= k < ms[0].end;
      } else {
        var i :| 0 <= i < |rest| && rest[i].start <= k < rest[i].end;
        assert ms[i + 1] == rest[i];
      }
    }
  }

  lemma CoveredAt(hit: nat -> bool, p: nat, n: nat, ms: seq<AliasMatch>, k: nat)
    requires CoveredBy(hit, p, n, ms) && p <= k < n && hit(k)
    ensures exists i :: 0 <= i < |ms| && ms[i].start <= k < ms[i].end
  {
  }

  lemma CoveredSkip(hit: nat -> bool, p: nat, n: nat, ms: seq<AliasMatch>)
    requires !hit(p) && CoveredBy(hit, p + 1, n, ms)
    ensures CoveredBy(hit, p, n, ms)
  {
  }

  /** One loop iteration: the match is bound unless its upper-cased alias is
      excluded. */
  function Admit(m: map<string, string>, x: AliasMatch, excluded: seq<string>): map<string, string> {
    if Upper(x.alias) in excluded then m else m[x.alias := x.table]
  }

  /** Applies the matches in order to `m`, skipping excluded candidates. */
  function Bind(m: map<string, string>, ms: seq<AliasMatch>, excluded: seq<string>): map<string, string>
    decreases |ms|
  {
    if ms == [] then m else Bind(Admit(m, ms[0], excluded), ms[1..], excluded)
  }

  /** Binding the matches found from `p` on: the match at `p`, if any, first,
      then those after it. */
  lemma BindFrom(m: map<string, string>, q: string, kw: string, p: nat, excluded: seq<string>)
    requires p < |q|
    ensures Bind(m, Matches(q, kw, p), excluded) ==
      match MatchAt(q, p, kw)
      case Some(x) => Bind(Admit(m, x, excluded), Matches(q, kw, x.end), excluded)
      case None => Bind(m, Matches(q, kw, p + 1), excluded)
  {
    match MatchAt(q, p, kw)
    case Some(x) =>
      var rest := Matches(q, kw, x.end);
      assert ([x] + rest)[1..] == rest;
    case None =>
  }

  /** Reference definition: the table of the LAST admitted match whose alias is
      `a`, if there is one. */
  function LastBinding(ms: seq<AliasMatch>, a: string, excluded: seq<string>): (r: Option<string>)
    ensures r.Some? ==> Upper(a) !in excluded
    ensures r.Some? ==> exists i :: 0 <= i < |ms| && ms[i].alias == a && ms[i].table == r.value
    ensures r.None? ==> forall i :: 0 <= i < |ms| && ms[i].alias == a ==> Upper(a) in excluded
    decreases |ms|
  {
    if ms == [] then None
    else
      var later := LastBinding(ms[1..], a, excluded);
      if later.Some? then
        assert ms[1..][0] == ms[1];
        later
      else if ms[0].alias == a && Upper(a) !in excluded then Some(ms[0].table)
      else None
  }

  /** The whole map `extract_table_aliases` returns: FROM bindings first, then
      JOIN bindings on top of them. */
  function TableAliases(q: string): map<string, string> {
    Bind(Bind(map[], Matches(q, "FROM", 0), FromExcluded), Matches(q, "JOIN", 0), JoinExcluded)
  }

  /** Folding the matches into a map agrees with the reference definition: a
      key is bound exactly when it was bound before or some admitted match
      names it, and then to the last such match's table. */
  lemma {:induction false} BindBindsLast(m: map<string, string>, ms: seq<AliasMatch>, excluded: seq<string>, a: string)
    ensures a in Bind(m, ms, excluded) <==> a in m || LastBinding(ms, a, excluded).Some?
    ensures a in Bind(m, ms, excluded) ==>
      Bind(m, ms, excluded)[a] == if LastBinding(ms, a, excluded).Some? then LastBinding(ms, a, excluded).value else m[a]
    decreases |ms|
  {
    if ms != [] {
      BindBindsLast(Admit(m, ms[0], excluded), ms[1..], excluded, a);
    }
  }

  /** Alias handling within one scope: a key is bound iff an admitted FROM or
      JOIN match names it; a JOIN binding overrides a FROM binding of the same
      alias; among matches of one kind the last wins; and an alias whose
      upper-case form is excluded for a kind is never bound by that kind. */
  lemma TableAliasesResolve(q: string, a: string)
    ensures a in TableAliases(q) <==>
      LastBinding(Matches(q, "FROM", 0), a, FromExcluded).Some? || LastBinding(Matches(q, "JOIN", 0), a, JoinExcluded).Some?
    ensures LastBinding(Matches(q, "JOIN", 0), a, JoinExcluded).Some? ==>
      TableAliases(q)[a] == LastBinding(Matches(q, "JOIN", 0), a, JoinExcluded).value
    ensures LastBinding(Matches(q, "JOIN", 0), a, JoinExcluded).None? && LastBinding(Matches(q, "FROM", 0), a, FromExcluded).Some? ==>
      TableAliases(q)[a] == LastBinding(Matches(q, "FROM", 0), a, FromExcluded).value
  {
    var fromMap := Bind(map[], Matches(q, "FROM", 0), FromExcluded);
    BindBindsLast(map[], Matches(q, "FROM", 0), FromExcluded, a);
    BindBindsLast(fromMap, Matches(q, "JOIN", 0), JoinExcluded, a);
  }

  /** Binding only word-shaped matches keeps every key and table a word. */
  lemma {:induction false} BindKeepsWords(m: map<string, string>, ms: seq<AliasMatch>, excluded: seq<string>)
    requires WordMap(m)
    requires forall i :: 0 <= i < |ms| ==> IsWord(ms[i].table) && IsWord(ms[i].alias)
    ensures WordMap(Bind(m, ms, excluded))
    decreases |ms|
  {
    if ms != [] {
      BindKeepsWords(Admit(m, ms[0], excluded), ms[1..], excluded);
    }
  }

  /** Every alias and every table name in the map is a non-empty run of word
      characters (groups `(\w+)`), so neither holds a parenthesis or a dot. */
  lemma TableAliasesAreWords(q: string)
    ensures WordMap(TableAliases(q))
  {
    BindKeepsWords(map[], Matches(q, "FROM", 0), FromExcluded);
    BindKeepsWords(Bind(map[], Matches(q, "FROM", 0), FromExcluded), Matches(q, "JOIN", 0), JoinExcluded);
  }

  /** One `for match in re.finditer(...)` loop of `extract_table_aliases`. */
  method BindMatches(aliases: map<string, string>, query: string, kw: string, excluded: seq<string>)
    returns (r: map<string, string>)
    ensures r == Bind(aliases, Matches(query, kw, 0), excluded)
  {
    r := aliases;
    var p := 0;
    while p < |query|
      invariant p <= |query|
      invariant Bind(r, Matches(query, kw, p), excluded) == Bind(aliases, Matches(query, kw, 0), excluded)
      decreases |query| - p
    {
      BindFrom(r, query, kw, p, excluded);
      var m := MatchAt(query, p, kw);
      if m.Some? {
        if Upper(m.value.alias) !in excluded {
          r := r[m.value.alias := m.value.table];
        }
        p := m.value.end;
      } else {
        p := p + 1;
      }
    }
  }

  /** `extract_table_aliases`: the FROM loop, then the JOIN loop. */
  method ExtractTableAliases(query: string) returns (aliases: map<string, string>)
    ensures aliases == TableAliases(query)
    ensures WordMap(aliases)
  {
    aliases := BindMatches(map[], query, "FROM", FromExcluded);
    aliases := BindMatches(aliases, query, "JOIN", JoinExcluded);
    TableAliasesAreWords(query);
  }
}
