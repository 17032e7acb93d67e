/** Subquery Isolator: the scan loop of `parse_query` (where_extractor.py:29-59).
    It looks for `\(SELECT\s+` in the upper-cased query, counts parentheses
    from there to find the closing one, and resumes after whatever it
    consumed. The recursion into each span lives in the WhereExtractor module;
    this module describes which spans the scan isolates. */
module Subqueries {
  import opened Text
  import opened Options

  /** `\(SELECT\s+` matches at position `j` (case-insensitive). */
  predicate SelectAt(t: string, j: nat) {
    j < |t| && t[j] == '(' && LiteralAt(t, j + 1, "SELECT") && j + 7 < |t| && IsSpace(t[j + 7])
  }

  /** `re.search(r'\(SELECT\s+', t[start:], re.IGNORECASE)`, as an index into `t`. */
  function FindSelect(t: string, start: nat): (r: Option<nat>)
    requires start <= |t|
    ensures r.Some? ==> start <= r.value && SelectAt(t, r.value)
    decreases |t| - start
  {
    if start == |t| then None
    else if SelectAt(t, start) then Some(start)
    else FindSelect(t, start + 1)
  }

  /** The search finds the leftmost candidate, and fails only where there is
      none. */
  lemma {:induction false} FindSelectIsFirst(t: string, start: nat)
    requires start <= |t|
    ensures var r := FindSelect(t, start);
      && (r.Some? ==> forall j :: start <= j < r.value ==> !SelectAt(t, j))
      && (r.None? ==> forall j :: start <= j < |t| ==> !SelectAt(t, j))
    decreases |t| - start
  {
    if start < |t| && !SelectAt(t, start) {
      FindSelectIsFirst(t, start + 1);
    }
  }

  /** How one character moves the parenthesis counter. */
  function Delta(c: char): int {
    if c == '(' then 1 else if c == ')' then -1 else 0
  }

  /** Number of `(` minus number of `)` in `s`. */
  function Depth(s: string): int {
    if s == [] then 0 else Depth(s[..|s| - 1]) + Delta(s[|s| - 1])
  }

  /** The `for i in range(...)` counter loop as a function: scanning from `i`
      with counter `count`, the index of the `)` that brings the counter back
      to zero, if any. */
  function CloseFrom(q: string, i: nat, count: int): (r: Option<nat>)
    requires i <= |q|
    ensures r.Some? ==> i <= r.value < |q| && q[r.value] == ')'
    ensures r.Some? && count == 0 ==> i < r.value
    decreases |q| - i
  {
    if i == |q| then None
    else if q[i] == '(' then CloseFrom(q, i + 1, count + 1)
    else if q[i] == ')' then (if count - 1 == 0 then Some(i) else CloseFrom(q, i + 1, count - 1))
    else CloseFrom(q, i + 1, count)
  }

  /** The closing parenthesis the counter finds for the `(` at `ps`. */
  function MatchingParen(q: string, ps: nat): (r: Option<nat>)
    requires ps <= |q|
    ensures r.Some? ==> ps < r.value < |q| && q[r.value] == ')'
  {
    CloseFrom(q, ps, 0)
  }

  /** The counter after the scan has consumed `q[ps..e]`. */
  function DepthAt(q: string, ps: nat, e: nat): int
    requires ps <= e <= |q|
  {
    Depth(q[ps..e])
  }

  lemma DepthStep(q: string, ps: nat, i: nat)
    requires ps <= i < |q|
    ensures DepthAt(q, ps, i + 1) == DepthAt(q, ps, i) + Delta(q[i])
  {
    assert q[ps..i + 1][..i - ps] == q[ps..i];
  }

  lemma {:induction false} CloseFromFindsFirstZero(q: string, ps: nat, i: nat)
    requires ps < i <= |q|
    requires forall e :: ps < e <= i ==> DepthAt(q, ps, e) > 0
    ensures var r := CloseFrom(q, i, DepthAt(q, ps, i));
      && (r.Some? ==> DepthAt(q, ps, r.value + 1) == 0 && forall e :: ps < e <= r.value ==> DepthAt(q, ps, e) > 0)
      && (r.None? ==> forall e :: ps < e <= |q| ==> DepthAt(q, ps, e) > 0)
    decreases |q| - i
  {
    if i < |q| {
      DepthStep(q, ps, i);
      var c := DepthAt(q, ps, i);
      if q[i] == ')' && c - 1 == 0 {
      } else {
        assert DepthAt(q, ps, i + 1) > 0;
        CloseFromFindsFirstZero(q, ps, i + 1);
      }
    }
  }

  /** Parenthesis scan: starting on a `(`, the counter succeeds at the first
      index where the depth returns to 0, so the span is the shortest
      balanced one and the depth stays positive strictly inside it; and it
      fails exactly when the depth never returns to 0 before the end of the
      text. */
  lemma MatchingParenIsShortestBalanced(q: string, ps: nat)
    requires ps < |q| && q[ps] == '('
    ensures var r := MatchingParen(q, ps);
      && (r.Some? ==>
            && ps < r.value
            && DepthAt(q, ps, r.value + 1) == 0
            && forall e :: ps < e <= r.value ==> DepthAt(q, ps, e) > 0)
      && (r.None? ==> forall e :: ps < e <= |q| ==> DepthAt(q, ps, e) > 0)
  {
    DepthStep(q, ps, ps);
    assert DepthAt(q, ps, ps + 1) == 1;
    assert MatchingParen(q, ps) == CloseFrom(q, ps + 1, DepthAt(q, ps, ps + 1));
    CloseFromFindsFirstZero(q, ps, ps + 1);
  }

  /** An isolated subquery: `q[lo]` is the `(` of `(SELECT`, `q[hi]` its `)`. */
  datatype Span = Span(lo: nat, hi: nat)

  /** The spans the scan loop isolates, from search position `start` on. The
      search runs on `t`, the upper-cased copy of `q` (`temp_query`); the
      counter runs on `q` itself. A candidate without a closing parenthesis
      is skipped by one character; an isolated span is skipped as a whole (its
      own subqueries are the recursion's business). */
  function Spans(q: string, t: string, start: nat): seq<Span>
    requires |t| == |q| && start <= |q|
    decreases |q| - start
  {
    match FindSelect(t, start)
    case None => []
    case Some(ps) =>
      match MatchingParen(q, ps)
      case None => Spans(q, t, ps + 1)
      case Some(pe) => [Span(ps, pe)] + Spans(q, t, pe + 1)
  }

  /** What the scan guarantees about the spans it isolates, span by span: each
      one starts on a `(SELECT` candidate at or after `start` and ends on the
      `)` the counter finds for it (so it is the shortest balanced span), and
      the next one starts after it ends. */
  predicate WellFormedSpans(q: string, t: string, start: nat, r: seq<Span>)
    decreases |r|
  {
    r == [] ||
    (&& start <= r[0].lo < r[0].hi < |q|
     && SelectAt(t, r[0].lo)
     && MatchingParen(q, r[0].lo) == Some(r[0].hi)
     && WellFormedSpans(q, t, r[0].hi + 1, r[1..]))
  }

  lemma {:induction false} SpansWellFormed(q: string, t: string, start: nat)
    requires |t| == |q| && start <= |q|
    ensures WellFormedSpans(q, t, start, Spans(q, t, start))
    decreases |q| - start
  {
    match FindSelect(t, start)
    case None =>
    case Some(ps) =>
      match MatchingParen(q, ps)
      case None =>
        assert Spans(q, t, start) == Spans(q, t, ps + 1);
        SpansWellFormed(q, t, ps + 1);
        MonotoneStart(q, t, start, ps + 1, Spans(q, t, ps + 1));
      case Some(pe) =>
        var rest := Spans(q, t, pe + 1);
        assert Spans(q, t, start) == [Span(ps, pe)] + rest;
        assert ([Span(ps, pe)] + rest)[1..] == rest;
        SpansWellFormed(q, t, pe + 1);
  }

  /** Well-formedness from a later start implies it from an earlier one. */
  lemma {:induction false} MonotoneStart(q: string, t: string, start: nat, later: nat, r: seq<Span>)
    requires start <= later
    requires WellFormedSpans(q, t, later, r)
    ensures WellFormedSpans(q, t, start, r)
  {
  }

  /** The same guarantee stated over indices: every span lies in the text and
      starts at or after `start`, and spans are disjoint and in left-to-right
      order. */
  lemma {:induction false} WellFormedSpansOrdered(q: string, t: string, start: nat, r: seq<Span>)
    requires WellFormedSpans(q, t, start, r)
    ensures forall i :: 0 <= i < |r| ==> start <= r[i].lo < r[i].hi < |q|
    ensures forall i :: 0 <= i < |r| ==> SelectAt(t, r[i].lo) && MatchingParen(q, r[i].lo) == Some(r[i].hi)
    ensures forall i, j :: 0 <= i < j < |r| ==> r[i].hi < r[j].lo
    decreases |r|
  {
    if r != [] {
      var rest := r[1..];
      WellFormedSpansOrdered(q, t, r[0].hi + 1, rest);
      forall i | 0 < i < |r| ensures r[i] == rest[i - 1] { }
    }
  }

  /** Position `p` lies strictly inside one of the spans (after its `(`). */
  predicate Covered(spans: seq<Span>, p: nat)
    decreases |spans|
  {
    spans != [] && ((spans[0].lo < p <= spans[0].hi) || Covered(spans[1..], p))
  }

  /** Position `p` opens one of the spans. */
  predicate Opens(spans: seq<Span>, p: nat)
    decreases |spans|
  {
    spans != [] && (spans[0].lo == p || Opens(spans[1..], p))
  }

  /** Every `(SELECT` candidate at or after `start` that has a closing
      parenthesis and does not lie inside an isolated span is itself isolated:
      the scan misses no top-level subquery. */
  lemma {:induction false} SpansComplete(q: string, t: string, start: nat, p: nat)
    requires |t| == |q| && start <= p < |q|
    requires SelectAt(t, p) && MatchingParen(q, p).Some?
    requires !Covered(Spans(q, t, start), p)
    ensures Opens(Spans(q, t, start), p)
    decreases |q| - start
  {
    FindSelectIsFirst(t, start);
    var ps := FindSelect(t, start).value;
    if ps < p {
      match MatchingParen(q, ps)
      case None =>
        SpansComplete(q, t, ps + 1, p);
      case Some(pe) =>
        var rest := Spans(q, t, pe + 1);
        assert ([Span(ps, pe)] + rest)[1..] == rest;
        SpansComplete(q, t, pe + 1, p);
    }
  }

  /** Lines 37-49: the parenthesis counter loop, starting on the `(` at
      `parenStart`. Success is reported as `parenCount == 0`, as the source
      tests it. */
  method FindClosingParen(query: string, parenStart: nat) returns (parenCount: int, parenEnd: nat)
    requires parenStart < |query| && query[parenStart] == '('
    ensures parenCount == 0 <==> MatchingParen(query, parenStart).Some?
    ensures parenCount == 0 ==> parenEnd == MatchingParen(query, parenStart).value
    ensures parenCount != 0 ==> parenEnd == parenStart
  {
    parenCount := 0;
    parenEnd := parenStart;
    for i := parenStart to |query|
      invariant parenEnd == parenStart
      invariant CloseFrom(query, i, parenCount) == MatchingParen(query, parenStart)
      invariant i == parenStart ==> parenCount == 0
      invariant i > parenStart ==> parenCount > 0
    {
      if query[i] == '(' {
        parenCount := parenCount + 1;
      } else if query[i] == ')' {
        parenCount := parenCount - 1;
        if parenCount == 0 {
          parenEnd := i;
          break;
        }
      }
    }
  }
}
