/** Column-expression normaliser: `strip_functions` (where_extractor.py:118-141).
    It peels the listed SQL function calls off the left-hand side of a
    condition, drops `AS type` clauses and every parenthesis, and keeps the
    first `table.column` or `column` reference that remains. */
module ColumnExpr {
  import opened Text
  import opened Options

  /** The function names whose calls are removed, in the order they are tried. */
  const FunctionNames: seq<string> :=
    ["CAST", "NVL", "NVL2", "COALESCE", "UPPER", "LOWER", "TRIM",
     "LTRIM", "RTRIM", "TO_DATE", "TO_CHAR", "TO_NUMBER", "SUBSTR"]

  /** `\bFUNC\s*\(` matches at `p` (case-insensitively). Every name in
      `FunctionNames` starts with a letter, so `\b` only looks at `s[p - 1]`. */
  predicate CallAt(s: string, p: nat, f: string) {
    && WordStart(s, p)
    && LiteralAt(s, p, f)
    && SkipSpaces(s, p + |f|) < |s|
    && s[SkipSpaces(s, p + |f|)] == '('
  }

  /** One past the `(` of the call matched at `p`. */
  function CallEnd(s: string, p: nat, f: string): (e: nat)
    requires CallAt(s, p, f)
    ensures p < e <= |s|
  {
    SkipSpaces(s, p + |f|) + 1
  }

  /** `re.search` for a call of `f` at or after `p`. */
  function FindCall(s: string, f: string, p: nat): (r: Option<nat>)
    requires p <= |s|
    ensures r.Some? ==> p <= r.value < |s| && CallAt(s, r.value, f)
    decreases |s| - p
  {
    if p == |s| then None
    else if CallAt(s, p, f) then Some(p)
    else FindCall(s, f, p + 1)
  }

  /** The search finds the leftmost call, and fails only where there is none. */
  lemma {:induction false} FindCallIsFirst(s: string, f: string, p: nat)
    requires p <= |s|
    ensures var r := FindCall(s, f, p);
      && (r.Some? ==> forall j :: p <= j < r.value ==> !CallAt(s, j, f))
      && (r.None? ==> forall j :: p <= j < |s| ==> !CallAt(s, j, f))
    decreases |s| - p
  {
    if p < |s| && !CallAt(s, p, f) { FindCallIsFirst(s, f, p + 1); }
  }

  /** `re.sub(pattern, '', s)` applied to `s[p..]`: every call head found
      scanning left to right is deleted, and the scan resumes after it. The
      word-boundary test looks at the text in front of `p` as well. */
  function RemoveCalls(s: string, f: string, p: nat): (r: string)
    requires p <= |s|
    ensures |r| <= |s| - p
    decreases |s| - p
  {
    if p == |s| then []
    else if CallAt(s, p, f) then RemoveCalls(s, f, CallEnd(s, p, f))
    else [s[p]] + RemoveCalls(s, f, p + 1)
  }

  /** A substitution that finds a call deletes at least one character: this
      is why each `while` loop of `strip_functions` ends. */
  lemma {:induction false} RemoveCallsShortens(s: string, f: string, p: nat)
    requires p <= |s| && FindCall(s, f, p).Some?
    ensures |RemoveCalls(s, f, p)| < |s| - p
    decreases |s| - p
  {
    if !CallAt(s, p, f) {
      RemoveCallsShortens(s, f, p + 1);
    }
  }

  /** The `while re.search(...): expr = re.sub(...)` loop for one name: it
      stops only when no call of `f` is left. */
  function StripCalls(s: string, f: string): (r: string)
    ensures |r| <= |s|
    ensures FindCall(r, f, 0).None?
    decreases |s|
  {
    if FindCall(s, f, 0).Some? then
      RemoveCallsShortens(s, f, 0);
      StripCalls(RemoveCalls(s, f, 0), f)
    else s
  }

  /** The loops for the names `fs`, in order. */
  function StripAll(s: string, fs: seq<string>): (r: string)
    ensures |r| <= |s|
    ensures |fs| > 0 ==> FindCall(r, fs[|fs| - 1], 0).None?
  {
    if fs == [] then s else StripCalls(StripAll(s, fs[..|fs| - 1]), fs[|fs| - 1])
  }

  /** `\s+AS\s+\w+` matches at `p`; the result is the end of the match. The
      keyword starts with a letter, so the first whitespace run is taken
      whole; so is the second, since a word follows it. */
  function AsClauseAt(s: string, p: nat): (r: Option<nat>)
    ensures r.Some? ==> p < r.value <= |s|
  {
    if p < |s| && IsSpace(s[p]) then
      var c := SkipSpaces(s, p);
      if LiteralAt(s, c, "AS") then
        var d := SkipSpaces(s, c + 2);
        var e := SkipWord(s, d);
        if d > c + 2 && e > d then Some(e) else None
      else None
    else None
  }

  /** `re.sub(r'\s+AS\s+\w+', '', s)` applied to `s[p..]`. */
  function RemoveAsClauses(s: string, p: nat): (r: string)
    requires p <= |s|
    ensures |r| <= |s| - p
    decreases |s| - p
  {
    if p == |s| then []
    else match AsClauseAt(s, p)
      case Some(e) => RemoveAsClauses(s, e)
      case None => [s[p]] + RemoveAsClauses(s, p + 1)
  }

  /** A matcher: the end of the match starting at each position, if any. */
  function AsMatch(s: string): nat -> Option<nat> {
    (i: nat) => AsClauseAt(s, i)
  }

  function CallMatch(s: string, f: string): nat -> Option<nat> {
    (i: nat) => if CallAt(s, i, f) then Some(CallEnd(s, i, f)) else None
  }

  /** `spans` are the matches a left-to-right, non-overlapping scan of
      `s[p..]` takes: each `(a, b)` is a match from `a` to `b`, and no match
      starts at a position the scan passes over before `a` or after the last
      span. */
  predicate Scan(s: string, m: nat -> Option<nat>, p: nat, spans: seq<(nat, nat)>)
    decreases |spans|
  {
    if spans == [] then p <= |s| && forall i: nat :: p <= i < |s| ==> m(i).None?
    else
      && p <= spans[0].0 < spans[0].1 <= |s|
      && m(spans[0].0) == Some(spans[0].1)
      && (forall i: nat :: p <= i < spans[0].0 ==> m(i).None?)
      && Scan(s, m, spans[0].1, spans[1..])
  }

  /** `s[p..m1] + s[e1..m2] + ... + s[en..]`: the text with the spans cut out. */
  function Keep(s: string, p: nat, spans: seq<(nat, nat)>): string
    requires Chain(s, p, spans)
    decreases |spans|
  {
    if spans == [] then s[p..] else s[p..spans[0].0] + Keep(s, spans[0].1, spans[1..])
  }

  /** The spans lie in `s[p..]`, in order and without overlap. */
  predicate Chain(s: string, p: nat, spans: seq<(nat, nat)>)
    decreases |spans|
  {
    if spans == [] then p <= |s|
    else p <= spans[0].0 <= spans[0].1 <= |s| && Chain(s, spans[0].1, spans[1..])
  }

  /** The scan is determined by the matcher: there is only one, so `Cuts`
      below pins the substitution's result. */
  lemma {:induction false} ScanUnique(s: string, m: nat -> Option<nat>, p: nat, x: seq<(nat, nat)>, y: seq<(nat, nat)>)
    requires Scan(s, m, p, x) && Scan(s, m, p, y)
    ensures x == y
    decreases |x|
  {
    if x != [] && y != [] {
      assert x[0] == y[0];
      ScanUnique(s, m, x[0].1, x[1..], y[1..]);
      assert x == [x[0]] + x[1..] && y == [y[0]] + y[1..];
    }
  }

  /** `r` is `s[p..]` with the spans of some left-to-right scan cut out. */
  ghost predicate Cuts(s: string, m: nat -> Option<nat>, p: nat, r: string) {
    exists spans :: Scan(s, m, p, spans) && Chain(s, p, spans) && r == Keep(s, p, spans)
  }

  /** A position without a match is kept in front of what the scan leaves. */
  lemma CutsKeep(s: string, m: nat -> Option<nat>, p: nat, r: string)
    requires p < |s| && m(p).None? && Cuts(s, m, p + 1, r)
    ensures Cuts(s, m, p, [s[p]] + r)
  {
    var spans :| Scan(s, m, p + 1, spans) && Chain(s, p + 1, spans) && r == Keep(s, p + 1, spans);
    ScanKeeps(s, m, p, spans);
    KeepKeeps(s, p, spans);
  }

  lemma ScanKeeps(s: string, m: nat -> Option<nat>, p: nat, spans: seq<(nat, nat)>)
    requires p < |s| && m(p).None?
    requires Scan(s, m, p + 1, spans) && Chain(s, p + 1, spans)
    ensures Scan(s, m, p, spans) && Chain(s, p, spans)
  {
    if spans == [] {
      forall i: nat | p <= i < |s| ensures m(i).None? {
        if i > p { assert p + 1 <= i; }
      }
    } else {
      forall i: nat | p <= i < spans[0].0 ensures m(i).None? {
        if i > p { assert p + 1 <= i; }
      }
    }
  }

  lemma KeepKeeps(s: string, p: nat, spans: seq<(nat, nat)>)
    requires p < |s| && Chain(s, p + 1, spans)
    ensures Chain(s, p, spans) && Keep(s, p, spans) == [s[p]] + Keep(s, p + 1, spans)
  {
    if spans == [] {
      assert s[p..] == [s[p]] + s[p + 1..];
    } else {
      var a, k := spans[0].0, Keep(s, spans[0].1, spans[1..]);
      assert Keep(s, p + 1, spans) == s[p + 1..a] + k;
      assert s[p..a] == [s[p]] + s[p + 1..a];
      assert [s[p]] + (s[p + 1..a] + k) == ([s[p]] + s[p + 1..a]) + k;
    }
  }

  /** A match at the scan position is cut out whole. */
  lemma CutsCut(s: string, m: nat -> Option<nat>, p: nat, e: nat, r: string)
    requires p < e <= |s| && m(p) == Some(e) && Cuts(s, m, e, r)
    ensures Cuts(s, m, p, r)
  {
    var spans :| Scan(s, m, e, spans) && Chain(s, e, spans) && r == Keep(s, e, spans);
    var all := [(p, e)] + spans;
    assert all[1..] == spans;
    assert s[p..p] == [];
    assert Scan(s, m, p, all) && Chain(s, p, all) && r == Keep(s, p, all);
  }

  /** `re.sub(r'\s+AS\s+\w+', '', s)` cuts out exactly the matches of a
      left-to-right scan that resumes after each match. */
  lemma {:induction false} RemoveAsClausesCuts(s: string, p: nat)
    requires p <= |s|
    ensures Cuts(s, AsMatch(s), p, RemoveAsClauses(s, p))
    decreases |s| - p
  {
    var m := AsMatch(s);
    if p == |s| {
      assert Scan(s, m, p, []) && Chain(s, p, []) && RemoveAsClauses(s, p) == Keep(s, p, []);
    } else {
      match AsClauseAt(s, p)
      case Some(e) =>
        RemoveAsClausesCuts(s, e);
        CutsCut(s, m, p, e, RemoveAsClauses(s, e));
      case None =>
        RemoveAsClausesCuts(s, p + 1);
        CutsKeep(s, m, p, RemoveAsClauses(s, p + 1));
    }
  }

  /** `re.sub(r'\bFUNC\s*\(', '', s)` likewise cuts out exactly the call
      heads of a left-to-right scan. */
  lemma {:induction false} RemoveCallsCuts(s: string, f: string, p: nat)
    requires p <= |s|
    ensures Cuts(s, CallMatch(s, f), p, RemoveCalls(s, f, p))
    decreases |s| - p
  {
    var m := CallMatch(s, f);
    if p == |s| {
      assert Scan(s, m, p, []) && Chain(s, p, []) && RemoveCalls(s, f, p) == Keep(s, p, []);
    } else if CallAt(s, p, f) {
      RemoveCallsCuts(s, f, CallEnd(s, p, f));
      CutsCut(s, m, p, CallEnd(s, p, f), RemoveCalls(s, f, CallEnd(s, p, f)));
    } else {
      RemoveCallsCuts(s, f, p + 1);
      CutsKeep(s, m, p, RemoveCalls(s, f, p + 1));
    }
  }

  /** `r` is `s[p..]` with some characters deleted: `idx` gives, in
      increasing order, the position in `s` each character of `r` comes from. */
  predicate Embedding(r: string, s: string, p: nat, idx: seq<nat>) {
    && |idx| == |r|
    && (forall j :: 0 <= j < |idx| ==> p <= idx[j] < |s| && r[j] == s[idx[j]])
    && (forall j, k :: 0 <= j < k < |idx| ==> idx[j] < idx[k])
  }

  /** The substitution only deletes: what is left is a subsequence of
      `s[p..]`, so every character left comes from `s[p..]`. */
  lemma {:induction false} RemoveAsClausesWithin(s: string, p: nat)
    requires p <= |s|
    ensures exists idx :: Embedding(RemoveAsClauses(s, p), s, p, idx)
    ensures forall x :: x in RemoveAsClauses(s, p) ==> x in s[p..]
    decreases |s| - p
  {
    var r := RemoveAsClauses(s, p);
    if p == |s| {
      assert Embedding(r, s, p, []);
    } else {
      match AsClauseAt(s, p)
      case Some(e) =>
        RemoveAsClausesWithin(s, e);
        var idx :| Embedding(r, s, e, idx);
        assert Embedding(r, s, p, idx);
      case None =>
        RemoveAsClausesWithin(s, p + 1);
        var tail := RemoveAsClauses(s, p + 1);
        var idx :| Embedding(tail, s, p + 1, idx);
        assert r == [s[p]] + tail;
        assert Embedding(r, s, p, [p] + idx);
    }
    var idx :| Embedding(r, s, p, idx);
    EmbeddingWithin(r, s, p, idx);
  }

  lemma EmbeddingWithin(r: string, s: string, p: nat, idx: seq<nat>)
    requires p <= |s| && Embedding(r, s, p, idx)
    ensures forall x :: x in r ==> x in s[p..]
  {
    forall x | x in r ensures x in s[p..] {
      var k :| 0 <= k < |r| && r[k] == x;
      assert s[p..][idx[k] - p] == x;
    }
  }

  /** Where no `AS` clause matches, nothing is removed. */
  lemma {:induction false} RemoveAsClausesNone(s: string, p: nat)
    requires p <= |s|
    requires forall i :: p <= i < |s| ==> AsClauseAt(s, i).None?
    ensures RemoveAsClauses(s, p) == s[p..]
    decreases |s| - p
  {
    if p < |s| {
      RemoveAsClausesNone(s, p + 1);
      assert s[p..] == [s[p]] + s[p + 1..];
    }
  }

  /** An `AS` clause needs whitespace and the letters of `AS`. */
  lemma AsClauseNeeds(s: string, p: nat)
    requires AsClauseAt(s, p).Some?
    ensures exists i :: 0 <= i < |s| && IsSpace(s[i])
    ensures exists i :: 0 <= i < |s| && IsWordChar(s[i])
  {
    var c := SkipSpaces(s, p);
    assert SameIgnoringCase(s[c + 0], "AS"[0]);
    assert IsWordChar(s[c]);
  }

  /** Index of the first word character at or after `p`. */
  function FirstWordChar(s: string, p: nat): (r: Option<nat>)
    requires p <= |s|
    ensures r.Some? ==> p <= r.value < |s| && IsWordChar(s[r.value])
    decreases |s| - p
  {
    if p == |s| then None
    else if IsWordChar(s[p]) then Some(p)
    else FirstWordChar(s, p + 1)
  }

  lemma {:induction false} FirstWordCharIsFirst(s: string, p: nat)
    requires p <= |s|
    ensures var r := FirstWordChar(s, p);
      && (r.Some? ==> forall j :: p <= j < r.value ==> !IsWordChar(s[j]))
      && (r.None? ==> forall j :: p <= j < |s| ==> !IsWordChar(s[j]))
    decreases |s| - p
  {
    if p < |s| && !IsWordChar(s[p]) { FirstWordCharIsFirst(s, p + 1); }
  }

  /** Index of the first `.` in `s`, as `str.split('.', 1)` finds it. */
  function FirstDot(s: string, p: nat): (r: Option<nat>)
    requires p <= |s|
    ensures r.Some? ==> p <= r.value < |s| && s[r.value] == '.'
    decreases |s| - p
  {
    if p == |s| then None
    else if s[p] == '.' then Some(p)
    else FirstDot(s, p + 1)
  }

  lemma {:induction false} FirstDotIsFirst(s: string, p: nat)
    requires p <= |s|
    ensures var r := FirstDot(s, p);
      && (r.Some? ==> forall j :: p <= j < r.value ==> s[j] != '.')
      && (r.None? ==> forall j :: p <= j < |s| ==> s[j] != '.')
    decreases |s| - p
  {
    if p < |s| && s[p] != '.' { FirstDotIsFirst(s, p + 1); }
  }

  predicate HasNoWordChar(s: string) {
    forall i :: 0 <= i < |s| ==> !IsWordChar(s[i])
  }

  /** A column reference: `column` or `table.column`, both words. */
  predicate IsReference(r: string) {
    match FirstDot(r, 0)
    case None => IsWord(r)
    case Some(k) => IsWord(r[..k]) && IsWord(r[k + 1..])
  }

  lemma WordIsReference(w: string)
    requires IsWord(w)
    ensures IsReference(w)
  {
    forall j | 0 <= j < |w| ensures w[j] != '.' { assert IsWordChar(w[j]); }
    FirstDotAt(w, 0, |w|);
  }

  /** With no dot in `s[p..k]`, the search from `p` finds the dot at `k`, or
      nothing when `k` is the end. */
  lemma {:induction false} FirstDotAt(s: string, p: nat, k: nat)
    requires p <= k <= |s|
    requires k < |s| ==> s[k] == '.'
    requires forall j :: p <= j < k ==> s[j] != '.'
    ensures FirstDot(s, p) == if k < |s| then Some(k) else None
    decreases k - p
  {
    if p < k { FirstDotAt(s, p + 1, k); }
  }

  lemma DottedIsReference(w1: string, w2: string)
    requires IsWord(w1) && IsWord(w2)
    ensures FirstDot(w1 + "." + w2, 0) == Some(|w1|)
    ensures IsReference(w1 + "." + w2)
  {
    var r := w1 + "." + w2;
    assert r[|w1|] == '.';
    forall j | 0 <= j < |w1| ensures r[j] != '.' { assert r[j] == w1[j]; assert IsWordChar(w1[j]); }
    FirstDotAt(r, 0, |w1|);
    assert r[..|w1|] == w1;
    assert r[|w1| + 1..] == w2;
  }

  /** `re.search(r'(\w+\.)?(\w+)', s).group(0)`, or `s.strip()` when there is
      no word character at all. The optional `\w+\.` group is tried first,
      from the first word character. */
  function Reference(s: string): string {
    match FirstWordChar(s, 0)
    case None => Trim(s)
    case Some(a) => s[a..ReferenceEnd(s, a)]
  }

  /** Where the reference found from `a` ends: after `\w+\.\w+` when the
      optional group can be taken, otherwise after `\w+`. */
  function ReferenceEnd(s: string, a: nat): (b: nat)
    requires a <= |s|
    ensures a <= b <= |s|
  {
    var e := SkipWord(s, a);
    if e + 1 < |s| && s[e] == '.' && IsWordChar(s[e + 1]) then SkipWord(s, e + 1) else e
  }

  /** `s[a..b]` is the match `re.search` reports: a column reference, no
      reference starts before `a`, and none starting at `a` is longer. */
  predicate FirstReference(s: string, a: nat, b: nat)
    requires a <= b <= |s|
  {
    && IsReference(s[a..b])
    && (forall i, j :: 0 <= i <= j <= |s| && IsReference(s[i..j]) ==> a <= i)
    && (forall j :: b < j <= |s| ==> !IsReference(s[a..j]))
  }

  /** What the reference search returns: the leftmost, longest column
      reference when the text has a word character, and otherwise the
      stripped text, which then has none. */
  lemma ReferenceShape(s: string)
    ensures !HasNoWordChar(s) ==>
      exists a, b :: 0 <= a <= b <= |s| && Reference(s) == s[a..b] && FirstReference(s, a, b)
    ensures !HasNoWordChar(s) ==> IsReference(Reference(s))
    ensures HasNoWordChar(s) ==> forall i, j :: 0 <= i <= j <= |s| ==> !IsReference(s[i..j])
    ensures HasNoWordChar(s) ==> Reference(s) == Trim(s)
    ensures HasNoWordChar(s) ==> HasNoWordChar(Reference(s)) && Trim(Reference(s)) == Reference(s)
    ensures NoParens(s) ==> NoParens(Reference(s))
  {
    FirstWordCharIsFirst(s, 0);
    match FirstWordChar(s, 0)
    case None =>
      NoReference(s);
    case Some(a) =>
      WordRunShape(s, a);
      ReferenceFrom(s, a);
  }

  /** Without a word character the search fails and the text is stripped. */
  lemma NoReference(s: string)
    requires HasNoWordChar(s)
    ensures forall i, j :: 0 <= i <= j <= |s| ==> !IsReference(s[i..j])
    ensures Reference(s) == Trim(s)
    ensures HasNoWordChar(Trim(s)) && Trim(Trim(s)) == Trim(s)
    ensures NoParens(s) ==> NoParens(Trim(s))
  {
    FirstWordCharIsFirst(s, 0);
    TrimIdempotent(s);
    NoParensTrim(s);
    TrimWithin(s);
    forall i | 0 <= i < |Trim(s)| ensures !IsWordChar(Trim(s)[i]) { assert Trim(s)[i] in s; }
    forall i, j | 0 <= i <= j <= |s| ensures !IsReference(s[i..j]) {
      ReferenceStart(s, i, j);
    }
  }

  /** A reference found in `s` starts with a word character of `s`. */
  lemma ReferenceStart(s: string, i: nat, j: nat)
    requires i <= j <= |s|
    ensures IsReference(s[i..j]) ==> i < |s| && IsWordChar(s[i])
  {
    if IsReference(s[i..j]) {
      ReferenceParts(s[i..j]);
      assert s[i..j][0] == s[i];
    }
  }

  /** From the first word character `a`, the search returns the longest
      reference, and none starts earlier. */
  lemma ReferenceFrom(s: string, a: nat)
    requires FirstWordChar(s, 0) == Some(a)
    ensures exists b :: a <= b <= |s| && Reference(s) == s[a..b] && FirstReference(s, a, b)
  {
    NoEarlierReference(s, a);
    LongestFrom(s, a);
    assert FirstReference(s, a, ReferenceEnd(s, a));
  }

  /** The reference found from the word character at `a` is a reference,
      and no longer one starts at `a`. */
  lemma LongestFrom(s: string, a: nat)
    requires a < |s| && IsWordChar(s[a])
    ensures IsReference(s[a..ReferenceEnd(s, a)])
    ensures forall j :: ReferenceEnd(s, a) < j <= |s| ==> !IsReference(s[a..j])
  {
    var e := SkipWord(s, a);
    if e + 1 < |s| && s[e] == '.' && IsWordChar(s[e + 1]) {
      DottedLongest(s, a, e);
    } else {
      PlainLongest(s, a, e);
    }
  }

  /** No reference starts before the first word character. */
  lemma NoEarlierReference(s: string, a: nat)
    requires FirstWordChar(s, 0) == Some(a)
    ensures forall i, j :: 0 <= i <= j <= |s| && IsReference(s[i..j]) ==> a <= i
  {
    FirstWordCharIsFirst(s, 0);
    forall i, j | 0 <= i <= j <= |s| && IsReference(s[i..j]) ensures a <= i {
      ReferenceStart(s, i, j);
    }
  }

  /** A column reference is word characters around at most one dot, which
      is neither first nor last. */
  lemma ReferenceParts(r: string)
    requires IsReference(r)
    ensures |r| > 0 && IsWordChar(r[0]) && IsWordChar(r[|r| - 1])
    ensures forall i :: 0 <= i < |r| ==> IsWordChar(r[i]) || r[i] == '.'
    ensures forall i, j :: 0 <= i < j < |r| && r[i] == '.' ==> r[j] != '.'
  {
    FirstDotIsFirst(r, 0);
    match FirstDot(r, 0)
    case None =>
    case Some(k) =>
      assert r[0] == r[..k][0];
      assert r[|r| - 1] == r[k + 1..][|r| - k - 2];
      forall i | 0 <= i < |r| ensures IsWordChar(r[i]) || r[i] == '.' {
        if i < k { assert r[i] == r[..k][i]; }
        else if i > k { assert r[i] == r[k + 1..][i - k - 1]; }
      }
      forall i, j | 0 <= i < j < |r| && r[i] == '.' ensures r[j] != '.' {
        assert j > k;
        assert r[j] == r[k + 1..][j - k - 1];
      }
  }

  /** No reference from `a` reaches past the second word of `a.b`. */
  lemma DottedLongest(s: string, a: nat, e: nat)
    requires a < e && e + 1 < |s| && s[e] == '.' && IsWordChar(s[e + 1])
    requires e == SkipWord(s, a)
    ensures IsReference(s[a..SkipWord(s, e + 1)])
    ensures forall j :: SkipWord(s, e + 1) < j <= |s| ==> !IsReference(s[a..j])
  {
    var f := SkipWord(s, e + 1);
    SkipWordRun(s, a);
    RunIsWord(s, a, e);
    DottedRun(s, a, e);
    forall j | f < j <= |s| ensures !IsReference(s[a..j]) {
      NotReferencePast(s, a, j, e, f);
    }
  }

  /** A slice holding the dot at `e` and the non-word character at `f` is
      not a reference. */
  lemma NotReferencePast(s: string, a: nat, j: nat, e: nat, f: nat)
    requires a <= e < f < j <= |s| && s[e] == '.' && !IsWordChar(s[f])
    ensures !IsReference(s[a..j])
  {
    var t := s[a..j];
    assert t[e - a] == s[e] && t[f - a] == s[f];
    if IsReference(t) {
      ReferenceParts(t);
    }
  }

  /** When the word at `a` is not followed by `.` and a word character, no
      reference from `a` is longer than that word. */
  lemma PlainLongest(s: string, a: nat, e: nat)
    requires a < |s| && IsWordChar(s[a]) && e == SkipWord(s, a)
    requires !(e + 1 < |s| && s[e] == '.' && IsWordChar(s[e + 1]))
    ensures IsReference(s[a..e])
    ensures forall j :: e < j <= |s| ==> !IsReference(s[a..j])
  {
    SkipWordRun(s, a);
    RunIsWord(s, a, e);
    WordIsReference(s[a..e]);
    forall j | e < j <= |s| ensures !IsReference(s[a..j]) {
      var t := s[a..j];
      assert t[e - a] == s[e];
      if j == e + 1 {
        assert t[|t| - 1] == s[e];
        if IsReference(t) { ReferenceParts(t); }
      } else if s[e] == '.' {
        NotReferencePast(s, a, j, e, e + 1);
      } else if IsReference(t) {
        ReferenceParts(t);
      }
    }
  }

  /** From the first word character `a`: one word, or two joined by a dot. */
  lemma WordRunShape(s: string, a: nat)
    requires FirstWordChar(s, 0) == Some(a)
    ensures IsReference(Reference(s))
    ensures NoParens(s) ==> NoParens(Reference(s))
  {
    var e := SkipWord(s, a);
    SkipWordRun(s, a);
    RunIsWord(s, a, e);
    if e + 1 < |s| && s[e] == '.' && IsWordChar(s[e + 1]) {
      DottedRun(s, a, e);
    } else {
      WordIsReference(s[a..e]);
      NoParensSlice(s, a, e);
    }
  }

  lemma DottedRun(s: string, a: nat, e: nat)
    requires a < e && e + 1 < |s| && s[e] == '.' && IsWordChar(s[e + 1]) && IsWord(s[a..e])
    ensures IsReference(s[a..SkipWord(s, e + 1)])
    ensures NoParens(s) ==> NoParens(s[a..SkipWord(s, e + 1)])
  {
    var f := SkipWord(s, e + 1);
    SkipWordRun(s, e + 1);
    RunIsWord(s, e + 1, f);
    assert s[a..f] == s[a..e] + "." + s[e + 1..f];
    DottedIsReference(s[a..e], s[e + 1..f]);
    NoParensSlice(s, a, f);
  }

  lemma RunIsWord(s: string, a: nat, e: nat)
    requires a < e <= |s| && forall i :: a <= i < e ==> IsWordChar(s[i])
    ensures IsWord(s[a..e])
  {
    forall i | 0 <= i < e - a ensures IsWordChar(s[a..e][i]) { assert s[a..e][i] == s[a + i]; }
  }

  lemma NoParensSlice(s: string, a: nat, e: nat)
    requires a <= e <= |s|
    ensures NoParens(s) ==> NoParens(s[a..e])
  {
    if NoParens(s) {
      forall i | 0 <= i < e - a ensures s[a..e][i] != '(' && s[a..e][i] != ')' { assert s[a..e][i] == s[a + i]; }
    }
  }

  lemma NoParensTrim(s: string)
    ensures NoParens(s) ==> NoParens(Trim(s))
  {
    if NoParens(s) {
      var t := Trim(s);
      TrimWithin(s);
      forall i | 0 <= i < |t| ensures t[i] != '(' && t[i] != ')' { assert t[i] in s; }
    }
  }

  /** The text `strip_functions` searches for a reference: the calls of the
      listed functions peeled off, then `AS type` clauses and parentheses
      dropped. No parenthesis is left in it. */
  function Cleaned(columnExpr: string): (r: string)
    ensures NoParens(r)
  {
    var noAs := RemoveAsClauses(StripAll(Trim(columnExpr), FunctionNames), 0);
    var open := RemoveChar(noAs, '(');
    RemoveCharRemoves(noAs, '(');
    RemoveCharRemoves(open, ')');
    var bare := RemoveChar(open, ')');
    assert NoParens(bare) by {
      forall i | 0 <= i < |bare| ensures bare[i] != '(' { assert bare[i] in open; }
    }
    bare
  }

  /** `strip_functions` as a whole: the first reference of the cleaned text. */
  function Normalize(columnExpr: string): string {
    Reference(Cleaned(columnExpr))
  }

  /** The result of `strip_functions` is the leftmost, longest column
      reference of the cleaned text; when that text has no word character,
      it is that text stripped. Either way it holds no parenthesis. */
  lemma NormalizeShape(columnExpr: string)
    ensures var c := Cleaned(columnExpr);
      && (!HasNoWordChar(c) ==>
            exists a, b :: 0 <= a <= b <= |c| && Normalize(columnExpr) == c[a..b] && FirstReference(c, a, b))
      && (HasNoWordChar(c) ==> Normalize(columnExpr) == Trim(c))
    ensures var r := Normalize(columnExpr);
      && NoParens(r)
      && (IsReference(r) || HasNoWordChar(r))
      && (HasNoWordChar(r) ==> Trim(r) == r)
  {
    ReferenceShape(Cleaned(columnExpr));
  }

  /** Text without parentheses holds no call to remove. */
  lemma {:induction false} StripAllNoParens(s: string, fs: seq<string>)
    requires NoParens(s)
    ensures StripAll(s, fs) == s
  {
    if fs != [] {
      StripAllNoParens(s, fs[..|fs| - 1]);
      assert FindCall(s, fs[|fs| - 1], 0).None?;
    }
  }

  /** A column reference is made of word characters and one optional dot. */
  lemma ReferenceChars(r: string)
    requires IsReference(r)
    ensures |r| > 0 && IsWordChar(r[0])
    ensures forall i :: 0 <= i < |r| ==> !IsSpace(r[i]) && r[i] != '(' && r[i] != ')'
  {
    match FirstDot(r, 0)
    case None =>
    case Some(k) =>
      assert r[0] == r[..k][0];
      forall i | 0 <= i < |r| ensures !IsSpace(r[i]) && r[i] != '(' && r[i] != ')' {
        if i < k { assert r[i] == r[..k][i]; }
        else if i > k { assert r[i] == r[k + 1..][i - k - 1]; }
      }
  }

  /** The reference search finds a whole reference. */
  lemma ReferenceOfReference(r: string)
    requires IsReference(r)
    ensures Reference(r) == r
  {
    ReferenceChars(r);
    assert FirstWordChar(r, 0) == Some(0);
    match FirstDot(r, 0)
    case None =>
      SkipWordAll(r, 0);
      assert r[0..|r|] == r;
    case Some(d) =>
      assert forall i :: 0 <= i < d ==> IsWordChar(r[i]) by {
        forall i | 0 <= i < d ensures IsWordChar(r[i]) { assert r[i] == r[..d][i]; }
      }
      SkipWordPrefix(r, d, 0);
      SkipWordSuffix(r, d + 1);
      assert r[0..|r|] == r;
  }

  /** A column reference is already normal: `strip_functions` returns it as is. */
  lemma ReferenceIsNormal(r: string)
    requires IsReference(r)
    ensures Normalize(r) == r
  {
    ReferenceChars(r);
    assert Trim(r) == r by {
      assert SkipFrom(r, 0, Whitespace) == 0;
      assert SkipBack(r, |r|, Whitespace) == |r|;
      assert r[0..|r|] == r;
    }
    StripAllNoParens(r, FunctionNames);
    forall i | 0 <= i < |r| ensures AsClauseAt(r, i).None? {
      if AsClauseAt(r, i).Some? { AsClauseNeeds(r, i); }
    }
    RemoveAsClausesNone(r, 0);
    assert r[0..] == r;
    RemoveAbsentChar(r, '(');
    RemoveAbsentChar(r, ')');
    ReferenceOfReference(r);
  }

  lemma {:induction false} SkipWordAll(s: string, p: nat)
    requires p <= |s| && forall i :: p <= i < |s| ==> IsWordChar(s[i])
    ensures SkipWord(s, p) == |s|
    decreases |s| - p
  {
    if p < |s| { SkipWordAll(s, p + 1); }
  }

  /** A word run that stops at the non-word character `s[d]`. */
  lemma {:induction false} SkipWordPrefix(s: string, d: nat, p: nat)
    requires p <= d < |s| && !IsWordChar(s[d])
    requires forall i :: p <= i < d ==> IsWordChar(s[i])
    ensures SkipWord(s, p) == d
    decreases d - p
  {
    if p < d { SkipWordPrefix(s, d, p + 1); }
  }

  lemma SkipWordSuffix(s: string, p: nat)
    requires p <= |s| && IsWord(s[p..])
    ensures SkipWord(s, p) == |s|
  {
    forall i | p <= i < |s| ensures IsWordChar(s[i]) { assert s[i] == s[p..][i - p]; }
    SkipWordAll(s, p);
  }

  /** Normalising twice is normalising once. */
  lemma NormalizeIdempotent(columnExpr: string)
    ensures Normalize(Normalize(columnExpr)) == Normalize(columnExpr)
  {
    var r := Normalize(columnExpr);
    NormalizeShape(columnExpr);
    if IsReference(r) {
      ReferenceIsNormal(r);
    } else {
      NoWordCharIsNormal(r);
    }
  }

  /** Without word characters or parentheses there is nothing to strip but
      the surrounding whitespace. */
  lemma NoWordCharIsNormal(r: string)
    requires HasNoWordChar(r) && NoParens(r)
    ensures Normalize(r) == Trim(r)
  {
    var t := Trim(r);
    TrimWithin(r);
    assert HasNoWordChar(t) && NoParens(t) by {
      forall i | 0 <= i < |t| ensures !IsWordChar(t[i]) && t[i] != '(' && t[i] != ')' {
        assert t[i] in r;
      }
    }
    TrimIdempotent(r);
    StripAllNoParens(t, FunctionNames);
    forall i | 0 <= i < |t| ensures AsClauseAt(t, i).None? {
      if AsClauseAt(t, i).Some? { AsClauseNeeds(t, i); }
    }
    RemoveAsClausesNone(t, 0);
    assert t[0..] == t;
    RemoveAbsentChar(t, '(');
    RemoveAbsentChar(t, ')');
  }

  /** `strip_functions` as written: a `for` loop over the names with a
      `while` loop inside that repeats the substitution until no call of that
      name is found, then the two clean-up substitutions and the search. */
  method StripFunctions(columnExpr: string) returns (r: string)
    ensures r == Normalize(columnExpr)
  {
    var expr := Trim(columnExpr);
    ghost var start := expr;
    for i := 0 to |FunctionNames|
      invariant expr == StripAll(start, FunctionNames[..i])
    {
      var func := FunctionNames[i];
      ghost var before := expr;
      while FindCall(expr, func, 0).Some?
        invariant StripCalls(expr, func) == StripCalls(before, func)
        decreases |expr|
      {
        RemoveCallsShortens(expr, func, 0);
        expr := RemoveCalls(expr, func, 0);
      }
      assert FunctionNames[..i + 1][..i] == FunctionNames[..i];
    }
    assert FunctionNames[..|FunctionNames|] == FunctionNames;
    expr := RemoveAsClauses(expr, 0);
    expr := RemoveChar(RemoveChar(expr, '('), ')');
    r := Reference(expr);
  }
}
