/** Character classes, ASCII case folding and the small scanners shared by the
    WHERE-condition extractor. Each regular-expression building block the
    extractor uses (`\s`, `\w`, `\b`, a case-insensitive literal) is one
    function here; the patterns themselves are assembled in the modules that
    use them. */
module Text {
  import opened Options

  /** Python's `\s` (and `str.strip()` with no argument) restricted to ASCII. */
  predicate IsSpace(c: char) {
    c == ' ' || 9 <= c as int <= 13 || 28 <= c as int <= 31
  }

  /** Python's `\w` restricted to ASCII. */
  predicate IsWordChar(c: char) {
    ('a' <= c <= 'z') || ('A' <= c <= 'Z') || ('0' <= c <= '9') || c == '_'
  }

  predicate IsWord(s: string) {
    |s| > 0 && forall i :: 0 <= i < |s| ==> IsWordChar(s[i])
  }

  predicate NoParens(s: string) {
    forall i :: 0 <= i < |s| ==> s[i] != '(' && s[i] != ')'
  }

  function ToUpper(c: char): (u: char)
    ensures IsWordChar(u) <==> IsWordChar(c)
    ensures IsSpace(u) <==> IsSpace(c)
    ensures (u == '(') <==> (c == '(')
    ensures (u == ')') <==> (c == ')')
  {
    if 'a' <= c <= 'z' then (c as int - 32) as char else c
  }

  /** `str.upper()` on ASCII text: length-preserving, letter by letter. */
  function Upper(s: string): (u: string)
    ensures |u| == |s|
    ensures forall i :: 0 <= i < |s| ==> u[i] == ToUpper(s[i])
  {
    seq(|s|, i requires 0 <= i < |s| => ToUpper(s[i]))
  }

  /** Two characters match under `re.IGNORECASE`. */
  predicate SameIgnoringCase(a: char, b: char) {
    ToUpper(a) == ToUpper(b)
  }

  /** The literal `kw` occurs case-insensitively in `s` at position `p`. */
  predicate LiteralAt(s: string, p: nat, kw: string) {
    p + |kw| <= |s| && forall i :: 0 <= i < |kw| ==> SameIgnoringCase(s[p + i], kw[i])
  }

  /** `\b` in front of a word character at `p`. */
  predicate WordStart(s: string, p: nat) {
    p == 0 || (p <= |s| && !IsWordChar(s[p - 1]))
  }

  /** The end of the (possibly empty) run of whitespace starting at `p`: what a
      greedy `\s*` consumes. */
  function SkipSpaces(s: string, p: nat): (e: nat)
    requires p <= |s|
    ensures p <= e <= |s|
    ensures e == |s| || !IsSpace(s[e])
    decreases |s| - p
  {
    if p < |s| && IsSpace(s[p]) then SkipSpaces(s, p + 1) else p
  }

  /** The end of the (possibly empty) run of word characters starting at `p`:
      what a greedy `\w*` consumes. */
  function SkipWord(s: string, p: nat): (e: nat)
    requires p <= |s|
    ensures p <= e <= |s|
    ensures e == |s| || !IsWordChar(s[e])
    decreases |s| - p
  {
    if p < |s| && IsWordChar(s[p]) then SkipWord(s, p + 1) else p
  }

  /** Everything `SkipWord` passes over is a word character. */
  lemma {:induction false} SkipWordRun(s: string, p: nat)
    requires p <= |s|
    ensures forall i :: p <= i < SkipWord(s, p) ==> IsWordChar(s[i])
    decreases |s| - p
  {
    if p < |s| && IsWordChar(s[p]) { SkipWordRun(s, p + 1); }
  }

  /** A run of spaces that reaches the end makes the last character a space. */
  lemma {:induction false} SkipSpacesToEnd(s: string, p: nat)
    requires p < |s| && SkipSpaces(s, p) == |s|
    ensures IsSpace(s[|s| - 1])
    decreases |s| - p
  {
    if p + 1 < |s| { SkipSpacesToEnd(s, p + 1); }
  }

  /** The character sets that stripping and line scanning skip over. */
  datatype CharClass = Whitespace | Quote | Line

  predicate InClass(c: char, cls: CharClass) {
    match cls
    case Whitespace => IsSpace(c)
    case Quote => IsQuote(c)
    case Line => c != '\n'
  }

  /** Index of the first character at or after `p` that is not in `cls`. */
  function SkipFrom(s: string, p: nat, cls: CharClass): (e: nat)
    requires p <= |s|
    ensures p <= e <= |s|
    ensures e == |s| || !InClass(s[e], cls)
    decreases |s| - p
  {
    if p < |s| && InClass(s[p], cls) then SkipFrom(s, p + 1, cls) else p
  }

  /** Everything `SkipFrom` passes over is in `cls`. */
  lemma {:induction false} SkipFromRun(s: string, p: nat, cls: CharClass)
    requires p <= |s|
    ensures forall i :: p <= i < SkipFrom(s, p, cls) ==> InClass(s[i], cls)
    decreases |s| - p
  {
    if p < |s| && InClass(s[p], cls) { SkipFromRun(s, p + 1, cls); }
  }

  /** One past the last character before `e` that is not in `cls`. */
  function SkipBack(s: string, e: nat, cls: CharClass): (b: nat)
    requires e <= |s|
    ensures b <= e
    ensures b == 0 || !InClass(s[b - 1], cls)
  {
    if e > 0 && InClass(s[e - 1], cls) then SkipBack(s, e - 1, cls) else e
  }

  /** Everything `SkipBack` passes over is in `cls`. */
  lemma {:induction false} SkipBackRun(s: string, e: nat, cls: CharClass)
    requires e <= |s|
    ensures forall i :: SkipBack(s, e, cls) <= i < e ==> InClass(s[i], cls)
  {
    if e > 0 && InClass(s[e - 1], cls) { SkipBackRun(s, e - 1, cls); }
  }

  /** Removes the leading and trailing characters in `cls`. */
  function StripBy(s: string, cls: CharClass): (r: string)
    ensures |r| <= |s|
    ensures |r| > 0 ==> !InClass(r[0], cls) && !InClass(r[|r| - 1], cls)
    ensures exists lo, hi :: 0 <= lo <= hi <= |s| && r == s[lo..hi] && Stripped(s, lo, hi, cls)
  {
    var lo := SkipFrom(s, 0, cls);
    var hi := SkipBack(s, |s|, cls);
    SkipFromRun(s, 0, cls);
    SkipBackRun(s, |s|, cls);
    if lo < hi then s[lo..hi]
    else
      assert lo == |s|;
      assert s[|s|..|s|] == [];
      []
  }

  /** Everything in `s` outside the slice `s[lo..hi]` belongs to `cls`. */
  predicate Stripped(s: string, lo: nat, hi: nat, cls: CharClass)
    requires lo <= hi <= |s|
  {
    forall i :: 0 <= i < |s| && (i < lo || hi <= i) ==> InClass(s[i], cls)
  }

  /** Stripping keeps a contiguous piece: every character of the result comes
      from the text, and only characters in `cls` are lost. */
  lemma StripByWithin(s: string, cls: CharClass)
    ensures forall x :: x in StripBy(s, cls) ==> x in s
    ensures forall i :: 0 <= i < |s| && !InClass(s[i], cls) ==> s[i] in StripBy(s, cls)
  {
    var lo := SkipFrom(s, 0, cls);
    var hi := SkipBack(s, |s|, cls);
    SkipFromRun(s, 0, cls);
    SkipBackRun(s, |s|, cls);
    forall i | 0 <= i < |s| && !InClass(s[i], cls) ensures s[i] in StripBy(s, cls) {
      assert lo <= i < hi;
      assert s[lo..hi][i - lo] == s[i];
    }
  }

  /** Python's `str.strip()`. */
  function Trim(s: string): (r: string)
    ensures |r| <= |s|
    ensures |r| > 0 ==> !IsSpace(r[0]) && !IsSpace(r[|r| - 1])
  {
    StripBy(s, Whitespace)
  }

  /** `s.strip()` is the slice of `s` left once the leading and trailing
      whitespace is cut off. */
  lemma TrimSlice(s: string)
    ensures exists lo, hi :: 0 <= lo <= hi <= |s| && Trim(s) == s[lo..hi] && Stripped(s, lo, hi, Whitespace)
  {
    var lo, hi :| 0 <= lo <= hi <= |s| && StripBy(s, Whitespace) == s[lo..hi] && Stripped(s, lo, hi, Whitespace);
    assert Trim(s) == s[lo..hi];
  }

  /** Every character of `s.strip()` comes from `s`, and every non-space
      character of `s` survives. */
  lemma TrimWithin(s: string)
    ensures forall x :: x in Trim(s) ==> x in s
    ensures forall i :: 0 <= i < |s| && !IsSpace(s[i]) ==> s[i] in Trim(s)
  {
    StripByWithin(s, Whitespace);
  }

  predicate IsQuote(c: char) {
    c == '\'' || c == '"'
  }

  /** Python's `str.strip("'\"")`. */
  function StripQuotes(s: string): (r: string)
    ensures |r| <= |s|
    ensures |r| > 0 ==> !IsQuote(r[0]) && !IsQuote(r[|r| - 1])
    ensures exists lo, hi :: 0 <= lo <= hi <= |s| && r == s[lo..hi] && Stripped(s, lo, hi, Quote)
  {
    StripBy(s, Quote)
  }

  /** Python's `s.replace(pat, rep)` for a non-empty `pat`: every occurrence,
      leftmost first, never overlapping a previous one. */
  function ReplaceAll(s: string, pat: string, rep: string): (r: string)
    requires |pat| > 0
    decreases |s|
  {
    if |s| < |pat| then s
    else if s[..|pat|] == pat then rep + ReplaceAll(s[|pat|..], pat, rep)
    else [s[0]] + ReplaceAll(s[1..], pat, rep)
  }

  /** `pat` occurs in `s` at position `k`. */
  predicate OccursAt(s: string, pat: string, k: nat) {
    k + |pat| <= |s| && s[k..k + |pat|] == pat
  }

  /** `s.find(pat, p)`: the leftmost occurrence at or after `p`. */
  function FindPattern(s: string, pat: string, p: nat): (r: Option<nat>)
    requires p <= |s|
    ensures r.Some? ==> p <= r.value && OccursAt(s, pat, r.value)
    ensures r.Some? ==> forall j :: p <= j < r.value ==> !OccursAt(s, pat, j)
    ensures r.None? ==> forall j :: p <= j <= |s| ==> !OccursAt(s, pat, j)
    decreases |s| - p
  {
    if OccursAt(s, pat, p) then Some(p)
    else if p == |s| then None
    else FindPattern(s, pat, p + 1)
  }

  /** `s.split(pat)`: the text between the leftmost occurrence and the next
      one after its end, and so on. */
  function Pieces(s: string, pat: string): (r: seq<string>)
    requires |pat| > 0
    ensures |r| > 0
    decreases |s|
  {
    match FindPattern(s, pat, 0)
    case None => [s]
    case Some(k) => [s[..k]] + Pieces(s[k + |pat|..], pat)
  }

  /** `sep.join(pieces)`. */
  function Join(pieces: seq<string>, sep: string): string
    requires |pieces| > 0
  {
    if |pieces| == 1 then pieces[0] else pieces[0] + sep + Join(pieces[1..], sep)
  }

  /** `s.replace(pat, rep)` is `rep.join(s.split(pat))`: joining the pieces
      with `pat` gives `s` back, no piece holds `pat`, and `replace` puts
      `rep` where each occurrence was. */
  lemma {:induction false} ReplaceAllSplits(s: string, pat: string, rep: string)
    requires |pat| > 0
    ensures Join(Pieces(s, pat), pat) == s
    ensures ReplaceAll(s, pat, rep) == Join(Pieces(s, pat), rep)
    ensures forall i, j :: 0 <= i < |Pieces(s, pat)| && 0 <= j <= |Pieces(s, pat)[i]| ==>
      !OccursAt(Pieces(s, pat)[i], pat, j)
    decreases |s|
  {
    match FindPattern(s, pat, 0)
    case None =>
      ReplaceAllNoOccurrence(s, pat, rep);
    case Some(k) =>
      var rest := s[k + |pat|..];
      ReplaceAllSplits(rest, pat, rep);
      ReplaceAllAt(s, pat, rep, k);
      PiecesStep(s, pat, k);
  }

  /** Cutting at the leftmost occurrence `k`: the first piece is `s[..k]`,
      which holds no occurrence, and `s` is that piece, `pat` and the rest. */
  lemma PiecesStep(s: string, pat: string, k: nat)
    requires |pat| > 0 && FindPattern(s, pat, 0) == Some(k)
    ensures Pieces(s, pat) == [s[..k]] + Pieces(s[k + |pat|..], pat)
    ensures s[..k] + pat + s[k + |pat|..] == s
    ensures forall j :: 0 <= j <= k ==> !OccursAt(s[..k], pat, j)
  {
    assert s[k..k + |pat|] == pat;
    assert s[..k] + s[k..k + |pat|] + s[k + |pat|..] == s;
    forall j | 0 <= j <= k ensures !OccursAt(s[..k], pat, j) {
      OccursInPrefix(s, pat, k, j);
    }
  }

  /** An occurrence inside a prefix is one in the whole text. */
  lemma OccursInPrefix(s: string, pat: string, k: nat, j: nat)
    requires k <= |s|
    ensures OccursAt(s[..k], pat, j) ==> OccursAt(s, pat, j)
  {
    if OccursAt(s[..k], pat, j) {
      assert s[..k][j..j + |pat|] == s[j..j + |pat|];
    }
  }

  /** Occurrences in `s[1..]` are those in `s`, one position to the left. */
  lemma OccursInTail(s: string, pat: string, j: nat)
    requires 0 < |s|
    ensures OccursAt(s[1..], pat, j) <==> OccursAt(s, pat, j + 1)
  {
    if j + 1 + |pat| <= |s| {
      assert s[1..][j..j + |pat|] == s[j + 1..j + 1 + |pat|];
    }
  }

  /** With no occurrence at all, `replace` changes nothing. */
  lemma {:induction false} ReplaceAllNoOccurrence(s: string, pat: string, rep: string)
    requires |pat| > 0
    requires forall j :: 0 <= j <= |s| ==> !OccursAt(s, pat, j)
    ensures ReplaceAll(s, pat, rep) == s
    decreases |s|
  {
    if |s| >= |pat| {
      assert !OccursAt(s, pat, 0);
      assert s[..|pat|] == s[0..0 + |pat|];
      forall j | 0 <= j <= |s| - 1 ensures !OccursAt(s[1..], pat, j) {
        OccursInTail(s, pat, j);
      }
      ReplaceAllNoOccurrence(s[1..], pat, rep);
      assert [s[0]] + s[1..] == s;
    }
  }

  /** `replace` copies the text up to the leftmost occurrence `k`, puts
      `rep` in its place and carries on after it. */
  lemma ReplaceAllAt(s: string, pat: string, rep: string, k: nat)
    requires |pat| > 0 && OccursAt(s, pat, k)
    requires forall j :: 0 <= j < k ==> !OccursAt(s, pat, j)
    ensures ReplaceAll(s, pat, rep) == s[..k] + rep + ReplaceAll(s[k + |pat|..], pat, rep)
  {
    ReplaceAllFrom(s, pat, rep, 0, k);
    assert s[0..] == s;
    assert s[0..k] == s[..k];
  }

  /** `ReplaceAllAt` for the suffix `s[i..]`, when no occurrence starts in
      `[i, k)`. */
  lemma {:induction false} ReplaceAllFrom(s: string, pat: string, rep: string, i: nat, k: nat)
    requires |pat| > 0 && i <= k && OccursAt(s, pat, k)
    requires forall j :: i <= j < k ==> !OccursAt(s, pat, j)
    ensures ReplaceAll(s[i..], pat, rep) == s[i..k] + rep + ReplaceAll(s[k + |pat|..], pat, rep)
    decreases k - i
  {
    if i == k {
      ReplaceAllReplaces(s, pat, rep, k);
    } else {
      ReplaceAllFrom(s, pat, rep, i + 1, k);
      ReplaceAllKeeps(s, pat, rep, i, k);
    }
  }

  /** An occurrence at `k` is replaced first in `s[k..]`. */
  lemma ReplaceAllReplaces(s: string, pat: string, rep: string, k: nat)
    requires |pat| > 0 && OccursAt(s, pat, k)
    ensures ReplaceAll(s[k..], pat, rep) == s[k..k] + rep + ReplaceAll(s[k + |pat|..], pat, rep)
  {
    assert s[k..][..|pat|] == s[k..k + |pat|];
    assert s[k..][|pat|..] == s[k + |pat|..];
    assert s[k..k] == [];
  }

  /** Without an occurrence at `i`, `replace` on `s[i..]` keeps `s[i]`. */
  lemma ReplaceAllKeeps(s: string, pat: string, rep: string, i: nat, k: nat)
    requires |pat| > 0 && i < k && OccursAt(s, pat, k) && !OccursAt(s, pat, i)
    requires ReplaceAll(s[i + 1..], pat, rep) == s[i + 1..k] + rep + ReplaceAll(s[k + |pat|..], pat, rep)
    ensures ReplaceAll(s[i..], pat, rep) == s[i..k] + rep + ReplaceAll(s[k + |pat|..], pat, rep)
  {
    var t, x := s[i..], ReplaceAll(s[k + |pat|..], pat, rep);
    if |pat| <= |t| {
      assert t[..|pat|] == s[i..i + |pat|];
    }
    ReplaceAllHead(t, pat, rep);
    assert t[1..] == s[i + 1..];
    assert [s[i]] + (s[i + 1..k] + rep + x) == ([s[i]] + s[i + 1..k]) + rep + x;
    assert [s[i]] + s[i + 1..k] == s[i..k];
  }

  /** Without an occurrence at its start, `replace` keeps the first character. */
  lemma ReplaceAllHead(t: string, pat: string, rep: string)
    requires |pat| > 0 && |t| > 0 && !(|pat| <= |t| && t[..|pat|] == pat)
    ensures ReplaceAll(t, pat, rep) == [t[0]] + ReplaceAll(t[1..], pat, rep)
  {
  }

  /** `str.replace(c, '')` for a single character. */
  function RemoveChar(s: string, c: char): (r: string)
    ensures |r| <= |s|
  {
    if s == [] then []
    else if s[0] == c then RemoveChar(s[1..], c)
    else [s[0]] + RemoveChar(s[1..], c)
  }

  /** `replace(c, '')` removes every `c` and keeps every other character. */
  lemma {:induction false} RemoveCharRemoves(s: string, c: char)
    ensures forall i :: 0 <= i < |RemoveChar(s, c)| ==> RemoveChar(s, c)[i] != c
    ensures forall x :: x in RemoveChar(s, c) <==> x in s && x != c
  {
    if s != [] {
      RemoveCharRemoves(s[1..], c);
      assert s == [s[0]] + s[1..];
    }
  }

  lemma TrimIdempotent(s: string)
    ensures Trim(Trim(s)) == Trim(s)
  {
    var r := Trim(s);
    if |r| > 0 {
      assert SkipFrom(r, 0, Whitespace) == 0;
      assert SkipBack(r, |r|, Whitespace) == |r|;
      assert r[0..|r|] == r;
    }
  }

  /** Removing a character that does not occur leaves the text unchanged. */
  lemma {:induction false} RemoveAbsentChar(s: string, c: char)
    requires forall i :: 0 <= i < |s| ==> s[i] != c
    ensures RemoveChar(s, c) == s
  {
    if s != [] {
      RemoveAbsentChar(s[1..], c);
      assert [s[0]] + s[1..] == s;
    }
  }

  /** A text in which the pattern's first character never occurs is left
      unchanged by `replace`. */
  lemma {:induction false} ReplaceAllAbsent(s: string, pat: string, rep: string)
    requires |pat| > 0
    requires forall i :: 0 <= i < |s| ==> s[i] != pat[0]
    ensures ReplaceAll(s, pat, rep) == s
    decreases |s|
  {
    if |s| >= |pat| {
      assert s[..|pat|][0] == s[0];
      ReplaceAllAbsent(s[1..], pat, rep);
      assert [s[0]] + s[1..] == s;
    }
  }

  lemma WholePrefix<T>(s: seq<T>)
    ensures s[..|s|] == s
  {
  }

  /** `SkipSpaces` on a slice `s[a..b]` agrees with `SkipSpaces` on `s` as
      long as the run stops inside the slice; otherwise the run in `s` is at
      least as long. */
  lemma {:induction false} SkipSpacesSlice(s: string, a: nat, b: nat, j: nat)
    requires a <= b <= |s| && j <= b - a
    ensures a + SkipSpaces(s[a..b], j) <= SkipSpaces(s, a + j)
    ensures SkipSpaces(s[a..b], j) < b - a ==> a + SkipSpaces(s[a..b], j) == SkipSpaces(s, a + j)
    decreases b - a - j
  {
    if j < b - a {
      assert s[a..b][j] == s[a + j];
      if IsSpace(s[a + j]) {
        SkipSpacesSlice(s, a, b, j + 1);
      }
    }
  }

  lemma LiteralSlice(s: string, a: nat, b: nat, x: nat, kw: string)
    requires a <= b <= |s| && LiteralAt(s[a..b], x, kw)
    ensures LiteralAt(s, a + x, kw)
  {
    forall i | 0 <= i < |kw| ensures SameIgnoringCase(s[a + x + i], kw[i]) {
      assert s[a..b][x + i] == s[a + x + i];
    }
  }

  lemma LiteralIntoSlice(s: string, a: nat, b: nat, x: nat, kw: string)
    requires a <= x && x + |kw| <= b <= |s| && LiteralAt(s, x, kw)
    ensures LiteralAt(s[a..b], x - a, kw)
  {
    forall i | 0 <= i < |kw| ensures SameIgnoringCase(s[a..b][x - a + i], kw[i]) {
      assert s[a..b][x - a + i] == s[x + i];
    }
  }
}
