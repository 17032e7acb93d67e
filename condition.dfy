/** Condition parser: `parse_condition` (where_extractor.py:143-178). It tries
    the operators in a fixed order against the stripped condition, with the
    pattern `(.+?)\s+OP\s+(.+)` (or `(.+?)\s+OP` for the two null tests),
    case-insensitively and without DOTALL, and reports the first that
    matches. */
module Conditions {
  import opened Text
  import opened Options
  import opened ColumnExpr

  /** The operators, in the order they are tried. */
  const Operators: seq<string> :=
    ["<=", ">=", "<>", "!=", "=", "<", ">", "LIKE", "IN", "NOT IN",
     "IS NULL", "IS NOT NULL", "BETWEEN"]

  /** One extracted condition (the dictionary `parse_condition` returns). */
  datatype Condition = Condition(columnName: string, tableName: string, operator: string, value: string)

  /** The two operators whose pattern has no value group. */
  predicate IsUnary(op: string) {
    op == "IS NULL" || op == "IS NOT NULL"
  }

  /** `.` without DOTALL matches anything but a newline. */
  predicate NotNewline(c: char) {
    c != '\n'
  }

  /** The condition has been stripped, so it does not end in whitespace. */
  predicate NoTrailingSpace(s: string) {
    |s| == 0 || !IsSpace(s[|s| - 1])
  }

  /** What follows the lazy `(.+?)` when it stops at `b`: `\s+OP`, and for a
      binary operator `\s+` and at least one character. Every operator starts
      with a non-space character, so the first whitespace run is taken whole;
      the second is too, because a stripped condition does not end in
      whitespace and so the run stops before a character `.` accepts. */
  predicate OperatorFollows(s: string, b: nat, op: string) {
    && b < |s| && IsSpace(s[b])
    && LiteralAt(s, SkipSpaces(s, b), op)
    && (IsUnary(op) || SkipSpaces(s, SkipSpaces(s, b) + |op|) > SkipSpaces(s, b) + |op|)
  }

  /** Where `(.+)` starts: after the whitespace that follows the operator. */
  function ValueStart(s: string, b: nat, op: string): (d: nat)
    requires OperatorFollows(s, b, op) && !IsUnary(op) && NoTrailingSpace(s)
    ensures b < d < |s| && NotNewline(s[d])
  {
    var d := SkipSpaces(s, SkipSpaces(s, b) + |op|);
    assert d < |s| by {
      if d == |s| { SkipSpacesToEnd(s, SkipSpaces(s, b) + |op|); }
    }
    d
  }

  /** `(.+?)` may stop at `b`: it holds at least the character before `b`,
      which is not a newline, and the operator follows. */
  predicate SplitAt(s: string, b: nat, op: string) {
    1 <= b <= |s| && NotNewline(s[b - 1]) && OperatorFollows(s, b, op)
  }

  /** The smallest split point at or after `b`. */
  function FirstSplit(s: string, op: string, b: nat): (r: Option<nat>)
    ensures r.Some? ==> b <= r.value && SplitAt(s, r.value, op)
    decreases |s| + 1 - b
  {
    if b > |s| then None
    else if SplitAt(s, b, op) then Some(b)
    else FirstSplit(s, op, b + 1)
  }

  /** The lazy group stops at the first split point, and the search fails only
      where there is none. */
  lemma {:induction false} FirstSplitIsFirst(s: string, op: string, b: nat)
    ensures var r := FirstSplit(s, op, b);
      && (r.Some? ==> forall j :: b <= j < r.value ==> !SplitAt(s, j, op))
      && (r.None? ==> forall j :: b <= j ==> !SplitAt(s, j, op))
    decreases |s| + 1 - b
  {
    if b <= |s| && !SplitAt(s, b, op) {
      FirstSplitIsFirst(s, op, b + 1);
    }
  }

  /** `re.search(pattern, s, re.IGNORECASE)` succeeds for `op`. */
  predicate Matches(s: string, op: string) {
    FirstSplit(s, op, 1).Some?
  }

  /** The `for op in operators` loop: the first operator of `ops` whose
      pattern matches. */
  function FirstOperator(s: string, ops: seq<string>): (r: Option<string>)
    ensures r.Some? ==> Matches(s, r.value)
    decreases |ops|
  {
    if ops == [] then None
    else if Matches(s, ops[0]) then Some(ops[0])
    else FirstOperator(s, ops[1..])
  }

  /** The operator search settles on the first operator that matches, and
      fails only when none does. */
  lemma {:induction false} FirstOperatorIsFirst(s: string, ops: seq<string>)
    ensures var r := FirstOperator(s, ops);
      && (r.Some? ==> exists k :: && 0 <= k < |ops| && ops[k] == r.value
                                  && forall j :: 0 <= j < k ==> !Matches(s, ops[j]))
      && (r.None? ==> forall j :: 0 <= j < |ops| ==> !Matches(s, ops[j]))
    decreases |ops|
  {
    if ops != [] {
      var r := FirstOperator(s, ops);
      if Matches(s, ops[0]) {
        assert ops[0] == r.value;
      } else {
        var rest := ops[1..];
        FirstOperatorIsFirst(s, rest);
        if r.Some? {
          var k :| 0 <= k < |rest| && rest[k] == r.value && forall j :: 0 <= j < k ==> !Matches(s, rest[j]);
          assert ops[k + 1] == r.value;
          forall j | 0 <= j < k + 1 ensures !Matches(s, ops[j]) {
            if j > 0 { assert ops[j] == rest[j - 1]; }
          }
        } else {
          forall j | 0 <= j < |ops| ensures !Matches(s, ops[j]) {
            if j > 0 { assert ops[j] == rest[j - 1]; }
          }
        }
      }
    }
  }

  /** What every reported condition looks like. */
  predicate WellFormed(c: Condition) {
    && c.operator in Operators
    && c.operator != "NOT IN"
    && NoParens(c.columnName)
    && (IsWord(c.columnName) || HasNoWordChar(c.columnName))
    && (IsUnary(c.operator) ==> c.value == "")
    && (|c.value| > 0 ==> !IsQuote(c.value[0]) && !IsQuote(c.value[|c.value| - 1]))
  }

  /** Column and table of a normalised column expression, split at the
      first dot, with the table prefix resolved through the alias table. */
  function ResolveColumn(full: string, aliases: map<string, string>): (string, string) {
    match FirstDot(full, 0)
    case None => (full, "")
    case Some(i) =>
      var ref := full[..i];
      (full[i + 1..], if ref in aliases then aliases[ref] else ref)
  }

  /** Splitting a normalised expression: without a dot the column is the
      whole text and the table is empty; with one, the column is the word
      after the first dot and the table is what the alias table maps the word
      before it to, or that word itself. Either way the column has no
      parenthesis and is a word or free of word characters. */
  lemma ResolveColumnShape(full: string, aliases: map<string, string>)
    requires IsReference(full) || HasNoWordChar(full)
    requires NoParens(full)
    ensures var r := ResolveColumn(full, aliases);
      && NoParens(r.0) && (IsWord(r.0) || HasNoWordChar(r.0))
      && (FirstDot(full, 0).None? ==> r == (full, ""))
      && (FirstDot(full, 0).Some? ==>
            var i := FirstDot(full, 0).value;
            && r.0 == full[i + 1..]
            && r.1 == (if full[..i] in aliases then aliases[full[..i]] else full[..i]))
  {
    match FirstDot(full, 0)
    case None =>
    case Some(i) =>
      var column := full[i + 1..];
      assert forall j :: 0 <= j < |column| ==> column[j] == full[i + 1 + j];
  }

  /** `parse_condition`: the condition is stripped; the first operator whose
      pattern matches decides. The column is the stripped text from the start
      of the line where `(.+?)` begins up to the split point, normalised by
      `strip_functions`; the value is the rest of the line after the
      operator, stripped of whitespace and then of quotes. */
  function ParseCondition(condition: string, aliases: map<string, string>): Option<Condition> {
    var s := Trim(condition);
    match FirstOperator(s, Operators)
    case None => None
    case Some(op) => Some(BuildCondition(s, op, aliases))
  }

  /** The `for op in operators` loop of `parse_condition`: each operator's
      pattern is searched for in turn, and the first match returns its
      dictionary. */
  method MatchOperators(condition: string, aliases: map<string, string>) returns (r: Option<Condition>)
    ensures r == ParseCondition(condition, aliases)
  {
    var s := Trim(condition);
    for i := 0 to |Operators|
      invariant FirstOperator(s, Operators) == FirstOperator(s, Operators[i..])
    {
      var op := Operators[i];
      assert Operators[i..][1..] == Operators[i + 1..];
      if Matches(s, op) {
        return Some(BuildCondition(s, op, aliases));
      }
    }
    return None;
  }

  /** The dictionary built once operator `op` has matched `s`. */
  function BuildCondition(s: string, op: string, aliases: map<string, string>): Condition
    requires Matches(s, op) && NoTrailingSpace(s)
  {
    var b := FirstSplit(s, op, 1).value;
    var lineStart := SkipBack(s, b, Line);
    var full := Normalize(Trim(s[lineStart..b]));
    var (column, table) := ResolveColumn(full, aliases);
    var value :=
      if IsUnary(op) then ""
      else
        var d := ValueStart(s, b, op);
        StripQuotes(Trim(s[d..SkipFrom(s, d, Line)]));
    Condition(column, table, op, value)
  }

  /** The operator reported is the first, in list order, whose pattern
      matches the stripped condition; there is a result exactly when some
      operator matches. */
  lemma ParseConditionFirstMatch(condition: string, aliases: map<string, string>)
    ensures var s := Trim(condition);
      var r := ParseCondition(condition, aliases);
      && (r.Some? <==> exists k :: 0 <= k < |Operators| && Matches(s, Operators[k]))
      && (r.Some? ==> exists k :: && 0 <= k < |Operators|
                                  && r.value.operator == Operators[k]
                                  && Matches(s, Operators[k])
                                  && forall j :: 0 <= j < k ==> !Matches(s, Operators[j]))
  {
    FirstOperatorIsFirst(Trim(condition), Operators);
  }

  /** Every reported condition is well formed; its table name has no
      parenthesis when the alias table has none. */
  lemma ParseConditionWellFormed(condition: string, aliases: map<string, string>)
    ensures var r := ParseCondition(condition, aliases);
      r.Some? ==> WellFormed(r.value)
    ensures var r := ParseCondition(condition, aliases);
      r.Some? && (forall a :: a in aliases ==> NoParens(aliases[a])) ==> NoParens(r.value.tableName)
  {
    var s := Trim(condition);
    NotInNeverFirst(s);
    FirstOperatorIsFirst(s, Operators);
    var r := FirstOperator(s, Operators);
    if r.Some? {
      BuildConditionWellFormed(s, r.value, aliases);
    }
  }

  lemma BuildConditionWellFormed(s: string, op: string, aliases: map<string, string>)
    requires Matches(s, op) && NoTrailingSpace(s)
    requires op in Operators && op != "NOT IN"
    ensures WellFormed(BuildCondition(s, op, aliases))
    ensures (forall a :: a in aliases ==> NoParens(aliases[a])) ==> NoParens(BuildCondition(s, op, aliases).tableName)
  {
    var b := FirstSplit(s, op, 1).value;
    ResolvedColumnShape(Trim(s[SkipBack(s, b, Line)..b]), aliases);
  }

  /** Column and table of a normalised column expression: the column has no
      parenthesis and is a word or free of word characters, and the table has
      no parenthesis when the alias table has none. */
  lemma ResolvedColumnShape(columnExpr: string, aliases: map<string, string>)
    ensures var r := ResolveColumn(Normalize(columnExpr), aliases);
      && NoParens(r.0) && (IsWord(r.0) || HasNoWordChar(r.0))
      && ((forall a :: a in aliases ==> NoParens(aliases[a])) ==> NoParens(r.1))
  {
    var full := Normalize(columnExpr);
    NormalizeShape(columnExpr);
    ResolveColumnShape(full, aliases);
    NoParensPrefix(full, aliases);
  }

  /** The table part of a normalised expression never holds a parenthesis,
      and an alias table without parentheses cannot introduce one. */
  lemma NoParensPrefix(full: string, aliases: map<string, string>)
    requires IsReference(full) || HasNoWordChar(full)
    requires NoParens(full)
    ensures (forall a :: a in aliases ==> NoParens(aliases[a])) ==> NoParens(ResolveColumn(full, aliases).1)
  {
    match FirstDot(full, 0)
    case None =>
    case Some(i) =>
      var ref := full[..i];
      assert forall j :: 0 <= j < |ref| ==> ref[j] == full[j];
  }

  /** Where `NOT IN` matches, so does `IN`: inside the operator text lies a
      space followed by `IN` and the same tail. */
  lemma NotInMatchesIn(s: string)
    requires Matches(s, "NOT IN")
    ensures Matches(s, "IN")
  {
    var b := FirstSplit(s, "NOT IN", 1).value;
    var c := SkipSpaces(s, b);
    assert SameIgnoringCase(s[c + 2], "NOT IN"[2]);
    assert s[c + 3] == "NOT IN"[3];
    assert SameIgnoringCase(s[c + 4], "NOT IN"[4]);
    assert SkipSpaces(s, c + 4) == c + 4;
    assert SkipSpaces(s, c + 3) == c + 4;
    assert LiteralAt(s, c + 4, "IN") by {
      assert SameIgnoringCase(s[c + 5], "NOT IN"[5]);
    }
    assert SplitAt(s, c + 3, "IN");
    FirstSplitIsFirst(s, "IN", 1);
  }

  /** `IN` comes before `NOT IN` in the operator list and matches wherever
      `NOT IN` does, so the operator search never settles on `NOT IN`. */
  lemma NotInNeverFirst(s: string)
    ensures FirstOperator(s, Operators) != Some("NOT IN")
  {
    if FirstOperator(s, Operators) == Some("NOT IN") {
      FirstOperatorIsFirst(s, Operators);
      var k :| && 0 <= k < |Operators| && Operators[k] == "NOT IN"
               && forall j :: 0 <= j < k ==> !Matches(s, Operators[j]);
      OnlyNotIn(k);
      assert Operators[8] == "IN";
      NotInMatchesIn(s);
    }
  }

  lemma OnlyNotIn(k: nat)
    requires k < |Operators| && Operators[k] == "NOT IN"
    ensures k == 9
  {
  }
}
