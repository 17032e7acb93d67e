/** Recursive JSON merge: `merge_json_objects` and `combine_json_strings`
    (merge.py:4-41). JSON text is not parsed here: every input string arrives
    already parsed, as `Some(value)`, or as `None` when `json.loads` rejects it. */
module JsonMerge {
  import opened Options

  /** A parsed JSON value. Objects are maps, so their key order is not kept. */
  datatype Json =
    | JNull
    | JBool(b: bool)
    | JInt(i: int)
    | JFloat(x: real)
    | JStr(s: string)
    | JList(items: seq<Json>)
    | JObject(fields: map<string, Json>)

  /** Neither an object nor a list: a value that a merge only ever overwrites. */
  predicate IsScalar(j: Json) {
    !j.JObject? && !j.JList?
  }

  /** The value stored under a key both sides hold (merge.py:14-22): two
      objects merge, two lists concatenate, anything else takes the right. */
  function Shared(v1: Json, v2: Json): Json
    decreases v2, 2
  {
    if v1.JObject? && v2.JObject? then Merge(v1, v2)
    else if v1.JList? && v2.JList? then JList(v1.items + v2.items)
    else v2
  }

  /** `result` once the keys `done` of `m2` have been visited: it starts as a
      copy of `m1`, and each visited key is added or replaced. */
  function Partial(m1: map<string, Json>, m2: map<string, Json>, done: set<string>): map<string, Json>
    requires done <= m2.Keys
    decreases JObject(m2), 0
  {
    map k | k in m1.Keys + done ::
      if k in done && k in m1 then Shared(m1[k], m2[k])
      else if k in done then m2[k]
      else m1[k]
  }

  /** Membership in and lookup of `Partial` at one key. */
  lemma PartialAt(m1: map<string, Json>, m2: map<string, Json>, done: set<string>, k: string)
    requires done <= m2.Keys
    ensures k in Partial(m1, m2, done) <==> k in m1 || k in done
    ensures k in done && k in m1 ==> Partial(m1, m2, done)[k] == Shared(m1[k], m2[k])
    ensures k in done && k !in m1 ==> Partial(m1, m2, done)[k] == m2[k]
    ensures k !in done && k in m1 ==> Partial(m1, m2, done)[k] == m1[k]
  {
  }

  /** Visiting one more key updates that key and no other. */
  lemma PartialStep(m1: map<string, Json>, m2: map<string, Json>, done: set<string>, k: string)
    requires done <= m2.Keys && k in m2 && k !in done
    ensures Partial(m1, m2, done + {k}) ==
      Partial(m1, m2, done)[k := if k in m1 then Shared(m1[k], m2[k]) else m2[k]]
  {
    var next := Partial(m1, m2, done + {k});
    var updated := Partial(m1, m2, done)[k := if k in m1 then Shared(m1[k], m2[k]) else m2[k]];
    forall x ensures (x in next <==> x in updated) && (x in next ==> next[x] == updated[x]) {
      PartialAt(m1, m2, done + {k}, x);
      PartialAt(m1, m2, done, x);
    }
  }

  /** The value `merge_json_objects(obj1, obj2)` returns. */
  function Merge(obj1: Json, obj2: Json): Json
    requires obj2.JObject? ==> obj1.JObject?
    decreases obj2, 1
  {
    if obj2.JObject? then JObject(Partial(obj1.fields, obj2.fields, obj2.fields.Keys))
    else obj2
  }

  /** What `obj1` holds after the call under a key both sides hold: its list
      object gains `v2`'s items through `extend` (merge.py:19), and a nested
      object is altered in the same way by the recursive call. */
  function Extended(v1: Json, v2: Json): Json
    decreases v2, 2
  {
    if v1.JObject? && v2.JObject? then Aliased(v1, v2)
    else if v1.JList? && v2.JList? then JList(v1.items + v2.items)
    else v1
  }

  /** `obj1`'s fields once the keys `done` of `m2` have been visited. */
  function AliasedPartial(m1: map<string, Json>, m2: map<string, Json>, done: set<string>): map<string, Json>
    requires done <= m2.Keys
    decreases JObject(m2), 0
  {
    map k | k in m1.Keys :: if k in done then Extended(m1[k], m2[k]) else m1[k]
  }

  lemma AliasedPartialAt(m1: map<string, Json>, m2: map<string, Json>, done: set<string>, k: string)
    requires done <= m2.Keys
    ensures k in AliasedPartial(m1, m2, done) <==> k in m1
    ensures k in done && k in m1 ==> AliasedPartial(m1, m2, done)[k] == Extended(m1[k], m2[k])
    ensures k !in done && k in m1 ==> AliasedPartial(m1, m2, done)[k] == m1[k]
  {
  }

  lemma AliasedPartialStep(m1: map<string, Json>, m2: map<string, Json>, done: set<string>, k: string)
    requires done <= m2.Keys && k in m2 && k !in done
    ensures AliasedPartial(m1, m2, done + {k}) ==
      if k in m1 then AliasedPartial(m1, m2, done)[k := Extended(m1[k], m2[k])] else AliasedPartial(m1, m2, done)
  {
    var next := AliasedPartial(m1, m2, done + {k});
    var updated := if k in m1 then AliasedPartial(m1, m2, done)[k := Extended(m1[k], m2[k])] else AliasedPartial(m1, m2, done);
    forall x ensures (x in next <==> x in updated) && (x in next ==> next[x] == updated[x]) {
      AliasedPartialAt(m1, m2, done + {k}, x);
      AliasedPartialAt(m1, m2, done, x);
    }
  }

  /** The value `obj1` holds after `merge_json_objects(obj1, obj2)` returns. */
  function Aliased(obj1: Json, obj2: Json): Json
    requires obj2.JObject? ==> obj1.JObject?
    decreases obj2, 1
  {
    if obj2.JObject? then JObject(AliasedPartial(obj1.fields, obj2.fields, obj2.fields.Keys))
    else obj1
  }

  /** The value reached from `j` by following the object keys in `path`. */
  function Lookup(j: Json, path: seq<string>): Option<Json>
    decreases |path|
  {
    if path == [] then Some(j)
    else if j.JObject? && path[0] in j.fields then Lookup(j.fields[path[0]], path[1..])
    else None
  }

  /** The key-by-key behaviour of a merge: a non-object right side is the
      result; otherwise the key set is the union, a key on one side only keeps
      that side's value, and a shared key merges two objects, concatenates two
      lists and otherwise takes the right-hand value. */
  lemma MergeEntries(obj1: Json, obj2: Json, k: string)
    requires obj2.JObject? ==> obj1.JObject?
    ensures !obj2.JObject? ==> Merge(obj1, obj2) == obj2
    ensures obj2.JObject? ==> Merge(obj1, obj2).JObject?
    ensures obj2.JObject? ==> (k in Merge(obj1, obj2).fields <==> k in obj1.fields || k in obj2.fields)
    ensures obj2.JObject? && k in obj1.fields && k !in obj2.fields ==>
      Merge(obj1, obj2).fields[k] == obj1.fields[k]
    ensures obj2.JObject? && k !in obj1.fields && k in obj2.fields ==>
      Merge(obj1, obj2).fields[k] == obj2.fields[k]
    ensures obj2.JObject? && k in obj1.fields && k in obj2.fields ==>
      var v1, v2 := obj1.fields[k], obj2.fields[k];
      Merge(obj1, obj2).fields[k] ==
        if v1.JObject? && v2.JObject? then Merge(v1, v2)
        else if v1.JList? && v2.JList? then JList(v1.items + v2.items)
        else v2
  {
    if obj2.JObject? {
      PartialAt(obj1.fields, obj2.fields, obj2.fields.Keys, k);
    }
  }

  /** The merged object's keys are exactly the keys of both sides. */
  lemma MergeKeys(obj1: Json, obj2: Json)
    requires obj1.JObject? && obj2.JObject?
    ensures Merge(obj1, obj2).JObject?
    ensures Merge(obj1, obj2).fields.Keys == obj1.fields.Keys + obj2.fields.Keys
  {
    forall k ensures k in Merge(obj1, obj2).fields <==> k in obj1.fields || k in obj2.fields {
      PartialAt(obj1.fields, obj2.fields, obj2.fields.Keys, k);
    }
  }

  /** Merging in an empty object gives back `obj1`. */
  lemma MergeEmptyRight(obj1: Json)
    requires obj1.JObject?
    ensures Merge(obj1, JObject(map[])) == obj1
  {
    assert Partial(obj1.fields, map[], {}) == obj1.fields;
  }

  /** Merging an object into `{}` gives back that object. */
  lemma MergeEmptyLeft(obj2: Json)
    requires obj2.JObject?
    ensures Merge(JObject(map[]), obj2) == obj2
  {
    assert Partial(map[], obj2.fields, obj2.fields.Keys) == obj2.fields;
  }

  /** Every key path of the right-hand side survives the merge at any depth,
      and wherever that path ends at a scalar the right-hand scalar is the one
      kept. */
  lemma {:induction false} MergeKeepsRightPaths(obj1: Json, obj2: Json, path: seq<string>)
    requires obj2.JObject? ==> obj1.JObject?
    requires Lookup(obj2, path).Some?
    ensures Lookup(Merge(obj1, obj2), path).Some?
    ensures IsScalar(Lookup(obj2, path).value) ==> Lookup(Merge(obj1, obj2), path) == Lookup(obj2, path)
    decreases |path|
  {
    if path != [] {
      var k := path[0];
      var v2 := obj2.fields[k];
      var merged := Merge(obj1, obj2);
      PartialAt(obj1.fields, obj2.fields, obj2.fields.Keys, k);
      assert Lookup(merged, path) == Lookup(merged.fields[k], path[1..]);
      if k in obj1.fields && obj1.fields[k].JObject? && v2.JObject? {
        MergeKeepsRightPaths(obj1.fields[k], v2, path[1..]);
      } else if k in obj1.fields && obj1.fields[k].JList? && v2.JList? {
        assert path[1..] == [];
      }
    }
  }

  /** The call never adds or removes a key of `obj1`, at any depth: a key path
      leads somewhere in `obj1` afterwards exactly when it did before. */
  lemma {:induction false} AliasedKeepsPaths(obj1: Json, obj2: Json, path: seq<string>)
    requires obj2.JObject? ==> obj1.JObject?
    ensures Lookup(Aliased(obj1, obj2), path).Some? <==> Lookup(obj1, path).Some?
    decreases |path|
  {
    if path != [] && obj2.JObject? {
      var k := path[0];
      AliasedPartialAt(obj1.fields, obj2.fields, obj2.fields.Keys, k);
      if k in obj1.fields && k in obj2.fields {
        var v1, v2 := obj1.fields[k], obj2.fields[k];
        if v1.JObject? && v2.JObject? {
          AliasedKeepsPaths(v1, v2, path[1..]);
        }
      }
    }
  }

  /** What `obj1` holds afterwards: every value of it that is not an object
      is either untouched or a list that has become exactly the list the
      result holds at the same path. */
  lemma {:induction false} AliasedListsAreShared(obj1: Json, obj2: Json, path: seq<string>)
    requires obj2.JObject? ==> obj1.JObject?
    requires Lookup(obj1, path).Some? && !Lookup(obj1, path).value.JObject?
    ensures Lookup(Aliased(obj1, obj2), path) == Lookup(obj1, path) ||
      (Lookup(obj1, path).value.JList? && Lookup(Aliased(obj1, obj2), path) == Lookup(Merge(obj1, obj2), path))
    decreases |path|
  {
    if path != [] && obj2.JObject? {
      var k := path[0];
      AliasedPartialAt(obj1.fields, obj2.fields, obj2.fields.Keys, k);
      PartialAt(obj1.fields, obj2.fields, obj2.fields.Keys, k);
      if k in obj2.fields {
        var v1, v2 := obj1.fields[k], obj2.fields[k];
        if v1.JObject? && v2.JObject? {
          AliasedListsAreShared(v1, v2, path[1..]);
        } else if v1.JList? && v2.JList? {
          assert path[1..] == [];
        }
      }
    }
  }

  /** `merge_json_objects` (merge.py:4-26): `result` starts as a copy of
      `obj1`'s fields and each key of `obj2` is visited once. The second
      result is the value `obj1` holds once the call returns. */
  method MergeJsonObjects(obj1: Json, obj2: Json) returns (result: Json, obj1After: Json)
    requires obj2.JObject? ==> obj1.JObject?
    ensures result == Merge(obj1, obj2)
    ensures obj1After == Aliased(obj1, obj2)
    decreases obj2, 1
  {
    if !obj2.JObject? {
      return obj2, obj1;
    }
    var fields := obj1.fields;
    var left := obj1.fields;
    var done: set<string> := {};
    while done != obj2.fields.Keys
      invariant done <= obj2.fields.Keys
      invariant fields == Partial(obj1.fields, obj2.fields, done)
      invariant left == AliasedPartial(obj1.fields, obj2.fields, done)
      decreases obj2.fields.Keys - done
    {
      var key :| key in obj2.fields && key !in done;
      fields, left := MergeKey(obj1, obj2, done, key, fields, left);
      done := done + {key};
    }
    result := JObject(fields);
    obj1After := JObject(left);
  }

  /** One iteration of the loop at merge.py:12-25: the entry of `result` (and,
      for lists and nested objects, of `obj1`) under `key` is updated. */
  method MergeKey(obj1: Json, obj2: Json, ghost done: set<string>, key: string,
                  fields: map<string, Json>, left: map<string, Json>)
    returns (fields': map<string, Json>, left': map<string, Json>)
    requires obj1.JObject? && obj2.JObject?
    requires done <= obj2.fields.Keys && key in obj2.fields && key !in done
    requires fields == Partial(obj1.fields, obj2.fields, done)
    requires left == AliasedPartial(obj1.fields, obj2.fields, done)
    ensures fields' == Partial(obj1.fields, obj2.fields, done + {key})
    ensures left' == AliasedPartial(obj1.fields, obj2.fields, done + {key})
    decreases obj2, 0
  {
    PartialAt(obj1.fields, obj2.fields, done, key);
    PartialStep(obj1.fields, obj2.fields, done, key);
    AliasedPartialAt(obj1.fields, obj2.fields, done, key);
    AliasedPartialStep(obj1.fields, obj2.fields, done, key);
    var value := obj2.fields[key];
    fields', left' := fields, left;
    if key in fields {
      if fields[key].JObject? && value.JObject? {
        var merged, nestedAfter := MergeJsonObjects(fields[key], value);
        fields' := fields[key := merged];
        left' := left[key := nestedAfter];
      } else if fields[key].JList? && value.JList? {
        fields' := fields[key := JList(fields[key].items + value.items)];
        left' := left[key := fields'[key]];
      } else {
        fields' := fields[key := value];
      }
    } else {
      fields' := fields[key := value];
    }
  }

  /** The accumulator can take every parsed input: once a parsed input is not
      an object, no parsed object follows it (an object merged into a
      non-object accumulator is outside `merge_json_objects`'s domain). */
  predicate ObjectsFirst(inputs: seq<Option<Json>>) {
    forall i, j :: 0 <= i < j < |inputs| && inputs[i].Some? && inputs[j].Some? && inputs[j].value.JObject? ==>
      inputs[i].value.JObject?
  }

  predicate AllObjects(inputs: seq<Option<Json>>) {
    forall i :: 0 <= i < |inputs| && inputs[i].Some? ==> inputs[i].value.JObject?
  }

  /** The left fold of `combine_json_strings` (merge.py:32-41), starting from
      `{}`; an input that did not parse leaves the accumulator as it was. */
  function Combine(inputs: seq<Option<Json>>): (r: Json)
    requires ObjectsFirst(inputs)
    ensures AllObjects(inputs) ==> r.JObject?
    decreases |inputs|
  {
    if inputs == [] then JObject(map[])
    else
      var init := inputs[..|inputs| - 1];
      assert forall i :: 0 <= i < |init| ==> init[i] == inputs[i];
      var acc := Combine(init);
      match inputs[|inputs| - 1]
      case None => acc
      case Some(j) => Merge(acc, j)
  }

  /** Inserting an unparsed input keeps the inputs acceptable. */
  lemma ObjectsFirstInsert(before: seq<Option<Json>>, after: seq<Option<Json>>)
    requires ObjectsFirst(before + after)
    ensures ObjectsFirst(before + [None] + after)
  {
    var with, without := before + [None] + after, before + after;
    forall i, j | 0 <= i < j < |with| && with[i].Some? && with[j].Some? && with[j].value.JObject?
      ensures with[i].value.JObject?
    {
      var i' := if i < |before| then i else i - 1;
      var j' := if j < |before| then j else j - 1;
      assert with[i] == without[i'] && with[j] == without[j'];
    }
  }

  /** A string that fails to parse, wherever it stands, changes nothing. */
  lemma {:induction false} CombineSkipsUnparsed(before: seq<Option<Json>>, after: seq<Option<Json>>)
    requires ObjectsFirst(before + after)
    ensures ObjectsFirst(before + [None] + after)
    ensures Combine(before + [None] + after) == Combine(before + after)
    decreases |after|
  {
    ObjectsFirstInsert(before, after);
    var with := before + [None] + after;
    if after == [] {
      assert with[..|with| - 1] == before + after;
    } else {
      var shorter := after[..|after| - 1];
      var without := before + after;
      assert without[..|without| - 1] == before + shorter;
      assert with[..|with| - 1] == before + [None] + shorter;
      assert with[|with| - 1] == without[|without| - 1];
      CombineSkipsUnparsed(before, shorter);
    }
  }

  /** When every parsed input is an object, the combined object's keys are
      exactly the keys found in any of them. */
  lemma {:induction false} CombineKeys(inputs: seq<Option<Json>>, k: string)
    requires AllObjects(inputs)
    ensures ObjectsFirst(inputs)
    ensures k in Combine(inputs).fields <==>
      exists i :: 0 <= i < |inputs| && inputs[i].Some? && k in inputs[i].value.fields
    decreases |inputs|
  {
    if inputs != [] {
      var init := inputs[..|inputs| - 1];
      assert forall i :: 0 <= i < |init| ==> init[i] == inputs[i];
      CombineKeys(init, k);
      if (exists i :: 0 <= i < |inputs| && inputs[i].Some? && k in inputs[i].value.fields) {
        var i :| 0 <= i < |inputs| && inputs[i].Some? && k in inputs[i].value.fields;
        if i < |init| {
          assert init[i] == inputs[i];
        }
      }
      match inputs[|inputs| - 1]
      case None =>
      case Some(j) => MergeKeys(Combine(init), j);
    }
  }

  /** A single object passes through the fold unchanged. */
  lemma CombineSingle(j: Json)
    requires j.JObject?
    ensures ObjectsFirst([Some(j)])
    ensures Combine([Some(j)]) == j
  {
    assert [Some(j)][..0] == [];
    MergeEmptyLeft(j);
  }

  /** `combine_json_strings`, over inputs that `json.loads` has already
      parsed: the accumulator is reassigned once per parsed input. */
  method CombineJsonStrings(parsed: seq<Option<Json>>) returns (combined: Json)
    requires ObjectsFirst(parsed)
    ensures combined == Combine(parsed)
  {
    combined := JObject(map[]);
    for i := 0 to |parsed|
      invariant ObjectsFirst(parsed[..i])
      invariant combined == Combine(parsed[..i])
    {
      assert parsed[..i + 1][..i] == parsed[..i];
      match parsed[i]
      case Some(j) =>
        var unused;
        combined, unused := MergeJsonObjects(combined, j);
      case None =>
    }
    assert parsed[..|parsed|] == parsed;
  }
}
