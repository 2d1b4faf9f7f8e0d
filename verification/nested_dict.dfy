/**
 * update_nested_dict: merging an additions mapping into a destination mapping. A key missing
 * from the destination takes the added value; a nested mapping is merged recursively; a list
 * is extended by the added sequence; anything else is overwritten. A shape mismatch
 * (a mapping or list in the destination facing a value of another kind) is an error.
 *
 * Values are modelled as a tree: mappings with string keys, lists, strings and other scalars.
 */
module NestedDict {
  import opened Wrappers

  datatype Value =
    | Dict(entries: map<string, Value>)
    | List(items: seq<Value>)
    | Str(s: string)
    | Atom(n: int)

  /**
   * The test the merge applies to a destination value before extending it. The source asks
   * `isinstance(x, Sequence)`, which a string also passes; `MutableSequence` is the test
   * that matches the intent (only lists are extended).
   */
  datatype SequenceTest = SequenceAbc | MutableSequenceAbc

  predicate IsSequence(v: Value) {
    v.List? || v.Str?
  }

  /** The destination test: lists always, strings only under the `Sequence` test. */
  predicate PassesTest(v: Value, test: SequenceTest) {
    v.List? || (test == SequenceAbc && v.Str?)
  }

  /** The one-character strings a string yields when iterated. */
  function Chars(s: string): (r: seq<Value>)
    ensures |r| == |s|
    ensures forall i :: 0 <= i < |s| ==> r[i] == Str([s[i]])
  {
    seq(|s|, i requires 0 <= i < |s| => Str([s[i]]))
  }

  /** `items.extend(v)`: the list grows by the elements of the added sequence, in order. */
  function Extend(items: seq<Value>, v: Value): (r: seq<Value>)
    requires IsSequence(v)
    ensures |r| >= |items| && r[..|items|] == items
    ensures v.List? ==> r[|items|..] == v.items
    ensures v.Str? ==> r[|items|..] == Chars(v.s)
  {
    if v.List? then items + v.items else items + Chars(v.s)
  }

  /**
   * The new value under a key present on both sides, or None where the source raises: a
   * mapping facing a non-mapping or a sequence facing a non-sequence fails its assertion, and
   * a string has no `extend`.
   */
  function MergeValue(cur: Value, v: Value, test: SequenceTest): (r: Option<Value>)
    ensures r.Some? && cur.Dict? ==> v.Dict? && r.value.Dict? && r.value.entries.Keys == cur.entries.Keys + v.entries.Keys
    ensures r.Some? && cur.List? ==> IsSequence(v) && r.value.List? && |r.value.items| >= |cur.items| && r.value.items[..|cur.items|] == cur.items
    ensures r.None? ==> cur.Dict? || PassesTest(cur, test)
    ensures !cur.Dict? && !PassesTest(cur, test) ==> r == Some(v)
    decreases cur, 2
  {
    if cur.Dict? then
      if v.Dict? then
        match MergeInto(cur.entries, v.entries, test)
        case None => None
        case Some(m) => Some(Dict(m))
      else None
    else if PassesTest(cur, test) then
      if !IsSequence(v) then None
      else if cur.Str? then None
      else Some(List(Extend(cur.items, v)))
    else Some(v)
  }

  /** Every key present on both sides merges without error. */
  predicate AllMerge(dest: map<string, Value>, add: map<string, Value>, test: SequenceTest)
    decreases Dict(dest), 0
  {
    forall k :: k in add && k in dest ==> MergeValue(dest[k], add[k], test).Some?
  }

  /** The merged mapping, key by key; None when any shared key fails to merge. */
  function MergeInto(dest: map<string, Value>, add: map<string, Value>, test: SequenceTest): (r: Option<map<string, Value>>)
    ensures r.Some? ==> r.value.Keys == dest.Keys + add.Keys
    ensures r.Some? ==> forall k :: k in dest && k !in add ==> r.value[k] == dest[k]
    ensures r.Some? ==> forall k :: k !in dest && k in add ==> r.value[k] == add[k]
    decreases Dict(dest), 1
  {
    if AllMerge(dest, add, test) then
      Some(map k | k in dest.Keys + add.Keys ::
        if k !in add then dest[k]
        else if k !in dest then add[k]
        else MergeValue(dest[k], add[k], test).value)
    else None
  }

  // ---------------------------------------------------------------------------
  // The loop of the source

  /**
   * update_nested_dict: visits the keys of `additions` one at a time, recursing into nested
   * mappings, and returns the destination as it stands afterwards (None where the source raises).
   */
  method UpdateNestedDict(dest: map<string, Value>, additions: map<string, Value>, test: SequenceTest)
    returns (r: Option<map<string, Value>>)
    ensures r == MergeInto(dest, additions, test)
    decreases Dict(dest)
  {
    var result := dest;
    var todo := additions.Keys;
    while todo != {}
      invariant todo <= additions.Keys
      invariant forall k :: k in additions && k !in todo && k in dest ==> MergeValue(dest[k], additions[k], test).Some?
      invariant result == Partial(dest, additions, additions.Keys - todo, test)
      decreases todo
    {
      var k :| k in todo;
      var v := additions[k];
      var next: Value;
      if k !in dest {
        next := v;
      } else {
        var cur := dest[k];
        if cur.Dict? {
          if !v.Dict? {
            MergeFails(dest, additions, k, test);
            return None;
          }
          var merged := UpdateNestedDict(cur.entries, v.entries, test);
          if merged.None? {
            MergeFails(dest, additions, k, test);
            return None;
          }
          next := Dict(merged.value);
        } else if PassesTest(cur, test) {
          if !IsSequence(v) || cur.Str? {
            MergeFails(dest, additions, k, test);
            return None;
          }
          next := List(Extend(cur.items, v));
        } else {
          next := v;
        }
        assert MergeValue(cur, v, test) == Some(next);
      }
      PartialStep(dest, additions, additions.Keys - todo, k, test);
      assert additions.Keys - (todo - {k}) == (additions.Keys - todo) + {k};
      result := result[k := next];
      todo := todo - {k};
    }
    PartialAll(dest, additions, test);
    assert additions.Keys - todo == additions.Keys;
    return Some(result);
  }

  lemma {:induction false} MergeFails(dest: map<string, Value>, add: map<string, Value>, k: string, test: SequenceTest)
    requires k in dest && k in add && MergeValue(dest[k], add[k], test).None?
    ensures MergeInto(dest, add, test).None?
  {
  }

  lemma {:induction false} PartialStep(dest: map<string, Value>, add: map<string, Value>, done: set<string>, k: string, test: SequenceTest)
    requires done <= add.Keys && k in add && k !in done
    requires forall j :: j in done && j in dest ==> MergeValue(dest[j], add[j], test).Some?
    requires k in dest ==> MergeValue(dest[k], add[k], test).Some?
    ensures Partial(dest, add, done + {k}, test) ==
      Partial(dest, add, done, test)[k := if k in dest then MergeValue(dest[k], add[k], test).value else add[k]]
  {
  }

  lemma {:induction false} PartialAll(dest: map<string, Value>, add: map<string, Value>, test: SequenceTest)
    requires forall j :: j in add && j in dest ==> MergeValue(dest[j], add[j], test).Some?
    ensures MergeInto(dest, add, test) == Some(Partial(dest, add, add.Keys, test))
  {
  }

  /** The destination once the keys in `done` have been merged, all of them without error. */
  function Partial(dest: map<string, Value>, add: map<string, Value>, done: set<string>, test: SequenceTest): map<string, Value>
    requires done <= add.Keys
    requires forall k :: k in done && k in dest ==> MergeValue(dest[k], add[k], test).Some?
  {
    map k | k in dest.Keys + done ::
      if k !in done then dest[k]
      else if k !in dest then add[k]
      else MergeValue(dest[k], add[k], test).value
  }

  // ---------------------------------------------------------------------------
  // What the merge promises

  /**
   * A key present on both sides: a nested mapping is merged recursively, a list becomes the
   * old items followed by the added ones, and any other value is replaced by the addition.
   */
  lemma {:induction false} MergeShared(dest: map<string, Value>, add: map<string, Value>, k: string, test: SequenceTest)
    requires k in dest && k in add && MergeInto(dest, add, test).Some?
    ensures var m := MergeInto(dest, add, test).value;
      && (dest[k].Dict? ==>
            add[k].Dict? && MergeInto(dest[k].entries, add[k].entries, test).Some? &&
            m[k] == Dict(MergeInto(dest[k].entries, add[k].entries, test).value))
      && (dest[k].List? ==>
            IsSequence(add[k]) && m[k].List? && |m[k].items| >= |dest[k].items| &&
            m[k].items[..|dest[k].items|] == dest[k].items &&
            (add[k].List? ==> m[k].items[|dest[k].items|..] == add[k].items))
      && (!dest[k].Dict? && !PassesTest(dest[k], test) ==> m[k] == add[k])
  {
    assert MergeValue(dest[k], add[k], test).Some?;
  }

  /** Whether the shapes of two values allow a merge, stated without computing one. */
  predicate CompatibleValue(cur: Value, v: Value, test: SequenceTest)
    decreases cur, 1
  {
    if cur.Dict? then v.Dict? && CompatibleMaps(cur.entries, v.entries, test)
    else if PassesTest(cur, test) then cur.List? && IsSequence(v)
    else true
  }

  predicate CompatibleMaps(dest: map<string, Value>, add: map<string, Value>, test: SequenceTest)
    decreases Dict(dest), 0
  {
    forall k :: k in dest && k in add ==> CompatibleValue(dest[k], add[k], test)
  }

  lemma {:induction false} MergeValueSucceeds(cur: Value, v: Value, test: SequenceTest)
    ensures MergeValue(cur, v, test).Some? <==> CompatibleValue(cur, v, test)
    decreases cur, 1
  {
    if cur.Dict? && v.Dict? {
      MergeIntoSucceeds(cur.entries, v.entries, test);
    }
  }

  /** The merge raises exactly when some key shared by both sides has shapes that do not fit. */
  lemma {:induction false} MergeIntoSucceeds(dest: map<string, Value>, add: map<string, Value>, test: SequenceTest)
    ensures MergeInto(dest, add, test).Some? <==> CompatibleMaps(dest, add, test)
    decreases Dict(dest), 0
  {
    forall k | k in dest && k in add
      ensures MergeValue(dest[k], add[k], test).Some? <==> CompatibleValue(dest[k], add[k], test)
    {
      MergeValueSucceeds(dest[k], add[k], test);
    }
  }

  /** Nothing to add leaves the destination as it was. */
  lemma {:induction false} MergeNothing(dest: map<string, Value>, test: SequenceTest)
    ensures MergeInto(dest, map[], test) == Some(dest)
  {
    assert AllMerge(dest, map[], test);
    assert MergeInto(dest, map[], test).value == dest;
  }

  /** Into an empty destination, the additions are copied as they are. */
  lemma {:induction false} MergeIntoEmpty(add: map<string, Value>, test: SequenceTest)
    ensures MergeInto(map[], add, test) == Some(add)
  {
    assert MergeInto(map[], add, test).value == add;
  }

  // ---------------------------------------------------------------------------
  // Strings in the destination

  /**
   * As written: a string already in the destination counts as a Sequence, so adding to its
   * key raises, even when the addition is itself a string.
   */
  lemma {:induction false} StringValueRejected()
    ensures MergeInto(map["a" := Str("x")], map["a" := Str("y")], SequenceAbc) == None
  {
    var dest, add := map["a" := Str("x")], map["a" := Str("y")];
    assert dest["a"] == Str("x") && add["a"] == Str("y");
    assert MergeValue(Str("x"), Str("y"), SequenceAbc) == None;
    assert !AllMerge(dest, add, SequenceAbc);
  }

  /** With the MutableSequence test a string is a scalar and is overwritten like one. */
  lemma {:induction false} StringValueOverwritten(s: string, v: Value)
    ensures MergeValue(Str(s), v, MutableSequenceAbc) == Some(v)
  {
  }

  lemma {:induction false} ValueTestsAgree(cur: Value, v: Value)
    requires MergeValue(cur, v, SequenceAbc).Some?
    ensures MergeValue(cur, v, MutableSequenceAbc) == MergeValue(cur, v, SequenceAbc)
    decreases cur, 1
  {
    if cur.Dict? {
      MapTestsAgree(cur.entries, v.entries);
    }
  }

  /** Wherever the code as written succeeds, the corrected test gives the same result. */
  lemma {:induction false} MapTestsAgree(dest: map<string, Value>, add: map<string, Value>)
    requires MergeInto(dest, add, SequenceAbc).Some?
    ensures MergeInto(dest, add, MutableSequenceAbc) == MergeInto(dest, add, SequenceAbc)
    decreases Dict(dest), 0
  {
    forall k | k in dest && k in add
      ensures MergeValue(dest[k], add[k], MutableSequenceAbc) == MergeValue(dest[k], add[k], SequenceAbc)
    {
      ValueTestsAgree(dest[k], add[k]);
    }
    assert AllMerge(dest, add, MutableSequenceAbc);
    assert MergeInto(dest, add, MutableSequenceAbc).value == MergeInto(dest, add, SequenceAbc).value;
  }
}
