/**
 Properties of one merge: what survives along a key path, idempotence, and
 when the order of two fragments matters.
 */
module MergeProperties {
  import opened Json
  import opened I18n

  /** The value reached from `v` by following the member names in `path`
      through nested objects, the way a catalog key such as `a.b.c` is looked up. */
  function At(v: Value, path: seq<string>): Option<Value>
    decreases |path|
  {
    if path == [] then Some(v)
    else if v.Obj? && path[0] in v.fields then At(v.fields[path[0]], path[1..])
    else None
  }

  /** `source` contributes nothing at or below `path`: every member above the
      last is an object there, merged rather than overwritten, and the last
      member is absent. */
  predicate Spares(source: Fields, path: seq<string>)
    decreases |path|
  {
    path != [] &&
    (path[0] !in source ||
     (|path| > 1 && source[path[0]].Obj? && Spares(source[path[0]].fields, path[1..])))
  }

  /** Merging a fragment into a catalog that already holds it changes nothing. */
  lemma {:induction false} Idempotent(target: Fields, source: Fields)
    ensures Merge(Merge(target, source), source) == Merge(target, source)
    decreases Obj(source)
  {
    var r := Merge(target, source);
    var r2 := Merge(r, source);
    forall key | key in r2 ensures r2[key] == r[key] {
      if key in source && source[key].Obj? {
        Idempotent(Base(target, key), source[key].fields);
      }
    }
  }

  /** Merging into the empty object copies the fragment: loading a single file gives that file. */
  lemma {:induction false} IntoEmpty(source: Fields)
    ensures Merge(map[], source) == source
    decreases Obj(source)
  {
    var r := Merge(map[], source);
    forall key | key in r ensures r[key] == source[key] {
      if source[key].Obj? {
        IntoEmpty(source[key].fields);
        assert Obj(source[key].fields) == source[key];
      }
    }
  }

  /** A fragment object at `key` is merged into the target's object there, not
      put in its place: that object keeps every member the fragment lacks and
      gains the fragment's; a non-object member of the fragment wins. When the
      target holds no object at `key` (missing, falsy or a scalar), the result
      there is the fragment object itself. */
  lemma ObjectMerged(target: Fields, source: Fields, key: string)
    requires key in source && source[key].Obj?
    ensures var inner := Merge(target, source)[key];
      && inner.Obj?
      && (key in target && target[key].Obj? ==>
            && inner.fields.Keys == target[key].fields.Keys + source[key].fields.Keys
            && (forall k :: k in target[key].fields && k !in source[key].fields ==>
                  inner.fields[k] == target[key].fields[k])
            && (forall k :: k in source[key].fields && !source[key].fields[k].Obj? ==>
                  inner.fields[k] == source[key].fields[k]))
      && (!(key in target && target[key].Obj?) ==> inner == source[key])
  {
    if !(key in target && target[key].Obj?) {
      IntoEmpty(source[key].fields);
    }
  }

  /** Every key path of the source is in the result, and a non-object value
      found there in the source is the value found there in the result. */
  lemma {:induction false} SourcePathKept(target: Fields, source: Fields, path: seq<string>)
    requires At(Obj(source), path).Some?
    ensures At(Obj(Merge(target, source)), path).Some?
    ensures !At(Obj(source), path).value.Obj? ==>
      At(Obj(Merge(target, source)), path) == At(Obj(source), path)
    decreases |path|
  {
    if path != [] {
      var key := path[0];
      var r := Merge(target, source);
      assert At(Obj(source), path) == At(source[key], path[1..]);
      assert At(Obj(r), path) == At(r[key], path[1..]);
      if source[key].Obj? {
        SourcePathKept(Base(target, key), source[key].fields, path[1..]);
      }
    }
  }

  /** A key path of the target survives, with its value, unless the source
      overwrites it or one of the objects above it. */
  lemma {:induction false} TargetPathKept(target: Fields, source: Fields, path: seq<string>)
    requires At(Obj(target), path).Some?
    requires Spares(source, path)
    ensures At(Obj(Merge(target, source)), path) == At(Obj(target), path)
    decreases |path|
  {
    var r := Merge(target, source);
    var key := path[0];
    assert At(Obj(target), path) == At(target[key], path[1..]);
    assert At(Obj(r), path) == At(r[key], path[1..]);
    if key in source {
      TargetPathKept(target[key].fields, source[key].fields, path[1..]);
    }
  }

  /** Two fragments with no top-level key in common can be merged in either order. */
  lemma DisjointCommute(target: Fields, a: Fields, b: Fields)
    requires a.Keys !! b.Keys
    ensures Merge(Merge(target, a), b) == Merge(Merge(target, b), a)
  {
    var ab, ba := Merge(Merge(target, a), b), Merge(Merge(target, b), a);
    forall key | key in ab ensures key in ba && ab[key] == ba[key] {
      DisjointMemberAgrees(target, a, b, key);
    }
    SameMembers(ab, ba);
  }

  /** Two objects with the same members are equal. */
  lemma SameMembers(m1: Fields, m2: Fields)
    requires m1.Keys == m2.Keys
    requires forall key :: key in m1 ==> m1[key] == m2[key]
    ensures m1 == m2
  {
  }

  /** `DisjointCommute` for the member at one key. */
  lemma DisjointMemberAgrees(target: Fields, a: Fields, b: Fields, key: string)
    requires a.Keys !! b.Keys
    requires key in target || key in a || key in b
    ensures key in Merge(Merge(target, b), a)
    ensures Merge(Merge(target, a), b)[key] == Merge(Merge(target, b), a)[key]
  {
    if key in b {
      UntouchedBases(target, a, b);
      SameSlotSameMerge(Merge(target, a), target, b, key);
    } else if key in a {
      UntouchedBases(target, b, a);
      SameSlotSameMerge(Merge(target, b), target, a, key);
    }
  }

  /** Merging `a` leaves alone every key of `b` when the two share none. */
  lemma UntouchedBases(target: Fields, a: Fields, b: Fields)
    requires a.Keys !! b.Keys
    ensures forall key :: key in b ==> Base(Merge(target, a), key) == Base(target, key)
  {
  }

  /** What a source member merges into decides what the merge leaves at that key. */
  lemma SameSlotSameMerge(t1: Fields, t2: Fields, source: Fields, key: string)
    requires key in source && Base(t1, key) == Base(t2, key)
    ensures Merge(t1, source)[key] == Merge(t2, source)[key]
  {
  }

  /** Two fragments that set the same key to different non-object values give
      different catalogs in the two orders: the later one wins. */
  lemma ConflictOrderMatters(target: Fields, a: Fields, b: Fields, key: string)
    requires key in a && key in b && !a[key].Obj? && !b[key].Obj? && a[key] != b[key]
    ensures Merge(Merge(target, a), b)[key] == b[key]
    ensures Merge(Merge(target, b), a)[key] == a[key]
    ensures Merge(Merge(target, a), b) != Merge(Merge(target, b), a)
  {
  }

  /** As written, the test at line 8 lets an array in the target through:
      a source object at the same key passes the source test, the array is
      not replaced, and the merge goes on into the array. Such a pair is
      exactly what the in-place model's precondition rules out. */
  lemma ArrayTargetKept(key: string, items: seq<Value>, fields: Fields)
    ensures IsMergeableObject(Obj(fields))
    ensures !NeedsFreshObject(Some(Arr(items)))
    ensures !NoArrayClash(map[key := Arr(items)], map[key := Obj(fields)])
  {
    var target, source := map[key := Arr(items)], map[key := Obj(fields)];
    assert key in source && source[key].Obj? && key in target && target[key].Arr?;
  }

  /** With arrays atomic, as intended, a source object replaces an array in
      the target by a copy of itself, like any other non-object value. */
  lemma ArrayTargetReplaced(target: Fields, source: Fields, key: string)
    requires key in target && target[key].Arr?
    requires key in source && source[key].Obj?
    ensures Merge(target, source)[key] == source[key]
  {
    ObjectMerged(target, source, key);
  }
}
