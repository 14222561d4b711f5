/**
 The locale-catalog builder: `deepMerge`, which merges one message fragment
 into a catalog in place, and `loadLocaleMessages`, which folds it over every
 fragment discovered for one locale.

 `Merge` is the reference definition of the merge, stated key by key on
 values; `LocaleMessages.DeepMerge` is the in-place loop of the source and is
 proved to produce exactly `Merge`.
 */
module I18n {
  import opened Json

  /** The object a source object at `key` is merged into: the target's object
      there if it has one, otherwise the fresh `{}` that replaces a missing,
      falsy or non-object value. */
  function Base(target: Fields, key: string): Fields
  {
    if key in target && target[key].Obj? then target[key].fields else map[]
  }

  /** No key path holds an array in `target` where `source` holds an object.
      On such input `deepMerge` as written keeps the array and adds the
      object's members to it as properties, which a JSON value cannot hold;
      the in-place model is stated for the other inputs only. */
  predicate NoArrayClash(target: Fields, source: Fields)
    decreases Obj(source)
  {
    forall key :: key in source && source[key].Obj? && key in target ==>
      !target[key].Arr? &&
      (target[key].Obj? ==> NoArrayClash(target[key].fields, source[key].fields))
  }

  /** The catalog `deepMerge(target, source)` leaves behind, key by key, with
      an array in the target treated like any other non-object value: replaced
      by a fresh `{}` when the source holds an object there. */
  function Merge(target: Fields, source: Fields): (r: Fields)
    decreases Obj(source)
    // no key of either side is dropped, and no other key appears
    ensures r.Keys == target.Keys + source.Keys
    // the loop visits only the source's keys: the target's other keys are untouched
    ensures forall key :: key in target && key !in source ==> r[key] == target[key]
    // a scalar, array, null or falsy source value overwrites whatever was there
    ensures forall key :: key in source && !source[key].Obj? ==> r[key] == source[key]
    // an object is merged into what the target holds there, or into a fresh `{}`
    ensures forall key :: key in source && source[key].Obj? ==> r[key].Obj?
  {
    map key | key in target.Keys + source.Keys ::
      if key !in source then target[key]
      else if source[key].Obj? then Obj(Merge(Base(target, key), source[key].fields))
      else source[key]
  }

  /** `target` with the members named in `done` already replaced by those of `goal`. */
  ghost function Overlay(target: Fields, goal: Fields, done: set<string>): Fields
    requires done <= goal.Keys
  {
    map key | key in target.Keys + done :: if key in done then goal[key] else target[key]
  }

  /** One turn of the loop in `deepMerge`, on values: what the member at `key`
      is merged into has not been touched yet, and replacing it completes one
      more member of the merge. */
  lemma MergeStep(target: Fields, source: Fields, keys: set<string>, key: string)
    requires NoArrayClash(target, source)
    requires keys <= source.Keys && key in keys
    ensures var done := Overlay(target, Merge(target, source), source.Keys - keys);
      && (source[key].Obj? ==>
            !(key in done && done[key].Arr?) && NoArrayClash(Base(done, key), source[key].fields))
      && done[key := if source[key].Obj? then Obj(Merge(Base(done, key), source[key].fields)) else source[key]]
         == Overlay(target, Merge(target, source), source.Keys - (keys - {key}))
  {
    var goal := Merge(target, source);
    OverlayStep(target, goal, source.Keys - keys, key);
    assert source.Keys - (keys - {key}) == (source.Keys - keys) + {key};
    if source[key].Obj? {
      ClashFreeAt(target, source, key);
      assert goal[key] == Obj(Merge(Base(target, key), source[key].fields));
    }
  }

  /** The clash-freedom a source object at `key` passes down to its own merge. */
  lemma ClashFreeAt(target: Fields, source: Fields, key: string)
    requires NoArrayClash(target, source)
    requires key in source && source[key].Obj?
    ensures !(key in target && target[key].Arr?)
    ensures NoArrayClash(Base(target, key), source[key].fields)
  {
  }

  /** Replacing one more member, one not yet replaced. */
  lemma OverlayStep(target: Fields, goal: Fields, done: set<string>, key: string)
    requires done <= goal.Keys && key in goal && key !in done
    ensures key in Overlay(target, goal, done) <==> key in target
    ensures key in target ==> Overlay(target, goal, done)[key] == target[key]
    ensures Base(Overlay(target, goal, done), key) == Base(target, key)
    ensures Overlay(target, goal, done)[key := goal[key]] == Overlay(target, goal, done + {key})
  {
  }

  /** Once every source member is replaced, the overlay is the merge. */
  lemma OverlayDone(target: Fields, source: Fields)
    ensures Overlay(target, Merge(target, source), source.Keys - {}) == Merge(target, source)
  {
  }

  /** A mutable JSON object, the `LocaleMessages` record the source mutates. */
  class LocaleMessages {
    var entries: Fields

    constructor (initial: Fields)
      ensures entries == initial
    {
      entries := initial;
    }

    /** `deepMerge(this, source)`: visits the keys of `source` one at a time and
        updates this object in place. */
    method DeepMerge(source: Fields)
      requires NoArrayClash(entries, source)
      modifies this
      ensures entries == Merge(old(entries), source)
      decreases Obj(source), 1
    {
      ghost var target := entries;
      var keys := source.Keys;
      while keys != {}
        invariant keys <= source.Keys
        invariant entries == Overlay(target, Merge(target, source), source.Keys - keys)
        decreases keys
      {
        var key :| key in keys;
        MergeStep(target, source, keys, key);
        MergeMember(key, source[key]);
        keys := keys - {key};
      }
      OverlayDone(target, source);
    }

    /** One turn of the loop in `deepMerge`: a mergeable object is merged into
        the object at `key` (a fresh `{}` if there is none), anything else
        overwrites it. A nested object is a value here, so the recursive call
        merges into a fresh object holding the nested value, which is then
        stored back under its key. */
    method MergeMember(key: string, value: Value)
      requires value.Obj? ==>
        !(key in entries && entries[key].Arr?) && NoArrayClash(Base(entries, key), value.fields)
      modifies this
      ensures entries == old(entries)[key :=
        if value.Obj? then Obj(Merge(Base(old(entries), key), value.fields)) else value]
      decreases value, 2
    {
      if IsMergeableObject(value) {
        var slot := if key in entries then Some(entries[key]) else None;
        if NeedsFreshObject(slot) {
          entries := entries[key := Obj(map[])];
        }
        var nested := new LocaleMessages(entries[key].fields);
        nested.DeepMerge(value.fields);
        entries := entries[key := Obj(nested.entries)];
      } else {
        entries := entries[key := value];
      }
    }
  }

  /** One discovered locale file: its path and its parsed JSON object. */
  datatype LocaleModule = LocaleModule(path: string, data: Fields)

  predicate EndsWith(s: string, suffix: string)
  {
    |suffix| <= |s| && s[|s| - |suffix|..] == suffix
  }

  /** `path.endsWith("/" + locale + ".json")`. */
  predicate IsLocaleFile(path: string, locale: string)
    // the file name is exactly the locale: a slash right before it, `.json` right after it
    ensures IsLocaleFile(path, locale) <==>
      && |locale| + 6 <= |path|
      && path[|path| - |locale| - 6] == '/'
      && path[|path| - |locale| - 5..|path| - 5] == locale
      && path[|path| - 5..] == ".json"
  {
    EndsWith(path, "/" + locale + ".json")
  }

  /** `data` is the data of some module whose path names `locale`. */
  predicate FromLocaleFile(modules: seq<LocaleModule>, locale: string, data: Fields)
  {
    exists i :: 0 <= i < |modules| && IsLocaleFile(modules[i].path, locale) && modules[i].data == data
  }

  /** The data of the modules whose path names `locale`, in enumeration order. */
  function Fragments(modules: seq<LocaleModule>, locale: string): (r: seq<Fields>)
    // nothing else is selected: every fragment is the data of a file whose path names the locale
    ensures forall j {:trigger FromLocaleFile(modules, locale, r[j])} ::
      0 <= j < |r| ==> FromLocaleFile(modules, locale, r[j])
  {
    if modules == [] then []
    else
      var rest := Fragments(modules[1..], locale);
      SelectedLater(modules, locale, rest);
      (if IsLocaleFile(modules[0].path, locale) then [modules[0].data] else []) + rest
  }

  /** What the files after the first select, the whole sequence selects too. */
  lemma SelectedLater(modules: seq<LocaleModule>, locale: string, rest: seq<Fields>)
    requires modules != []
    requires forall j {:trigger FromLocaleFile(modules[1..], locale, rest[j])} ::
      0 <= j < |rest| ==> FromLocaleFile(modules[1..], locale, rest[j])
    ensures forall j {:trigger FromLocaleFile(modules, locale, rest[j])} ::
      0 <= j < |rest| ==> FromLocaleFile(modules, locale, rest[j])
  {
    forall j | 0 <= j < |rest| ensures FromLocaleFile(modules, locale, rest[j]) {
      assert FromLocaleFile(modules[1..], locale, rest[j]);
      var i :| 0 <= i < |modules[1..]| && IsLocaleFile(modules[1..][i].path, locale) && modules[1..][i].data == rest[j];
      assert modules[i + 1] == modules[1..][i];
    }
  }

  /** Every step of the fold stays clear of the array/object clash. */
  predicate FoldClashFree(acc: Fields, fragments: seq<Fields>)
    decreases |fragments|
  {
    fragments == [] ||
    (NoArrayClash(acc, fragments[0]) && FoldClashFree(Merge(acc, fragments[0]), fragments[1..]))
  }

  /** Every top-level key of every fragment. */
  function AllKeys(fragments: seq<Fields>): set<string>
  {
    if fragments == [] then {} else fragments[0].Keys + AllKeys(fragments[1..])
  }

  /** The left fold of the merge over `fragments`, starting from `acc`. */
  function FoldMerge(acc: Fields, fragments: seq<Fields>): (r: Fields)
    decreases |fragments|
    // the fold drops no key: the catalog holds exactly the keys of its start and of every fragment
    ensures r.Keys == acc.Keys + AllKeys(fragments)
  {
    if fragments == [] then acc else FoldMerge(Merge(acc, fragments[0]), fragments[1..])
  }

  /** The fragments from position `i` on: the module at `i`, if it is
      selected, then those after it. */
  lemma FragmentsFrom(modules: seq<LocaleModule>, locale: string, i: nat)
    requires i < |modules|
    ensures Fragments(modules[i..], locale) ==
      (if IsLocaleFile(modules[i].path, locale) then [modules[i].data] else [])
      + Fragments(modules[i + 1..], locale)
  {
    assert modules[i..][1..] == modules[i + 1..];
  }

  /** One turn of the `forEach` in `loadLocaleMessages`, on values: the module
      at `i` is merged into `acc` exactly when its path names the locale, and
      the fold over the rest then ends where the fold from `i` would. */
  lemma LoadStep(acc: Fields, modules: seq<LocaleModule>, locale: string, i: nat)
    requires i < |modules|
    requires FoldClashFree(acc, Fragments(modules[i..], locale))
    ensures var next := if IsLocaleFile(modules[i].path, locale) then Merge(acc, modules[i].data) else acc;
      && (IsLocaleFile(modules[i].path, locale) ==> NoArrayClash(acc, modules[i].data))
      && FoldClashFree(next, Fragments(modules[i + 1..], locale))
      && FoldMerge(next, Fragments(modules[i + 1..], locale)) == FoldMerge(acc, Fragments(modules[i..], locale))
  {
    FragmentsFrom(modules, locale, i);
    var rest := Fragments(modules[i + 1..], locale);
    if IsLocaleFile(modules[i].path, locale) {
      assert ([modules[i].data] + rest)[1..] == rest;
    } else {
      assert Fragments(modules[i..], locale) == rest;
    }
  }

  /** `loadLocaleMessages(locale)` over the discovered `modules`: starts from
      `{}` and merges, in order, the data of every module whose path ends in
      `/<locale>.json`. */
  method LoadLocaleMessages(locale: string, modules: seq<LocaleModule>) returns (r: Fields)
    requires FoldClashFree(map[], Fragments(modules, locale))
    ensures r == FoldMerge(map[], Fragments(modules, locale))
  {
    var messages := new LocaleMessages(map[]);
    ghost var catalog := FoldMerge(map[], Fragments(modules, locale));
    var i := 0;
    while i < |modules|
      invariant 0 <= i <= |modules|
      invariant FoldClashFree(messages.entries, Fragments(modules[i..], locale))
      invariant FoldMerge(messages.entries, Fragments(modules[i..], locale)) == catalog
    {
      ghost var acc := messages.entries;
      LoadStep(acc, modules, locale, i);
      var m := modules[i];
      if IsLocaleFile(m.path, locale) {
        messages.DeepMerge(m.data);
      }
      assert messages.entries == if IsLocaleFile(m.path, locale) then Merge(acc, m.data) else acc;
      i := i + 1;
    }
    assert modules[i..] == [];
    r := messages.entries;
  }

  /** No file for the locale gives the empty catalog, not an error. */
  lemma {:induction false} NoFileEmptyCatalog(modules: seq<LocaleModule>, locale: string)
    requires forall i :: 0 <= i < |modules| ==> !IsLocaleFile(modules[i].path, locale)
    ensures Fragments(modules, locale) == []
    ensures FoldClashFree(map[], Fragments(modules, locale))
    ensures FoldMerge(map[], Fragments(modules, locale)) == map[]
    decreases |modules|
  {
    if modules != [] {
      assert !IsLocaleFile(modules[0].path, locale);
      NoFileEmptyCatalog(modules[1..], locale);
    }
  }
}
