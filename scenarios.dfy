/**
 Worked catalogs: the merge and the loader on small concrete inputs.
 */
module Scenarios {
  import opened Json
  import opened I18n
  import opened MergeProperties

  /** Nested objects combine member by member and new keys are added:
      `{a: {x: 1}}` merged with `{a: {y: 2}, b: 3}` is `{a: {x: 1, y: 2}, b: 3}`. */
  lemma NestedMembersCombine()
    ensures Merge(map["a" := Obj(map["x" := Num(1.0)])],
                  map["a" := Obj(map["y" := Num(2.0)]), "b" := Num(3.0)])
      == map["a" := Obj(map["x" := Num(1.0), "y" := Num(2.0)]), "b" := Num(3.0)]
  {
    var t := map["a" := Obj(map["x" := Num(1.0)])];
    var s := map["a" := Obj(map["y" := Num(2.0)]), "b" := Num(3.0)];
    var inner := Merge(map["x" := Num(1.0)], map["y" := Num(2.0)]);
    assert inner == map["x" := Num(1.0), "y" := Num(2.0)];
    var r := Merge(t, s);
    assert r.Keys == {"a", "b"};
    assert r["a"] == Obj(inner);
  }

  /** A scalar in the target gives way to an object from the source:
      `{a: 1}` merged with `{a: {x: 1}}` is `{a: {x: 1}}`. */
  lemma ScalarReplacedByObject()
    ensures Merge(map["a" := Num(1.0)], map["a" := Obj(map["x" := Num(1.0)])])
      == map["a" := Obj(map["x" := Num(1.0)])]
  {
    var inner := Merge(map[], map["x" := Num(1.0)]);
    assert inner == map["x" := Num(1.0)];
    var r := Merge(map["a" := Num(1.0)], map["a" := Obj(map["x" := Num(1.0)])]);
    assert r.Keys == {"a"};
    assert r["a"] == Obj(inner);
  }

  /** Arrays are replaced whole, never concatenated:
      `{tags: [1, 2]}` merged with `{tags: [3]}` is `{tags: [3]}`. */
  lemma ArrayReplacedWhole()
    ensures Merge(map["tags" := Arr([Num(1.0), Num(2.0)])], map["tags" := Arr([Num(3.0)])])
      == map["tags" := Arr([Num(3.0)])]
  {
    var r := Merge(map["tags" := Arr([Num(1.0), Num(2.0)])], map["tags" := Arr([Num(3.0)])]);
    assert r.Keys == {"tags"};
  }

  /** A falsy source value still overwrites an object: `{a: {x: 1}}` merged
      with `{a: ""}` is `{a: ""}`. */
  lemma FalsyOverwritesObject()
    ensures Merge(map["a" := Obj(map["x" := Num(1.0)])], map["a" := Str("")]) == map["a" := Str("")]
  {
    var r := Merge(map["a" := Obj(map["x" := Num(1.0)])], map["a" := Str("")]);
    assert r.Keys == {"a"};
  }

  /** Three discovered files, two of them for `en`. */
  function ThreeFiles(): seq<LocaleModule>
  {
    [ LocaleModule("../home/_/en.json", map["greeting" := Str("hi")]),
      LocaleModule("../home/_/ua.json", map["greeting" := Str("pryvit")]),
      LocaleModule("../about/_/en.json", map["farewell" := Str("bye")]) ]
  }

  /** Which of `ThreeFiles` are `en` files. */
  lemma ThreeFilesPaths()
    ensures IsLocaleFile(ThreeFiles()[0].path, "en")
    ensures !IsLocaleFile(ThreeFiles()[1].path, "en")
    ensures IsLocaleFile(ThreeFiles()[2].path, "en")
  {
    EnFile("../home/_/en.json");
    assert "../home/_/ua.json"[10..12] == "ua";
    EnFile("../about/_/en.json");
  }

  /** A path ending in `/en.json` is an `en` file. */
  lemma EnFile(path: string)
    requires |path| >= 8 && path[|path| - 8..] == "/en.json"
    ensures IsLocaleFile(path, "en")
  {
    assert "/" + "en" + ".json" == "/en.json";
  }

  /** The `en` selection of `ThreeFiles` is its first and last file, in that order. */
  lemma ThreeFilesSelection()
    ensures Fragments(ThreeFiles(), "en") == [map["greeting" := Str("hi")], map["farewell" := Str("bye")]]
  {
    var modules := ThreeFiles();
    ThreeFilesPaths();
    FragmentsFrom(modules, "en", 2);
    assert modules[3..] == [];
    FragmentsFrom(modules, "en", 1);
    FragmentsFrom(modules, "en", 0);
    assert modules[0..] == modules;
  }

  /** The two `en` files merged one after the other. */
  lemma GreetingThenFarewell()
    ensures Merge(map[], map["greeting" := Str("hi")]) == map["greeting" := Str("hi")]
    ensures NoArrayClash(map["greeting" := Str("hi")], map["farewell" := Str("bye")])
    ensures Merge(map["greeting" := Str("hi")], map["farewell" := Str("bye")])
      == map["greeting" := Str("hi"), "farewell" := Str("bye")]
  {
    var first := Merge(map[], map["greeting" := Str("hi")]);
    assert first.Keys == {"greeting"};
    var second := Merge(map["greeting" := Str("hi")], map["farewell" := Str("bye")]);
    assert second.Keys == {"greeting", "farewell"};
  }

  /** Two `en` files and one `ua` file: the `en` catalog holds the members of
      both `en` files and nothing of the `ua` file. */
  lemma TwoFilesOneCatalog()
    ensures FoldClashFree(map[], Fragments(ThreeFiles(), "en"))
    ensures FoldMerge(map[], Fragments(ThreeFiles(), "en"))
      == map["greeting" := Str("hi"), "farewell" := Str("bye")]
  {
    var a := map["greeting" := Str("hi")];
    var b := map["farewell" := Str("bye")];
    ThreeFilesSelection();
    GreetingThenFarewell();
    assert [a, b][1..] == [b];
    assert [b][1..] == [];
    assert FoldClashFree(Merge(a, b), []);
    assert FoldClashFree(a, [b]);
    assert FoldMerge(a, [b]) == Merge(a, b);
  }

  /** No key is dropped at the top level only: a later scalar at `a` drops
      the nested key `a.b`. The fold of `{a: {b: 1}}` then `{a: "x"}` is
      `{a: "x"}`, which has no `a.b`. */
  lemma NestedKeyDropped()
    ensures FoldMerge(map[], [map["a" := Obj(map["b" := Num(1.0)])], map["a" := Str("x")]])
      == map["a" := Str("x")]
    ensures At(Obj(FoldMerge(map[], [map["a" := Obj(map["b" := Num(1.0)])], map["a" := Str("x")]])),
               ["a", "b"]).None?
  {
    var f0, f1 := map["a" := Obj(map["b" := Num(1.0)])], map["a" := Str("x")];
    var first := Merge(map[], f0);
    var second := Merge(first, f1);
    assert second.Keys == {"a"};
    assert second == f1;
    assert [f0, f1][1..] == [f1];
    assert [f1][1..] == [];
    assert FoldMerge(second, []) == second;
    assert FoldMerge(first, [f1]) == second;
    assert FoldMerge(map[], [f0, f1]) == second;
    assert At(Obj(second), ["a", "b"]) == At(Str("x"), ["b"]);
  }
}
