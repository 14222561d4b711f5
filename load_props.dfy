/**
 Properties of the catalog `loadLocaleMessages` assembles: which files are
 selected and in what order, which keys the catalog holds, and which value
 wins when several files define the same key.
 */
module LoadProperties {
  import opened Json
  import opened I18n
  import opened MergeProperties

  /** A key no fragment mentions keeps the value it started with. */
  lemma {:induction false} FoldUntouched(acc: Fields, fragments: seq<Fields>, key: string)
    requires key in acc
    requires forall j :: 0 <= j < |fragments| ==> key !in fragments[j]
    ensures key in FoldMerge(acc, fragments) && FoldMerge(acc, fragments)[key] == acc[key]
    decreases |fragments|
  {
    if fragments != [] {
      FoldUntouched(Merge(acc, fragments[0]), fragments[1..], key);
    }
  }

  /** The last fragment to give a key a non-object value decides that key:
      later fragments win. */
  lemma {:induction false} LastScalarWins(acc: Fields, fragments: seq<Fields>, j: nat, key: string)
    requires j < |fragments| && key in fragments[j] && !fragments[j][key].Obj?
    requires forall k :: j < k < |fragments| ==> key !in fragments[k]
    ensures key in FoldMerge(acc, fragments) && FoldMerge(acc, fragments)[key] == fragments[j][key]
    decreases |fragments|
  {
    var next := Merge(acc, fragments[0]);
    if j == 0 {
      FoldUntouched(next, fragments[1..], key);
    } else {
      LastScalarWins(next, fragments[1..], j - 1, key);
    }
  }

  /** A key path that every fragment spares keeps the value it started with. */
  lemma {:induction false} PathUntouched(acc: Fields, fragments: seq<Fields>, path: seq<string>)
    requires At(Obj(acc), path).Some?
    requires forall k :: 0 <= k < |fragments| ==> Spares(fragments[k], path)
    ensures At(Obj(FoldMerge(acc, fragments)), path) == At(Obj(acc), path)
    decreases |fragments|
  {
    if fragments != [] {
      TargetPathKept(acc, fragments[0], path);
      PathUntouched(Merge(acc, fragments[0]), fragments[1..], path);
    }
  }

  /** The last fragment to put a non-object value at a key path, nested or
      not, decides that path, provided the later fragments spare it. */
  lemma {:induction false} LastPathWins(acc: Fields, fragments: seq<Fields>, j: nat, path: seq<string>)
    requires j < |fragments|
    requires At(Obj(fragments[j]), path).Some? && !At(Obj(fragments[j]), path).value.Obj?
    requires forall k :: j < k < |fragments| ==> Spares(fragments[k], path)
    ensures At(Obj(FoldMerge(acc, fragments)), path) == At(Obj(fragments[j]), path)
    decreases |fragments|
  {
    var next := Merge(acc, fragments[0]);
    if j == 0 {
      SourcePathKept(acc, fragments[0], path);
      PathUntouched(next, fragments[1..], path);
    } else {
      LastPathWins(next, fragments[1..], j - 1, path);
    }
  }

  /** Selection keeps enumeration order: the fragments of two runs of modules
      are those of the first run followed by those of the second. */
  lemma {:induction false} FragmentsAppend(a: seq<LocaleModule>, b: seq<LocaleModule>, locale: string)
    ensures Fragments(a + b, locale) == Fragments(a, locale) + Fragments(b, locale)
    decreases |a|
  {
    if a == [] {
      assert a + b == b;
    } else {
      var head := if IsLocaleFile(a[0].path, locale) then [a[0].data] else [];
      assert (a + b)[0] == a[0];
      assert (a + b)[1..] == a[1..] + b;
      assert Fragments(a + b, locale) == head + Fragments(a[1..] + b, locale);
      FragmentsAppend(a[1..], b, locale);
      assert head + (Fragments(a[1..], locale) + Fragments(b, locale))
        == (head + Fragments(a[1..], locale)) + Fragments(b, locale);
    }
  }

  /** The modules before `i`, the module at `i`, then those after it. */
  lemma SplitAt(modules: seq<LocaleModule>, locale: string, i: nat)
    requires i < |modules|
    ensures Fragments(modules, locale) ==
      Fragments(modules[..i], locale)
      + (if IsLocaleFile(modules[i].path, locale) then [modules[i].data] else [])
      + Fragments(modules[i + 1..], locale)
  {
    FragmentsAppend(modules[..i], modules[i..], locale);
    assert modules[..i] + modules[i..] == modules;
    FragmentsFrom(modules, locale, i);
  }

  /** Every module whose path names the locale contributes its data, after
      the fragments of the modules before it. */
  lemma MatchingFileSelected(modules: seq<LocaleModule>, locale: string, i: nat)
    requires i < |modules| && IsLocaleFile(modules[i].path, locale)
    ensures var before := Fragments(modules[..i], locale);
      |before| < |Fragments(modules, locale)| && Fragments(modules, locale)[|before|] == modules[i].data
  {
    SplitAt(modules, locale, i);
  }

  /** A module whose path does not name the locale contributes nothing:
      dropping it leaves the fragments as they were. */
  lemma OtherFileIgnored(modules: seq<LocaleModule>, locale: string, i: nat)
    requires i < |modules| && !IsLocaleFile(modules[i].path, locale)
    ensures Fragments(modules[..i] + modules[i + 1..], locale) == Fragments(modules, locale)
  {
    SplitAt(modules, locale, i);
    FragmentsAppend(modules[..i], modules[i + 1..], locale);
  }

  /** A path names the locale exactly when it is some prefix, a slash, the
      locale and `.json`. */
  lemma LocaleFileShape(path: string, locale: string)
    ensures IsLocaleFile(path, locale) <==>
      exists prefix: string :: path == prefix + "/" + locale + ".json"
  {
    var suffix := "/" + locale + ".json";
    if IsLocaleFile(path, locale) {
      var prefix := path[..|path| - |suffix|];
      assert path == prefix + suffix;
      assert prefix + suffix == prefix + "/" + locale + ".json";
    }
    if exists prefix: string :: path == prefix + "/" + locale + ".json" {
      var prefix: string :| path == prefix + "/" + locale + ".json";
      assert path == prefix + suffix;
      assert path[|path| - |suffix|..] == suffix;
    }
  }

  /** The slash is part of the suffix: `men.json` is not an `en` file. */
  lemma SuffixNeedsSlash()
    ensures !IsLocaleFile("x/_/men.json", "en")
    ensures IsLocaleFile("x/_/en.json", "en")
  {
    var suffix := "/" + "en" + ".json";
    assert suffix == "/en.json";
    assert "x/_/men.json"[4..] == "men.json";
    assert "men.json"[0] != suffix[0];
  }

  /** A locale with a single file gets that file's data as its catalog. */
  lemma SingleFileCatalog(modules: seq<LocaleModule>, locale: string, i: nat)
    requires i < |modules| && IsLocaleFile(modules[i].path, locale)
    requires forall k :: 0 <= k < |modules| && k != i ==> !IsLocaleFile(modules[k].path, locale)
    ensures FoldMerge(map[], Fragments(modules, locale)) == modules[i].data
  {
    var d := modules[i].data;
    SplitAt(modules, locale, i);
    NoFileEmptyCatalog(modules[..i], locale);
    NoFileEmptyCatalog(modules[i + 1..], locale);
    assert Fragments(modules, locale) == [d];
    IntoEmpty(d);
    assert [d][1..] == [];
  }
}
