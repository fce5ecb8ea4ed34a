/** app.jsx: importing a backup file. The records of the file are merged
    with the fetched catalog (each catalog entry once, in catalog order,
    taking its learned mark from the file; then the file's own entries that
    the catalog lacks), and the file's column settings are applied or the
    settings reset. Reading the file and `JSON.parse` are outside the
    model: the handler receives their outcome as a `FileRead`, and the
    `window.confirm` answer as a parameter. */
module App {
  import opened Json
  import opened OrderedMaps
  import opened Records
  import opened Columns
  import opened Utils
  import opened Hooks

  // ---------------------------------------------------------------------
  // The imported map

  /** `m && m.ruName && m.stars`: the file elements that are imported. */
  predicate ImportKept(v: Val)
  {
    Truthy(v) && Truthy(Get(v, "ruName")) && Truthy(Get(v, "stars"))
  }

  /** `${m.ruName}-${m.stars}` for a raw file element. */
  function ImportKey(v: Val): string
  {
    ToJsString(Get(v, "ruName")) + "-" + ToJsString(Get(v, "stars"))
  }

  /** The `importedMap.set(key, m)` calls, in file order. */
  function ImportPairs(items: seq<Val>): (kvs: seq<(string, Val)>)
    ensures |kvs| <= |items|
    ensures forall i :: 0 <= i < |kvs| ==> ImportKept(kvs[i].1) && kvs[i].0 == ImportKey(kvs[i].1)
  {
    if items == [] then []
    else
      var v := items[|items| - 1];
      ImportPairs(items[..|items| - 1]) + if ImportKept(v) then [(ImportKey(v), v)] else []
  }

  /** The key texts of the kept file elements, in file order. */
  function ImportKeys(items: seq<Val>): (ks: seq<string>)
  {
    if items == [] then []
    else
      var v := items[|items| - 1];
      ImportKeys(items[..|items| - 1]) + if ImportKept(v) then [ImportKey(v)] else []
  }

  lemma {:induction false} ImportPairsKeys(items: seq<Val>)
    ensures Firsts(ImportPairs(items)) == ImportKeys(items)
  {
    if items != [] {
      var init := items[..|items| - 1];
      ImportPairsKeys(init);
      FirstsAppend(ImportPairs(init), if ImportKept(items[|items| - 1]) then [(ImportKey(items[|items| - 1]), items[|items| - 1])] else []);
    }
  }

  function ImportedMapOf(items: seq<Val>): (m: OrderedMap<string, Val>)
    ensures m.Valid()
  {
    FromPairs(ImportPairs(items))
  }

  /** The imported map lists each kept key text once, in order of first
      appearance. */
  lemma ImportedMapKeys(items: seq<Val>)
    ensures ImportedMapOf(items).keys == Dedup(ImportKeys(items))
  {
    ImportPairsKeys(items);
    FromPairsKeys(ImportPairs(items));
  }

  /** The imported map holds, under each kept key text, the LAST kept file
      element with that key. */
  lemma ImportedMapVals(items: seq<Val>)
    ensures Firsts(ImportPairs(items)) == ImportKeys(items)
    ensures forall k :: k in ImportedMapOf(items).vals <==> k in ImportKeys(items)
    ensures forall k :: k in ImportedMapOf(items).vals ==>
      ImportedMapOf(items).vals[k] == ImportPairs(items)[LastIndex(Firsts(ImportPairs(items)), k)].1
  {
    ImportPairsKeys(items);
    FromPairsVals(ImportPairs(items));
  }

  /** Every value of the imported map is a kept element filed under its own
      key text. */
  lemma ImportedMapKeyed(items: seq<Val>)
    ensures forall k :: k in ImportedMapOf(items).vals ==>
      ImportKept(ImportedMapOf(items).vals[k]) && ImportKey(ImportedMapOf(items).vals[k]) == k
  {
    FromPairsVals(ImportPairs(items));
  }

  // ---------------------------------------------------------------------
  // The merged list

  /** `typeof imported.isCustom === 'boolean' ? imported.isCustom : !initialMap.has(key)`. */
  function ImportedCustom(v: Val, inCatalog: bool): bool
  {
    if Get(v, "isCustom").Bool? then Get(v, "isCustom").b else !inCatalog
  }

  /** What `initialMap.forEach` pushes: each catalog record, learned as the
      file says when the file has it and not learned otherwise. */
  function ImportCatalogSection(initial: OrderedMap<string, Module>, imported: OrderedMap<string, Val>): (ms: seq<Module>)
    requires initial.Valid()
    ensures |ms| == |initial.keys|
  {
    seq(|initial.keys|, i requires 0 <= i < |initial.keys| =>
      var k := initial.keys[i];
      if k in imported.vals then
        initial.vals[k].(learned := Truthy(Get(imported.vals[k], "learned")),
                         isCustom := ImportedCustom(imported.vals[k], k in initial.vals))
      else initial.vals[k].(learned := false))
  }

  /** A file element that the typed entry can hold: its name is a string
      and its star count a number. */
  predicate Representable(v: Val)
  {
    Get(v, "ruName").Str? && Get(v, "stars").Num?
  }

  /** The custom entry pushed for a file element the catalog lacks. */
  function CustomEntry(v: Val): (m: Module)
    requires Representable(v)
    ensures m.ruName == Get(v, "ruName").s && m.stars == Get(v, "stars").n
    ensures m.enName == TextOr(Get(v, "enName")) && m.effect == TextOr(Get(v, "effect"))
    ensures m.learned == Truthy(Get(v, "learned")) && m.isCustom
  {
    Module(Get(v, "ruName").s, Get(v, "stars").n, TextOr(Get(v, "enName")), TextOr(Get(v, "effect")),
      Truthy(Get(v, "learned")), true)
  }

  /** The key text of a file element is the key text of its custom entry. */
  lemma CustomEntryKey(v: Val)
    requires Representable(v)
    ensures KeyText(CustomEntry(v)) == ImportKey(v)
  {
  }

  /** What `importedMap.forEach` pushes for the keys `ks` left in the map. */
  function CustomSection(ks: seq<string>, imported: map<string, Val>): (ms: seq<Module>)
    requires forall k :: k in ks ==> k in imported
    ensures |ms| <= |ks|
    ensures forall j :: 0 <= j < |ms| ==> ms[j].isCustom
  {
    if ks == [] then []
    else
      var v := imported[ks[|ks| - 1]];
      CustomSection(ks[..|ks| - 1], imported) + if Representable(v) then [CustomEntry(v)] else []
  }

  /** The catalog section of the two maps followed by the custom section
      of the imported keys the catalog lacks. */
  function Merge(initial: OrderedMap<string, Module>, imported: OrderedMap<string, Val>): (ms: seq<Module>)
    requires initial.Valid() && imported.Valid()
  {
    ImportCatalogSection(initial, imported) + CustomSection(Minus(imported.keys, initial.keys), imported.vals)
  }

  /** The merged list `handleImportFile` sets, as a function of the catalog
      and the file's `modules` array. */
  function ImportSpec(catalog: seq<Module>, items: seq<Val>): (ms: seq<Module>)
  {
    Merge(InitialMap(catalog), ImportedMapOf(items))
  }

  lemma ImportedItemSnoc(items: seq<Val>, i: int)
    requires 0 <= i < |items|
    ensures ImportPairs(items[..i + 1]) ==
      ImportPairs(items[..i]) + if ImportKept(items[i]) then [(ImportKey(items[i]), items[i])] else []
  {
    assert items[..i + 1][..i] == items[..i];
  }

  /** `importedData.modules.forEach(m => { if (m && m.ruName && m.stars) importedMap.set(key, m) })`. */
  method BuildImportedMap(items: seq<Val>) returns (importedMap: OrderedMap<string, Val>)
    ensures importedMap == ImportedMapOf(items)
  {
    importedMap := Empty();
    for i := 0 to |items|
      invariant importedMap == FromPairs(ImportPairs(items[..i]))
    {
      ImportedItemSnoc(items, i);
      var m := items[i];
      if ImportKept(m) {
        FromPairsSnoc(ImportPairs(items[..i]), (ImportKey(m), m));
        importedMap := importedMap.Set(ImportKey(m), m);
      } else {
        assert ImportPairs(items[..i + 1]) == ImportPairs(items[..i]);
      }
    }
    assert items[..|items|] == items;
  }

  /** `initialMap.forEach(...)`: push each catalog record with the learned
      mark of the file, deleting its key from the imported map, or not
      learned when the file lacks it. */
  method MergeImported(initial: OrderedMap<string, Module>, importedMap: OrderedMap<string, Val>)
    returns (importedModules: seq<Module>, rest: OrderedMap<string, Val>)
    requires initial.Valid() && importedMap.Valid()
    ensures importedModules == ImportCatalogSection(initial, importedMap)
    ensures rest.Valid() && rest.keys == Minus(importedMap.keys, initial.keys)
    ensures forall k :: k in rest.vals ==> k in importedMap.vals && rest.vals[k] == importedMap.vals[k]
  {
    rest := importedMap;
    importedModules := [];
    MinusNothing(importedMap.keys, []);
    for i := 0 to |initial.keys|
      invariant rest.Valid()
      invariant rest.keys == Minus(importedMap.keys, initial.keys[..i])
      invariant forall k :: k in rest.vals <==> k in importedMap.vals && k !in initial.keys[..i]
      invariant forall k :: k in rest.vals ==> rest.vals[k] == importedMap.vals[k]
      invariant importedModules == ImportCatalogSection(initial, importedMap)[..i]
    {
      var key := initial.keys[i];
      NotYetVisited(initial.keys, i);
      ghost var section := ImportCatalogSection(initial, importedMap);
      TakeOneMore(section, i);
      assert key in rest.vals <==> key in importedMap.vals;
      DropOneMore(importedMap.keys, initial.keys, i);
      var initialModule := initial.vals[key];
      if key in rest.vals {
        var imported := rest.vals[key];
        importedModules := importedModules + [initialModule.(
          learned := Truthy(Get(imported, "learned")),
          isCustom := if Get(imported, "isCustom").Bool? then Get(imported, "isCustom").b else key !in initial.vals)];
        rest := rest.Delete(key);
      } else {
        importedModules := importedModules + [initialModule.(learned := false)];
        MinusNothing(rest.keys, [key]);
      }
    }
    assert initial.keys[..|initial.keys|] == initial.keys;
  }

  /** `importedMap.forEach(custom => importedModules.push({ ... isCustom: true }))`. */
  method AppendCustom(importedModules: seq<Module>, rest: OrderedMap<string, Val>) returns (r: seq<Module>)
    requires rest.Valid()
    ensures r == importedModules + CustomSection(rest.keys, rest.vals)
  {
    r := importedModules;
    for j := 0 to |rest.keys|
      invariant r == importedModules + CustomSection(rest.keys[..j], rest.vals)
    {
      CustomSectionSnoc(rest.keys, rest.vals, j);
      var custom := rest.vals[rest.keys[j]];
      if Representable(custom) {
        var entry := CustomEntry(custom);
        AppendAssoc(importedModules, CustomSection(rest.keys[..j], rest.vals), [entry]);
        r := r + [entry];
      }
    }
    assert rest.keys[..|rest.keys|] == rest.keys;
  }

  lemma CustomSectionSnoc(ks: seq<string>, imported: map<string, Val>, j: int)
    requires 0 <= j < |ks| && forall k :: k in ks ==> k in imported
    ensures CustomSection(ks[..j + 1], imported) ==
      CustomSection(ks[..j], imported) + if Representable(imported[ks[j]]) then [CustomEntry(imported[ks[j]])] else []
  {
    assert ks[..j + 1][..j] == ks[..j];
  }

  /** The custom section reads only the values under its keys. */
  lemma {:induction false} CustomSectionAgrees(ks: seq<string>, m1: map<string, Val>, m2: map<string, Val>)
    requires forall k :: k in ks ==> k in m1 && k in m2 && m1[k] == m2[k]
    ensures CustomSection(ks, m1) == CustomSection(ks, m2)
  {
    if ks != [] {
      CustomSectionAgrees(ks[..|ks| - 1], m1, m2);
    }
  }

  /** The merge of `handleImportFile`. */
  method ImportModules(catalog: seq<Module>, items: seq<Val>) returns (importedModules: seq<Module>)
    ensures importedModules == ImportSpec(catalog, items)
  {
    var initial := InitialMap(catalog);
    var importedMap := BuildImportedMap(items);
    var rest;
    importedModules, rest := MergeImported(initial, importedMap);
    CustomSectionAgrees(rest.keys, rest.vals, importedMap.vals);
    importedModules := AppendCustom(importedModules, rest);
  }

  // ---------------------------------------------------------------------
  // What the merged list holds

  /** The custom section lists entries under distinct keys drawn from `ks`,
      each the custom entry of the element filed under its key. */
  lemma {:induction false} CustomSectionKeys(ks: seq<string>, imported: map<string, Val>)
    requires forall k :: k in ks ==> k in imported
    requires forall k :: k in ks ==> ImportKey(imported[k]) == k
    requires Distinct(ks)
    ensures UniqueKeys(CustomSection(ks, imported))
    ensures forall j :: 0 <= j < |CustomSection(ks, imported)| ==>
      KeyText(CustomSection(ks, imported)[j]) in ks && IsCustomEntryIn(CustomSection(ks, imported)[j], imported)
  {
    if ks != [] {
      var init, k := ks[..|ks| - 1], ks[|ks| - 1];
      NotYetVisited(ks, |ks| - 1);
      assert Distinct(init) by {
        forall i, j | 0 <= i < j < |init| ensures init[i] != init[j] {
          assert init[i] == ks[i] && init[j] == ks[j];
        }
      }
      CustomSectionKeys(init, imported);
      var r0 := CustomSection(init, imported);
      if Representable(imported[k]) {
        CustomEntryKey(imported[k]);
        var x := CustomEntry(imported[k]);
        var r := r0 + [x];
        assert CustomSection(ks, imported) == r;
        forall j | 0 <= j < |r0| ensures KeyText(r0[j]) != KeyText(x) {
          assert KeyText(r0[j]) in init;
        }
        UniqueSnoc(r0, x);
        forall j | 0 <= j < |r| ensures KeyText(r[j]) in ks && IsCustomEntryIn(r[j], imported) {
          if j < |r0| {
            assert r[j] == r0[j] && KeyText(r0[j]) in init;
          }
        }
      } else {
        assert CustomSection(ks, imported) == r0;
      }
    }
  }

  /** The merged list in terms of its two maps. */
  lemma ImportSections(catalog: seq<Module>, items: seq<Val>)
    ensures ImportSpec(catalog, items) ==
      ImportCatalogSection(InitialMap(catalog), ImportedMapOf(items)) +
      CustomSection(Minus(ImportedMapOf(items).keys, InitialMap(catalog).keys), ImportedMapOf(items).vals)
  {
  }

  /** The catalog section lists its records in the order of the catalog
      keys. */
  lemma ImportCatalogKeys(initial: OrderedMap<string, Module>, imported: OrderedMap<string, Val>)
    requires initial.Valid() && KeyedMap(initial)
    ensures Keys(ImportCatalogSection(initial, imported)) == initial.keys
  {
    var a := ImportCatalogSection(initial, imported);
    forall i | 0 <= i < |a| ensures KeyText(a[i]) == initial.keys[i] {
      assert KeyText(a[i]) == KeyText(initial.vals[initial.keys[i]]);
    }
  }

  /** The merge of two maps lists the catalog keys in order, then custom
      entries under imported keys the catalog lacks; no key occurs twice. */
  lemma MergedKeys(initial: OrderedMap<string, Module>, imported: OrderedMap<string, Val>)
    requires initial.Valid() && imported.Valid() && KeyedMap(initial)
    requires forall k :: k in imported.vals ==> ImportKey(imported.vals[k]) == k
    ensures UniqueKeys(Merge(initial, imported))
    ensures |initial.keys| <= |Merge(initial, imported)| && Keys(Merge(initial, imported))[..|initial.keys|] == initial.keys
    ensures forall j :: |initial.keys| <= j < |Merge(initial, imported)| ==>
      && Merge(initial, imported)[j].isCustom
      && KeyText(Merge(initial, imported)[j]) in imported.keys
      && KeyText(Merge(initial, imported)[j]) !in initial.keys
  {
    var rest := Minus(imported.keys, initial.keys);
    var a := ImportCatalogSection(initial, imported);
    var b := CustomSection(rest, imported.vals);
    var ms := Merge(initial, imported);
    assert ms == a + b;
    assert Keys(a) == initial.keys by {
      ImportCatalogKeys(initial, imported);
    }
    assert UniqueKeys(b) && forall j :: 0 <= j < |b| ==> KeyText(b[j]) in rest by {
      MinusDistinct(imported.keys, initial.keys);
      CustomSectionKeys(rest, imported.vals);
    }
    assert Keys(ms)[..|initial.keys|] == initial.keys by {
      KeysAppend(a, b);
    }
    UniqueAfter(a, b);
    forall j | |a| <= j < |ms|
      ensures ms[j].isCustom && KeyText(ms[j]) in imported.keys && KeyText(ms[j]) !in initial.keys
    {
      AppendRight(a, b, j);
      assert KeyText(b[j - |a|]) in rest;
    }
  }

  /** An entry whose key a list with unique keys lacks can be appended. */
  lemma UniqueSnoc(r: seq<Module>, x: Module)
    requires UniqueKeys(r)
    requires forall j :: 0 <= j < |r| ==> KeyText(r[j]) != KeyText(x)
    ensures UniqueKeys(r + [x])
  {
    var rx := r + [x];
    forall i, j | 0 <= i < j < |rx| ensures KeyText(rx[i]) != KeyText(rx[j]) {
      assert rx[i] == r[i];
      if j < |r| {
        assert rx[j] == r[j];
      }
    }
  }

  /** A list with unique keys followed by one with unique keys it lacks
      has unique keys. */
  lemma UniqueAfter(a: seq<Module>, b: seq<Module>)
    requires Distinct(Keys(a)) && UniqueKeys(b)
    requires forall j :: 0 <= j < |b| ==> KeyText(b[j]) !in Keys(a)
    ensures UniqueKeys(a + b)
  {
    var ab := a + b;
    forall i, j | 0 <= i < j < |ab| ensures KeyText(ab[i]) != KeyText(ab[j]) {
      if j < |a| {
        assert Keys(a)[i] != Keys(a)[j];
      } else if i < |a| {
        assert ab[j] == b[j - |a|] && KeyText(ab[i]) == Keys(a)[i];
      } else {
        assert ab[i] == b[i - |a|] && ab[j] == b[j - |a|];
      }
    }
  }


  /** The merged list lists each catalog key once, in catalog order, then
      custom entries under keys of the file that the catalog lacks; no key
      occurs twice. */
  lemma ImportListKeys(catalog: seq<Module>, items: seq<Val>)
    ensures var ms := ImportSpec(catalog, items);
      var d := Dedup(Keys(catalog));
      && UniqueKeys(ms)
      && |d| <= |ms| && Keys(ms)[..|d|] == d
      && forall j :: |d| <= j < |ms| ==>
        ms[j].isCustom && KeyText(ms[j]) !in Keys(catalog) && KeyText(ms[j]) in ImportKeys(items)
  {
    var initial, imported := InitialMap(catalog), ImportedMapOf(items);
    CatalogMapKeys(catalog);
    CatalogMapKeyed(catalog);
    ImportedMapKeys(items);
    ImportedMapKeyed(items);
    ImportSections(catalog, items);
    MergedKeys(initial, imported);
  }

  /** The entry of the `i`-th catalog key is the last catalog record with
      that key; when the file has the key it is learned as the last kept
      file element with the key says and custom only when that element
      says `isCustom: true`; when the file lacks the key it is neither
      learned nor custom. */
  lemma ImportCatalogEntry(catalog: seq<Module>, items: seq<Val>, i: nat)
    requires i < |Dedup(Keys(catalog))|
    ensures var ms := ImportSpec(catalog, items);
      var kvs := ImportPairs(items);
      var k := Dedup(Keys(catalog))[i];
      var rec := catalog[LastIndex(Keys(catalog), k)];
      && i < |ms|
      && ms[i] ==
           if k in Firsts(kvs) then
             var v := kvs[LastIndex(Firsts(kvs), k)].1;
             rec.(learned := Truthy(Get(v, "learned")), isCustom := Get(v, "isCustom") == Bool(true))
           else rec.(learned := false, isCustom := false)
  {
    var initial, imported := InitialMap(catalog), ImportedMapOf(items);
    var kvs := ImportPairs(items);
    var a := ImportCatalogSection(initial, imported);
    var ms := ImportSpec(catalog, items);
    assert ms == a + CustomSection(Minus(imported.keys, initial.keys), imported.vals);
    assert initial.keys == Dedup(Keys(catalog)) by {
      CatalogMapKeys(catalog);
    }
    var k := initial.keys[i];
    assert ms[i] == a[i];
    assert k in initial.vals && initial.vals[k] == catalog[LastIndex(Keys(catalog), k)].(isCustom := false) by {
      CatalogMapVals(catalog);
    }
    assert (k in imported.vals <==> k in Firsts(kvs)) &&
      (k in imported.vals ==> imported.vals[k] == kvs[LastIndex(Firsts(kvs), k)].1)
    by {
      ImportedMapVals(items);
    }
    if k in imported.vals {
      var v := imported.vals[k];
      assert a[i] == initial.vals[k].(learned := Truthy(Get(v, "learned")), isCustom := ImportedCustom(v, true));
    } else {
      assert a[i] == initial.vals[k].(learned := false);
    }
  }

  /** Each custom entry of the merged list is built from the element the
      imported map holds under its key (the last kept file element with
      that key, by `ImportedMapVals`). */
  lemma ImportCustomEntries(catalog: seq<Module>, items: seq<Val>)
    ensures var ms := ImportSpec(catalog, items);
      var imported := ImportedMapOf(items);
      forall j :: |Dedup(Keys(catalog))| <= j < |ms| ==>
        && KeyText(ms[j]) in imported.vals
        && Representable(imported.vals[KeyText(ms[j])])
        && ms[j] == CustomEntry(imported.vals[KeyText(ms[j])])
  {
    var initial, imported := InitialMap(catalog), ImportedMapOf(items);
    var a := ImportCatalogSection(initial, imported);
    var b := CustomSection(Minus(imported.keys, initial.keys), imported.vals);
    var ms := ImportSpec(catalog, items);
    assert ms == a + b;
    assert |a| == |Dedup(Keys(catalog))| by {
      CatalogMapKeys(catalog);
    }
    CustomSectionOfRest(items, initial.keys);
    CustomSuffix(a, b, imported.vals);
  }

  /** `m` is the custom entry of the element filed under its key. */
  predicate IsCustomEntryIn(m: Module, imported: map<string, Val>)
  {
    KeyText(m) in imported && Representable(imported[KeyText(m)]) && m == CustomEntry(imported[KeyText(m)])
  }

  lemma CustomSuffix(a: seq<Module>, b: seq<Module>, imported: map<string, Val>)
    requires forall j :: 0 <= j < |b| ==> IsCustomEntryIn(b[j], imported)
    ensures forall j :: |a| <= j < |a + b| ==> IsCustomEntryIn((a + b)[j], imported)
  {
    forall j | |a| <= j < |a + b| ensures IsCustomEntryIn((a + b)[j], imported) {
      assert (a + b)[j] == b[j - |a|];
    }
  }

  /** The custom section of the keys left in a keyed imported map holds
      the custom entry of each key's element. */
  lemma CustomSectionOfRest(items: seq<Val>, drop: seq<string>)
    ensures forall j :: 0 <= j < |CustomSection(Minus(ImportedMapOf(items).keys, drop), ImportedMapOf(items).vals)| ==>
      IsCustomEntryIn(CustomSection(Minus(ImportedMapOf(items).keys, drop), ImportedMapOf(items).vals)[j], ImportedMapOf(items).vals)
  {
    var imported := ImportedMapOf(items);
    var rest := Minus(imported.keys, drop);
    ImportedMapKeyed(items);
    MinusDistinct(imported.keys, drop);
    CustomSectionKeys(rest, imported.vals);
  }

  // ---------------------------------------------------------------------
  // Importing an exported list

  /** The pairs the export of a list puts in the imported map. */
  function ExportedPairs(ms: seq<Module>): (kvs: seq<(string, Val)>)
    ensures |kvs| == |ms| && forall i :: 0 <= i < |ms| ==> kvs[i] == (KeyText(ms[i]), ToJson(ms[i]))
  {
    seq(|ms|, i requires 0 <= i < |ms| => (KeyText(ms[i]), ToJson(ms[i])))
  }

  lemma ExportedPairsSnoc(ms: seq<Module>)
    requires ms != []
    ensures ExportedPairs(ms) ==
      ExportedPairs(ms[..|ms| - 1]) + [(KeyText(ms[|ms| - 1]), ToJson(ms[|ms| - 1]))]
  {
    var r := ExportedPairs(ms[..|ms| - 1]) + [(KeyText(ms[|ms| - 1]), ToJson(ms[|ms| - 1]))];
    forall i | 0 <= i < |ms| ensures ExportedPairs(ms)[i] == r[i] {
      if i < |ms| - 1 {
        assert ms[..|ms| - 1][i] == ms[i];
      }
    }
  }

  /** An exported entry with a name and a non-zero star count is imported,
      under its own key text. */
  lemma ExportedEntryKept(m: Module)
    requires m.ruName != "" && m.stars != 0
    ensures ImportKept(ToJson(m)) && ImportKey(ToJson(m)) == KeyText(m)
  {
  }

  /** One more element adds one more pair when it is kept. */
  lemma ImportPairsSnocAll(items: seq<Val>, v: Val)
    ensures ImportPairs(items + [v]) ==
      ImportPairs(items) + if ImportKept(v) then [(ImportKey(v), v)] else []
  {
    assert (items + [v])[..|items|] == items;
  }

  lemma {:induction false} ImportPairsOfEntries(ms: seq<Module>)
    requires forall i :: 0 <= i < |ms| ==> ms[i].ruName != "" && ms[i].stars != 0
    ensures ImportPairs(AsJson(ms)) == ExportedPairs(ms)
  {
    if ms != [] {
      var init, last := ms[..|ms| - 1], ms[|ms| - 1];
      ImportPairsOfEntries(init);
      AsJsonSnoc(ms);
      ExportedEntryKept(last);
      ImportPairsSnocAll(AsJson(init), ToJson(last));
      ExportedPairsSnoc(ms);
    }
  }

  /** A custom entry is rebuilt from its export. */
  lemma CustomEntryOfExport(m: Module)
    requires m.isCustom
    ensures Representable(ToJson(m)) && CustomEntry(ToJson(m)) == m
  {
  }

  lemma {:induction false} CustomSectionRebuild(ks: seq<string>, imported: map<string, Val>, ns: seq<Module>)
    requires |ks| == |ns|
    requires forall k :: k in ks ==> k in imported
    requires forall j :: 0 <= j < |ks| ==> imported[ks[j]] == ToJson(ns[j]) && ns[j].isCustom
    ensures CustomSection(ks, imported) == ns
  {
    if ks != [] {
      var n := |ks| - 1;
      CustomSectionRebuild(ks[..n], imported, ns[..n]);
      CustomEntryOfExport(ns[n]);
      SplitLast(ns);
    }
  }

  /** The imported map of an exported list with unique keys lists its keys
      in order. */
  lemma ExportedMapKeys(ms: seq<Module>)
    requires UniqueKeys(ms)
    requires forall i :: 0 <= i < |ms| ==> ms[i].ruName != "" && ms[i].stars != 0
    ensures ImportedMapOf(AsJson(ms)).keys == Keys(ms)
  {
    var kvs := ImportPairs(AsJson(ms));
    ImportPairsOfEntries(ms);
    assert Firsts(kvs) == Keys(ms);
    UniqueKeysDistinct(ms);
    FromPairsKeys(kvs);
    DedupDistinct(Keys(ms));
  }

  /** The imported map of an exported list with unique keys holds each
      entry's export under its key. */
  lemma ExportedMapVal(ms: seq<Module>, i: int)
    requires UniqueKeys(ms) && 0 <= i < |ms|
    requires forall i :: 0 <= i < |ms| ==> ms[i].ruName != "" && ms[i].stars != 0
    ensures KeyText(ms[i]) in ImportedMapOf(AsJson(ms)).vals
    ensures ImportedMapOf(AsJson(ms)).vals[KeyText(ms[i])] == ToJson(ms[i])
  {
    var kvs := ImportPairs(AsJson(ms));
    ImportPairsOfEntries(ms);
    var ks := Firsts(kvs);
    assert ks == Keys(ms);
    assert ks[i] == KeyText(ms[i]);
    UniqueKeysDistinct(ms);
    FromPairsVals(kvs);
    LastIndexDistinct(ks, i);
    assert kvs[LastIndex(ks, ks[i])] == kvs[i];
  }

  /** The catalog section rebuilds the first `n` entries of a list from a
      map holding each entry's export under its key `ks[i]`, when the
      catalog keys are those keys and the catalog records agree with the
      entries except for their two marks. */
  lemma CatalogSectionRebuild(
    initial: OrderedMap<string, Module>, imported: OrderedMap<string, Val>, ms: seq<Module>, ks: seq<string>, n: int)
    requires initial.Valid()
    requires |ks| == |ms| && 0 <= n <= |ms| && initial.keys == ks[..n]
    requires forall i :: 0 <= i < n ==> ks[i] in imported.vals && imported.vals[ks[i]] == ToJson(ms[i])
    requires forall i :: 0 <= i < n ==>
      ms[i] == initial.vals[ks[i]].(learned := ms[i].learned, isCustom := ms[i].isCustom)
    ensures ImportCatalogSection(initial, imported) == ms[..n]
  {
    var a := ImportCatalogSection(initial, imported);
    forall i | 0 <= i < n ensures a[i] == ms[i] {
      CatalogEntryRebuild(initial, imported, ms[i], ks[i], i);
    }
  }

  /** The entry of one catalog key is rebuilt from its export. */
  lemma CatalogEntryRebuild(initial: OrderedMap<string, Module>, imported: OrderedMap<string, Val>, m: Module, k: string, i: int)
    requires initial.Valid() && 0 <= i < |initial.keys| && initial.keys[i] == k
    requires k in imported.vals && imported.vals[k] == ToJson(m)
    requires m == initial.vals[k].(learned := m.learned, isCustom := m.isCustom)
    ensures ImportCatalogSection(initial, imported)[i] == m
  {
    var v := imported.vals[k];
    assert ImportCatalogSection(initial, imported)[i] ==
      initial.vals[k].(learned := Truthy(Get(v, "learned")), isCustom := ImportedCustom(v, true));
  }

  /** The custom section rebuilds the entries after the first `n` from an
      imported map holding each entry's export under its key `ks[i]`. */
  lemma CustomTailRebuild(imported: OrderedMap<string, Val>, ms: seq<Module>, ks: seq<string>, n: int)
    requires |ks| == |ms| && 0 <= n <= |ms|
    requires forall i :: 0 <= i < |ms| ==> ks[i] in imported.vals && imported.vals[ks[i]] == ToJson(ms[i])
    requires forall j :: n <= j < |ms| ==> ms[j].isCustom
    ensures forall k :: k in ks[n..] ==> k in imported.vals
    ensures CustomSection(ks[n..], imported.vals) == ms[n..]
  {
    var tail, rest := ms[n..], ks[n..];
    forall k | k in rest ensures k in imported.vals {
      var j :| 0 <= j < |rest| && rest[j] == k;
      assert k == ks[n + j];
    }
    forall j | 0 <= j < |tail| ensures imported.vals[rest[j]] == ToJson(tail[j]) && tail[j].isCustom {
      assert rest[j] == ks[n + j] && tail[j] == ms[n + j];
    }
    CustomSectionRebuild(rest, imported.vals, tail);
  }

  /** The merge rebuilds a list from an imported map holding each entry's
      export under its key `ks[i]`, when the catalog keys are the keys of
      its first `n` entries and the rest are custom. */
  lemma MergedRebuild(
    initial: OrderedMap<string, Module>, imported: OrderedMap<string, Val>, ms: seq<Module>, ks: seq<string>, n: int)
    requires initial.Valid() && imported.Valid()
    requires |ks| == |ms| && 0 <= n <= |ms| && initial.keys == ks[..n]
    requires Minus(imported.keys, initial.keys) == ks[n..]
    requires forall i :: 0 <= i < |ms| ==> ks[i] in imported.vals && imported.vals[ks[i]] == ToJson(ms[i])
    requires forall i :: 0 <= i < n ==>
      ms[i] == initial.vals[ks[i]].(learned := ms[i].learned, isCustom := ms[i].isCustom)
    requires forall j :: n <= j < |ms| ==> ms[j].isCustom
    ensures Merge(initial, imported) == ms
  {
    var a := ImportCatalogSection(initial, imported);
    var b := CustomSection(Minus(imported.keys, initial.keys), imported.vals);
    assert a == ms[..n] by {
      CatalogSectionRebuild(initial, imported, ms, ks, n);
    }
    assert b == ms[n..] by {
      CustomTailRebuild(imported, ms, ks, n);
    }
    SplitAt(ms, n);
  }

  lemma SplitAt<T>(s: seq<T>, n: int)
    requires 0 <= n <= |s|
    ensures s[..n] + s[n..] == s
  {
  }

  /** Every entry of an exported list with unique keys is in its imported
      map. */
  lemma ExportedMapAll(ms: seq<Module>)
    requires UniqueKeys(ms)
    requires forall i :: 0 <= i < |ms| ==> ms[i].ruName != "" && ms[i].stars != 0
    ensures forall i :: 0 <= i < |ms| ==>
      Keys(ms)[i] in ImportedMapOf(AsJson(ms)).vals && ImportedMapOf(AsJson(ms)).vals[Keys(ms)[i]] == ToJson(ms[i])
  {
    forall i | 0 <= i < |ms|
      ensures Keys(ms)[i] in ImportedMapOf(AsJson(ms)).vals && ImportedMapOf(AsJson(ms)).vals[Keys(ms)[i]] == ToJson(ms[i])
    {
      ExportedMapVal(ms, i);
    }
  }

  /** Entries that agree with the last catalog record of their key agree
      with the catalog map's record. */
  lemma CatalogEntriesAgree(catalog: seq<Module>, ms: seq<Module>)
    requires |Dedup(Keys(catalog))| <= |ms| && Keys(ms)[..|Dedup(Keys(catalog))|] == Dedup(Keys(catalog))
    requires forall i :: 0 <= i < |Dedup(Keys(catalog))| ==>
      ms[i] == catalog[LastIndex(Keys(catalog), KeyText(ms[i]))].(learned := ms[i].learned, isCustom := ms[i].isCustom)
    ensures forall i :: 0 <= i < |Dedup(Keys(catalog))| ==>
      Keys(ms)[i] in InitialMap(catalog).vals &&
      ms[i] == InitialMap(catalog).vals[Keys(ms)[i]].(learned := ms[i].learned, isCustom := ms[i].isCustom)
  {
    var d := Dedup(Keys(catalog));
    CatalogMapVals(catalog);
    forall i | 0 <= i < |d|
      ensures Keys(ms)[i] in InitialMap(catalog).vals &&
        ms[i] == InitialMap(catalog).vals[Keys(ms)[i]].(learned := ms[i].learned, isCustom := ms[i].isCustom)
    {
      CatalogEntryAgrees(catalog, ms[i], d[i]);
    }
  }

  lemma CatalogEntryAgrees(catalog: seq<Module>, m: Module, k: string)
    requires k in Dedup(Keys(catalog)) && KeyText(m) == k
    requires m == catalog[LastIndex(Keys(catalog), k)].(learned := m.learned, isCustom := m.isCustom)
    ensures k in InitialMap(catalog).vals
    ensures m == InitialMap(catalog).vals[k].(learned := m.learned, isCustom := m.isCustom)
  {
    CatalogMapVals(catalog);
  }

  /** A list that starts with each catalog key once in catalog order, whose
      catalog entries agree with the catalog except for their two marks,
      and that continues with custom entries the catalog lacks, all named
      and with non-zero star counts, is exported and imported back
      unchanged. */
  lemma ImportRoundTrip(catalog: seq<Module>, ms: seq<Module>)
    requires UniqueKeys(ms)
    requires forall i :: 0 <= i < |ms| ==> ms[i].ruName != "" && ms[i].stars != 0
    requires |Dedup(Keys(catalog))| <= |ms| && Keys(ms)[..|Dedup(Keys(catalog))|] == Dedup(Keys(catalog))
    requires forall i :: 0 <= i < |Dedup(Keys(catalog))| ==>
      ms[i] == catalog[LastIndex(Keys(catalog), KeyText(ms[i]))].(learned := ms[i].learned, isCustom := ms[i].isCustom)
    requires forall j :: |Dedup(Keys(catalog))| <= j < |ms| ==> KeyText(ms[j]) !in Keys(catalog) && ms[j].isCustom
    ensures ImportSpec(catalog, AsJson(ms)) == ms
  {
    var items := AsJson(ms);
    var initial, imported := InitialMap(catalog), ImportedMapOf(items);
    var d := Dedup(Keys(catalog));
    var ks := Keys(ms);
    CatalogMapKeys(catalog);
    ExportedRest(catalog, ms);
    ExportedMapAll(ms);
    CatalogEntriesAgree(catalog, ms);
    MergedRebuild(initial, imported, ms, ks, |d|);
  }

  /** The keys of an exported list that the catalog lacks are its keys
      after the catalog's. */
  lemma ExportedRest(catalog: seq<Module>, ms: seq<Module>)
    requires UniqueKeys(ms)
    requires forall i :: 0 <= i < |ms| ==> ms[i].ruName != "" && ms[i].stars != 0
    requires |Dedup(Keys(catalog))| <= |ms| && Keys(ms)[..|Dedup(Keys(catalog))|] == Dedup(Keys(catalog))
    requires forall j :: |Dedup(Keys(catalog))| <= j < |ms| ==> KeyText(ms[j]) !in Keys(catalog)
    ensures Minus(ImportedMapOf(AsJson(ms)).keys, InitialMap(catalog).keys) == Keys(ms)[|Dedup(Keys(catalog))|..]
  {
    CatalogMapKeys(catalog);
    ExportedMapKeys(ms);
    RestIsTail(Keys(ms), Dedup(Keys(catalog)), |Dedup(Keys(catalog))|);
  }

  /** Exporting the list an import produced and importing it again gives
      the same list, when every catalog record has a name and a non-zero
      star count. */
  lemma ImportTwice(catalog: seq<Module>, items: seq<Val>)
    requires forall i :: 0 <= i < |catalog| ==> catalog[i].ruName != "" && catalog[i].stars != 0
    ensures ImportSpec(catalog, AsJson(ImportSpec(catalog, items))) == ImportSpec(catalog, items)
  {
    var ms := ImportSpec(catalog, items);
    var d := Dedup(Keys(catalog));
    ImportListKeys(catalog, items);
    ImportCustomEntries(catalog, items);
    forall i | 0 <= i < |d|
      ensures ms[i] == catalog[LastIndex(Keys(catalog), KeyText(ms[i]))].(learned := ms[i].learned, isCustom := ms[i].isCustom)
      ensures ms[i].ruName != "" && ms[i].stars != 0
    {
      ImportCatalogEntry(catalog, items, i);
      assert KeyText(ms[i]) == Keys(ms)[i] == d[i];
    }
    ImportedMapKeyed(items);
    forall j | |d| <= j < |ms| ensures ms[j].ruName != "" && ms[j].stars != 0 {
      var v := ImportedMapOf(items).vals[KeyText(ms[j])];
      assert ImportKept(v) && ms[j] == CustomEntry(v);
    }
    ImportRoundTrip(catalog, ms);
  }

  // ---------------------------------------------------------------------
  // handleImportFile

  /** What choosing a file, reading it and `JSON.parse` produced. */
  datatype FileRead = NoFile | ReadFailed | NotJson | JsonText(value: Val)

  /** The reason shown in the import error notification. */
  datatype ImportError = ReadError | ParseError | InvalidFormat | MissingModules

  datatype ImportNotice = ImportFailed(error: ImportError) | CatalogNotLoaded | ImportSucceeded

  /** The notification the import ends with, if any: the checks of the
      parsed value in source order, then the catalog check, then the
      confirmation. */
  function ImportOutcome(file: FileRead, catalogLoaded: bool, confirmed: bool): (r: Option<ImportNotice>)
    ensures r == Some(ImportSucceeded) <==>
      && file.JsonText? && Truthy(file.value) && IsObject(file.value)
      && Get(file.value, "modules").Arr? && catalogLoaded && confirmed
    ensures r == None <==> file == NoFile || (file.JsonText? && ImportReady(file.value) && catalogLoaded && !confirmed)
  {
    match file
    case NoFile => None
    case ReadFailed => Some(ImportFailed(ReadError))
    case NotJson => Some(ImportFailed(ParseError))
    case JsonText(v) =>
      if !(Truthy(v) && IsObject(v)) then Some(ImportFailed(InvalidFormat))
      else if !Get(v, "modules").Arr? then Some(ImportFailed(MissingModules))
      else if !catalogLoaded then Some(CatalogNotLoaded)
      else if confirmed then Some(ImportSucceeded)
      else None
  }

  /** The parsed value passes both format checks. */
  predicate ImportReady(v: Val)
  {
    Truthy(v) && IsObject(v) && Get(v, "modules").Arr?
  }

  /** `importedData.columnSettings && typeof importedData.columnSettings === 'object'`. */
  predicate HasSettings(v: Val)
  {
    Truthy(Get(v, "columnSettings")) && IsObject(Get(v, "columnSettings"))
  }

  /** The application state the import handler changes: the fetched
      catalog (`None` until it is fetched), the module list and the table
      state. */
  class AppState {
    var initialModulesData: Option<seq<Module>>
    var modules: seq<Module>
    const table: TableState

    constructor(table: TableState)
      ensures this.table == table && initialModulesData == None && modules == []
    {
      this.table := table;
      initialModulesData := None;
      modules := [];
    }

    /** `loadInitialData`: the fetched catalog, or the empty one when the
        fetch failed, becomes the catalog, and the list is what
        `loadModules` makes of it and of the saved data. */
    method LoadInitialData(fetched: Option<seq<Module>>, learnedOnInit: set<string>, saved: Stored)
      returns (loaded: Loaded)
      modifies this
      ensures fetched.Some? ==> initialModulesData == fetched
      ensures fetched.None? ==> initialModulesData == Some([])
      ensures loaded == LoadSpec(initialModulesData.value, learnedOnInit, saved)
      ensures loaded.Merged? ==> modules == loaded.modules
      ensures loaded.Unvalidated? ==> modules == old(modules)
    {
      var catalog := if fetched.Some? then fetched.value else [];
      initialModulesData := Some(catalog);
      loaded := LoadModules(catalog, learnedOnInit, saved);
      if loaded.Merged? {
        modules := loaded.modules;
      }
    }

    /** `handleImportFile`: reject a file that is not an object with a
        `modules` array, or any file while the catalog is not loaded; when
        the user confirms, replace the list with the merge and apply the
        file's column settings, or reset them when it has none. */
    method HandleImportFile(file: FileRead, confirmed: bool) returns (notice: Option<ImportNotice>)
      modifies this, table
      ensures notice == ImportOutcome(file, old(initialModulesData).Some?, confirmed)
      ensures initialModulesData == old(initialModulesData)
      ensures table.sortConfig == old(table.sortConfig)
      ensures notice != Some(ImportSucceeded) ==> modules == old(modules) && table.settings == old(table.settings)
      ensures notice == Some(ImportSucceeded) ==>
        && modules == ImportSpec(old(initialModulesData).value, Get(file.value, "modules").items)
        && (!HasSettings(file.value) ==> table.settings == DefaultSettings)
        && (HasSettings(file.value) ==>
              var imported := Get(file.value, "columnSettings");
              && ConfigFits(ColumnConfig, DefaultVisibility) && ConfigFits(ColumnConfig, DefaultWidths)
              && VisibilityFrom(table.settings.visibility, ColumnConfig, DefaultVisibility, imported)
              && WidthsFrom(table.settings.widths, ColumnConfig, DefaultWidths, imported, 50, Some(600))
              && WidthsWithinBounds(table.settings.widths))
    {
      if file == NoFile {
        return None;
      }
      if file == ReadFailed {
        return Some(ImportFailed(ReadError));
      }
      if file == NotJson {
        return Some(ImportFailed(ParseError));
      }
      var importedData := file.value;
      if !(Truthy(importedData) && IsObject(importedData)) {
        return Some(ImportFailed(InvalidFormat));
      }
      if !Get(importedData, "modules").Arr? {
        return Some(ImportFailed(MissingModules));
      }
      if initialModulesData == None {
        return Some(CatalogNotLoaded);
      }
      var hasSettings := HasSettings(importedData);
      if !confirmed {
        return None;
      }
      var importedModules := ImportModules(initialModulesData.value, Get(importedData, "modules").items);
      modules := importedModules;
      if hasSettings {
        table.ApplyImportedSettings(Get(importedData, "columnSettings"));
      } else {
        // Only one notification is shown at a time, so the import's own
        // success notice (app.jsx:193) replaces the reset notice.
        var resetNotice := table.HandleResetSettings();
      }
      return Some(ImportSucceeded);
    }
  }
}
