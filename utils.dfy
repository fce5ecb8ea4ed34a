/** utils.js: display helpers, and the reconciliation of the fetched module
    catalog and of the column settings with what was saved in local
    storage. Reading local storage and `JSON.parse` are outside the model:
    each operation receives the outcome as a `Stored` value. */
module Utils {
  import Text
  import opened Json
  import opened OrderedMaps
  import opened Records
  import opened Columns

  /** What reading a local-storage item and parsing it as JSON produced. */
  datatype Stored = Missing | Unparseable | Parsed(value: Val)

  /** The result of `loadModules`: with an empty catalog the saved array
      comes back as it was parsed, without any validation; otherwise the
      reconciled entries. */
  datatype Loaded = Unvalidated(items: seq<Val>) | Merged(modules: seq<Module>)

  // ---------------------------------------------------------------------
  // Display helpers

  const StarGlyph: char := '⭐'

  /** `getStars(count)`: the star glyph `count` times; `repeat` throws a
      RangeError for a negative count. */
  function GetStars(count: int): (r: Option<string>)
    ensures count < 0 <==> r.None?
    ensures r.Some? ==> |r.value| == count && forall i :: 0 <= i < count ==> r.value[i] == StarGlyph
  {
    if count < 0 then None else Some(Text.Repeat(StarGlyph, count))
  }

  const WeaponTag := "[Оружие]"
  const ArmorTag := "[Броня]"

  /** `formatEffectText(text)`: '' for a value that is not a string; when
      the text names both the weapon and the armor effect, a line break is
      put before the first armor tag; any other text is returned as is. */
  function FormatEffectText(v: Val): (r: string)
    ensures !v.Str? ==> r == ""
    ensures v.Str? && !(Text.Contains(v.s, WeaponTag) && Text.Contains(v.s, ArmorTag)) ==> r == v.s
    ensures v.Str? && Text.Contains(v.s, WeaponTag) && Text.Contains(v.s, ArmorTag) ==>
      var i := Text.IndexOf(v.s, ArmorTag);
      && 0 <= i
      && (forall j :: 0 <= j < i ==> !Text.OccursAt(v.s, ArmorTag, j))
      && |r| == |v.s| + 1
      && r[..i] == v.s[..i] && r[i] == '\n' && r[i + 1..] == v.s[i..]
  {
    if !v.Str? then ""
    else if Text.Contains(v.s, WeaponTag) && Text.Contains(v.s, ArmorTag) then
      Text.ReplaceFirstInserts(v.s, ArmorTag, '\n');
      Text.ReplaceFirst(v.s, ArmorTag, ['\n'] + ArmorTag)
    else v.s
  }

  // ---------------------------------------------------------------------
  // Module list: loading

  /** `{ ...m, isCustom: false }` keyed by its key text: one entry of the
      catalog map. */
  function CatalogPairs(catalog: seq<Module>): (kvs: seq<(string, Module)>)
    ensures |kvs| == |catalog|
    ensures forall i :: 0 <= i < |catalog| ==> kvs[i] == (KeyText(catalog[i]), catalog[i].(isCustom := false))
  {
    seq(|catalog|, i requires 0 <= i < |catalog| => (KeyText(catalog[i]), catalog[i].(isCustom := false)))
  }

  /** A saved element is kept when it is truthy, its `ruName` is a string
      and its `stars` a number. */
  predicate ValidSaved(v: Val)
  {
    Truthy(v) && Get(v, "ruName").Str? && Get(v, "stars").Num?
  }

  /** The record rebuilt from a kept saved element: text fields default to
      '', `learned` to false unless saved as a boolean, and `isCustom` to
      "not in the catalog" unless saved as a boolean. */
  function DecodeSaved(v: Val, known: set<string>): (m: Module)
    requires ValidSaved(v)
    ensures m.ruName == Get(v, "ruName").s && m.stars == Get(v, "stars").n
    ensures Get(v, "enName").Str? ==> m.enName == Get(v, "enName").s
    ensures Get(v, "effect").Str? ==> m.effect == Get(v, "effect").s
    ensures m.learned <==> Get(v, "learned") == Bool(true)
    ensures Get(v, "isCustom").Bool? ==> m.isCustom == Get(v, "isCustom").b
    ensures !Get(v, "isCustom").Bool? ==> (m.isCustom <==> KeyText(m) !in known)
  {
    var ruName := Get(v, "ruName").s;
    var stars := Get(v, "stars").n;
    var learned := Get(v, "learned");
    var isCustom := Get(v, "isCustom");
    Module(
      ruName, stars,
      TextOr(Get(v, "enName")), TextOr(Get(v, "effect")),
      if learned.Bool? then learned.b else false,
      if isCustom.Bool? then isCustom.b else KeyString(Key(ruName, stars)) !in known)
  }

  /** The `set` calls the saved array makes on the saved map, in order. */
  function SavedPairs(items: seq<Val>, known: set<string>): (kvs: seq<(string, Module)>)
    ensures |kvs| <= |items|
    ensures Keyed(kvs)
  {
    if items == [] then []
    else
      var last := items[|items| - 1];
      SavedPairs(items[..|items| - 1], known) +
        if ValidSaved(last) then [(KeyText(DecodeSaved(last, known)), DecodeSaved(last, known))] else []
  }

  /** Every pair is filed under the key text of its record. */
  ghost predicate Keyed(kvs: seq<(string, Module)>)
  {
    forall i :: 0 <= i < |kvs| ==> kvs[i].0 == KeyText(kvs[i].1)
  }

  /** Every record of the map is filed under its key text. */
  ghost predicate KeyedMap(m: OrderedMap<string, Module>)
  {
    forall k :: k in m.vals ==> KeyText(m.vals[k]) == k
  }

  /** A map built from keyed pairs is keyed. */
  lemma FromPairsKeyed(kvs: seq<(string, Module)>)
    requires Keyed(kvs)
    ensures KeyedMap(FromPairs(kvs))
  {
    FromPairsVals(kvs);
  }

  /** The key texts of the saved elements that are kept, in order. */
  function ValidKeys(items: seq<Val>): (ks: seq<string>)
  {
    if items == [] then []
    else
      var last := items[|items| - 1];
      ValidKeys(items[..|items| - 1]) +
        if ValidSaved(last) then [KeyString(Key(Get(last, "ruName").s, Get(last, "stars").n))] else []
  }

  /** The saved map's keys do not depend on the catalog. */
  lemma {:induction false} SavedPairsKeys(items: seq<Val>, known: set<string>)
    ensures Firsts(SavedPairs(items, known)) == ValidKeys(items)
  {
    if items != [] {
      var init := items[..|items| - 1];
      SavedPairsKeys(init, known);
      FirstsAppend(SavedPairs(init, known),
        if ValidSaved(items[|items| - 1]) then [(KeyText(DecodeSaved(items[|items| - 1], known)), DecodeSaved(items[|items| - 1], known))] else []);
    }
  }

  /** The catalog map's keys are the catalog's key texts. */
  lemma CatalogPairsKeys(catalog: seq<Module>)
    ensures Firsts(CatalogPairs(catalog)) == Keys(catalog)
    ensures Keyed(CatalogPairs(catalog))
  {
  }

  /** The catalog part of the merged list: each catalog key in map order,
      holding the saved record when there is one and otherwise the catalog
      record with `learned` taken from the initial learned set. */
  function CatalogSection(initial: OrderedMap<string, Module>, saved: OrderedMap<string, Module>, learnedOnInit: set<string>): (ms: seq<Module>)
    requires initial.Valid()
    ensures |ms| == |initial.keys|
  {
    seq(|initial.keys|, i requires 0 <= i < |initial.keys| =>
      var k := initial.keys[i];
      if k in saved.vals then saved.vals[k] else initial.vals[k].(learned := k in learnedOnInit))
  }

  /** The saved records whose key is not in the catalog, in saved-map order. */
  function LeftoverSection(initial: OrderedMap<string, Module>, saved: OrderedMap<string, Module>): (ms: seq<Module>)
    requires saved.Valid()
    ensures |ms| == |Minus(saved.keys, initial.keys)|
  {
    var rest := Minus(saved.keys, initial.keys);
    seq(|rest|, j requires 0 <= j < |rest| => saved.vals[rest[j]])
  }

  /** `initialModulesData.map(m => ({ ...m, learned: userLearnedListOnInit.has(key) }))`. */
  function WithInitialLearned(catalog: seq<Module>, learnedOnInit: set<string>): (ms: seq<Module>)
    ensures |ms| == |catalog|
    ensures forall i :: 0 <= i < |catalog| ==> ms[i] == catalog[i].(learned := KeyText(catalog[i]) in learnedOnInit)
  {
    seq(|catalog|, i requires 0 <= i < |catalog| => catalog[i].(learned := KeyText(catalog[i]) in learnedOnInit))
  }

  /** The catalog map and the saved map `loadModules` builds. */
  function InitialMap(catalog: seq<Module>): (m: OrderedMap<string, Module>)
    ensures m.Valid()
  {
    FromPairs(CatalogPairs(catalog))
  }

  function SavedMapOf(catalog: seq<Module>, items: seq<Val>): (m: OrderedMap<string, Module>)
    ensures m.Valid()
  {
    FromPairs(SavedPairs(items, InitialMap(catalog).vals.Keys))
  }

  /** What `loadModules` returns, as a function of the catalog, the initial
      learned set and the saved item. */
  function LoadSpec(catalog: seq<Module>, learnedOnInit: set<string>, saved: Stored): Loaded
  {
    if catalog == [] then
      Unvalidated(if saved.Parsed? && saved.value.Arr? then saved.value.items else [])
    else if saved.Parsed? && saved.value.Arr? then
      var initial := InitialMap(catalog);
      var savedMap := SavedMapOf(catalog, saved.value.items);
      Merged(CatalogSection(initial, savedMap, learnedOnInit) + LeftoverSection(initial, savedMap))
    else
      Merged(WithInitialLearned(catalog, learnedOnInit))
  }

  /** Without a saved array the loaded list has the catalog's keys, so its
      keys are unique exactly when the catalog's are. */
  lemma LoadWithoutSavedKeys(catalog: seq<Module>, learnedOnInit: set<string>, saved: Stored)
    requires catalog != [] && !(saved.Parsed? && saved.value.Arr?)
    ensures LoadSpec(catalog, learnedOnInit, saved).Merged?
    ensures Keys(LoadSpec(catalog, learnedOnInit, saved).modules) == Keys(catalog)
    ensures UniqueKeys(LoadSpec(catalog, learnedOnInit, saved).modules) <==> UniqueKeys(catalog)
  {
    var ms := WithInitialLearned(catalog, learnedOnInit);
    assert LoadSpec(catalog, learnedOnInit, saved) == Merged(ms);
    assert Keys(ms) == Keys(catalog) by {
      forall i | 0 <= i < |ms| ensures Keys(ms)[i] == Keys(catalog)[i] {
        assert ms[i] == catalog[i].(learned := KeyText(catalog[i]) in learnedOnInit);
      }
    }
    SameKeysUnique(ms, catalog);
  }

  /** Lists with the same keys are both uniquely keyed or both not. */
  lemma SameKeysUnique(a: seq<Module>, b: seq<Module>)
    requires Keys(a) == Keys(b)
    ensures UniqueKeys(a) <==> UniqueKeys(b)
  {
    assert forall i :: 0 <= i < |a| ==> KeyText(a[i]) == Keys(a)[i] == KeyText(b[i]);
  }

  /** One more saved element adds at most one pair. */
  lemma SavedPairsSnoc(items: seq<Val>, i: int, known: set<string>)
    requires 0 <= i < |items|
    ensures SavedPairs(items[..i + 1], known) ==
      SavedPairs(items[..i], known) +
        if ValidSaved(items[i]) then [(KeyText(DecodeSaved(items[i], known)), DecodeSaved(items[i], known))] else []
  {
    assert items[..i + 1][..i] == items[..i];
  }

  /** `savedModules.forEach(m => { if (valid) savedModulesMap.set(key, record) })`. */
  method BuildSavedMap(items: seq<Val>, known: set<string>) returns (savedMap: OrderedMap<string, Module>)
    ensures savedMap == FromPairs(SavedPairs(items, known))
  {
    savedMap := Empty();
    for i := 0 to |items|
      invariant savedMap == FromPairs(SavedPairs(items[..i], known))
    {
      SavedPairsSnoc(items, i, known);
      var m := items[i];
      if ValidSaved(m) {
        var rec := DecodeSaved(m, known);
        FromPairsSnoc(SavedPairs(items[..i], known), (KeyText(rec), rec));
        savedMap := savedMap.Set(KeyText(rec), rec);
      } else {
        assert SavedPairs(items[..i + 1], known) == SavedPairs(items[..i], known);
      }
    }
    assert items[..|items|] == items;
  }

  /** `initialModulesMap.forEach(...)`: push the saved record of each
      catalog key that has one, deleting it from the saved map, and the
      catalog record with its initial learned mark otherwise. */
  method MergeCatalog(initial: OrderedMap<string, Module>, savedMap: OrderedMap<string, Module>, learnedOnInit: set<string>)
    returns (finalModules: seq<Module>, rest: OrderedMap<string, Module>)
    requires initial.Valid() && savedMap.Valid()
    ensures finalModules == CatalogSection(initial, savedMap, learnedOnInit)
    ensures rest.Valid() && rest.keys == Minus(savedMap.keys, initial.keys)
    ensures forall k :: k in rest.vals ==> k in savedMap.vals && rest.vals[k] == savedMap.vals[k]
  {
    rest := savedMap;
    finalModules := [];
    MinusNothing(savedMap.keys, []);
    for i := 0 to |initial.keys|
      invariant rest.Valid()
      invariant rest.keys == Minus(savedMap.keys, initial.keys[..i])
      invariant forall k :: k in rest.vals <==> k in savedMap.vals && k !in initial.keys[..i]
      invariant forall k :: k in rest.vals ==> rest.vals[k] == savedMap.vals[k]
      invariant finalModules == CatalogSection(initial, savedMap, learnedOnInit)[..i]
    {
      var key := initial.keys[i];
      NotYetVisited(initial.keys, i);
      ghost var section := CatalogSection(initial, savedMap, learnedOnInit);
      TakeOneMore(section, i);
      assert key in rest.vals <==> key in savedMap.vals;
      DropOneMore(savedMap.keys, initial.keys, i);
      var initialModule := initial.vals[key];
      if key in rest.vals {
        finalModules := finalModules + [rest.vals[key]];
        rest := rest.Delete(key);
      } else {
        finalModules := finalModules + [initialModule.(learned := key in learnedOnInit)];
        MinusNothing(rest.keys, [key]);
      }
    }
    assert initial.keys[..|initial.keys|] == initial.keys;
  }

  /** Dropping the first `i + 1` keys is dropping the first `i` and then
      the next one. */
  lemma DropOneMore<T(!new)>(s: seq<T>, ks: seq<T>, i: int)
    requires 0 <= i < |ks|
    ensures Minus(Minus(s, ks[..i]), [ks[i]]) == Minus(s, ks[..i + 1])
  {
    assert ks[..i + 1] == ks[..i] + [ks[i]];
    MinusMinus(s, ks[..i], ks[i]);
  }

  /** In a list without repetitions, the element at `i` is not among the
      ones before it. */
  lemma NotYetVisited<T>(ks: seq<T>, i: int)
    requires Distinct(ks) && 0 <= i < |ks|
    ensures ks[i] !in ks[..i]
  {
    forall j | 0 <= j < i ensures ks[..i][j] != ks[i] {
      assert ks[..i][j] == ks[j];
    }
  }

  /** `savedModulesMap.forEach(customModule => finalModules.push(customModule))`. */
  method AppendLeftovers(finalModules: seq<Module>, rest: OrderedMap<string, Module>) returns (r: seq<Module>)
    requires rest.Valid()
    ensures r == finalModules + seq(|rest.keys|, j requires 0 <= j < |rest.keys| => rest.vals[rest.keys[j]])
  {
    r := finalModules;
    for j := 0 to |rest.keys|
      invariant r == finalModules + seq(j, t requires 0 <= t < j => rest.vals[rest.keys[t]])
    {
      r := r + [rest.vals[rest.keys[j]]];
    }
  }

  /** `loadModules(initialModulesData)`: the saved array when the catalog is
      empty; the catalog merged with the saved records; or, when nothing
      usable was saved, the catalog with the initial learned marks. */
  method LoadModules(catalog: seq<Module>, learnedOnInit: set<string>, saved: Stored) returns (r: Loaded)
    ensures r == LoadSpec(catalog, learnedOnInit, saved)
  {
    if catalog == [] {
      if saved.Parsed? && saved.value.Arr? {
        return Unvalidated(saved.value.items);
      }
      return Unvalidated([]);
    }
    var initial := InitialMap(catalog);
    if !(saved.Parsed? && saved.value.Arr?) {
      return Merged(WithInitialLearned(catalog, learnedOnInit));
    }
    var savedMap := BuildSavedMap(saved.value.items, initial.vals.Keys);
    var finalModules, rest := MergeCatalog(initial, savedMap, learnedOnInit);
    LeftoversAgree(initial, savedMap, rest);
    finalModules := AppendLeftovers(finalModules, rest);
    return Merged(finalModules);
  }

  /** The records left in the saved map after the catalog pass are the
      leftover section. */
  lemma LeftoversAgree(initial: OrderedMap<string, Module>, savedMap: OrderedMap<string, Module>, rest: OrderedMap<string, Module>)
    requires savedMap.Valid() && rest.Valid() && rest.keys == Minus(savedMap.keys, initial.keys)
    requires forall k :: k in rest.vals ==> k in savedMap.vals && rest.vals[k] == savedMap.vals[k]
    ensures seq(|rest.keys|, j requires 0 <= j < |rest.keys| => rest.vals[rest.keys[j]]) == LeftoverSection(initial, savedMap)
  {
    var l := LeftoverSection(initial, savedMap);
    forall j | 0 <= j < |rest.keys| ensures rest.vals[rest.keys[j]] == l[j] {
      assert rest.keys[j] in rest.vals;
    }
  }

  /** The catalog map lists each catalog key text once, in order of first
      appearance. */
  lemma CatalogMapKeys(catalog: seq<Module>)
    ensures FromPairs(CatalogPairs(catalog)).keys == Dedup(Keys(catalog))
  {
    CatalogPairsKeys(catalog);
    FromPairsKeys(CatalogPairs(catalog));
  }

  /** The catalog map holds, under each catalog key text, the LAST catalog
      record with that key, marked as not custom. */
  lemma CatalogMapVals(catalog: seq<Module>)
    ensures forall k :: k in FromPairs(CatalogPairs(catalog)).vals <==> k in Keys(catalog)
    ensures forall k :: k in FromPairs(CatalogPairs(catalog)).vals ==>
      FromPairs(CatalogPairs(catalog)).vals[k] == catalog[LastIndex(Keys(catalog), k)].(isCustom := false)
  {
    CatalogPairsKeys(catalog);
    FromPairsVals(CatalogPairs(catalog));
  }

  lemma CatalogMapKeyed(catalog: seq<Module>)
    ensures KeyedMap(FromPairs(CatalogPairs(catalog)))
  {
    CatalogPairsKeys(catalog);
    FromPairsKeyed(CatalogPairs(catalog));
  }

  /** The saved map lists each kept key text once, in order of first
      appearance. */
  lemma SavedMapKeys(items: seq<Val>, known: set<string>)
    ensures FromPairs(SavedPairs(items, known)).keys == Dedup(ValidKeys(items))
  {
    SavedPairsKeys(items, known);
    FromPairsKeys(SavedPairs(items, known));
  }

  /** The saved map holds, under each kept key text, the record decoded
      from the LAST kept element with that key. */
  lemma SavedMapVals(items: seq<Val>, known: set<string>)
    ensures Firsts(SavedPairs(items, known)) == ValidKeys(items)
    ensures forall k :: k in FromPairs(SavedPairs(items, known)).vals <==> k in ValidKeys(items)
    ensures forall k :: k in FromPairs(SavedPairs(items, known)).vals ==>
      FromPairs(SavedPairs(items, known)).vals[k] ==
        SavedPairs(items, known)[LastIndex(Firsts(SavedPairs(items, known)), k)].1
  {
    SavedPairsKeys(items, known);
    FromPairsVals(SavedPairs(items, known));
  }

  lemma KeysAppend(a: seq<Module>, b: seq<Module>)
    ensures Keys(a + b) == Keys(a) + Keys(b)
  {
  }

  lemma KeysSnoc(ms: seq<Module>)
    requires ms != []
    ensures Keys(ms) == Keys(ms[..|ms| - 1]) + [KeyText(ms[|ms| - 1])]
  {
    var r := Keys(ms[..|ms| - 1]) + [KeyText(ms[|ms| - 1])];
    assert |r| == |ms|;
    forall i | 0 <= i < |ms| ensures Keys(ms)[i] == r[i] {
      if i < |ms| - 1 {
        assert ms[..|ms| - 1][i] == ms[i];
      }
    }
  }

  /** The key texts of the list are pairwise distinct exactly when the
      entries have unique keys. */
  lemma UniqueKeysDistinct(ms: seq<Module>)
    ensures UniqueKeys(ms) <==> Distinct(Keys(ms))
  {
  }

  /** Two lists without repetitions and without common elements join into
      one without repetitions. */
  lemma DistinctAppend<T>(a: seq<T>, b: seq<T>)
    requires Distinct(a) && Distinct(b)
    requires forall x :: x in b ==> x !in a
    ensures Distinct(a + b)
  {
    forall i, j | 0 <= i < j < |a + b| ensures (a + b)[i] != (a + b)[j] {
      if j < |a| {
        assert (a + b)[i] == a[i] && (a + b)[j] == a[j];
      } else if i < |a| {
        assert (a + b)[i] == a[i] && (a + b)[j] == b[j - |a|];
        assert b[j - |a|] in b;
      } else {
        assert (a + b)[i] == b[i - |a|] && (a + b)[j] == b[j - |a|];
      }
    }
  }

  /** Both sections of the merge list their records in the order of the
      keys they are filed under. */
  lemma SectionKeys(initial: OrderedMap<string, Module>, saved: OrderedMap<string, Module>, learnedOnInit: set<string>)
    requires initial.Valid() && saved.Valid() && KeyedMap(initial) && KeyedMap(saved)
    ensures Keys(CatalogSection(initial, saved, learnedOnInit)) == initial.keys
    ensures Keys(LeftoverSection(initial, saved)) == Minus(saved.keys, initial.keys)
  {
    var a := CatalogSection(initial, saved, learnedOnInit);
    var b := LeftoverSection(initial, saved);
    var rest := Minus(saved.keys, initial.keys);
    forall i | 0 <= i < |a| ensures KeyText(a[i]) == initial.keys[i] {
      var k := initial.keys[i];
      if k in saved.vals {
        assert a[i] == saved.vals[k];
      } else {
        assert a[i] == initial.vals[k].(learned := k in learnedOnInit);
      }
    }
    forall j | 0 <= j < |b| ensures KeyText(b[j]) == rest[j] {
      assert b[j] == saved.vals[rest[j]];
    }
  }

  /** With a catalog and a saved array, `loadModules` lists each catalog key
      once in order of first appearance, then each kept saved key not in the
      catalog once in order of first appearance; so no key occurs twice. */
  lemma {:induction false} LoadKeys(catalog: seq<Module>, learnedOnInit: set<string>, items: seq<Val>)
    requires catalog != []
    ensures Keys(LoadSpec(catalog, learnedOnInit, Parsed(Arr(items))).modules) ==
      Dedup(Keys(catalog)) + Minus(Dedup(ValidKeys(items)), Dedup(Keys(catalog)))
    ensures UniqueKeys(LoadSpec(catalog, learnedOnInit, Parsed(Arr(items))).modules)
  {
    var initial := FromPairs(CatalogPairs(catalog));
    var saved := FromPairs(SavedPairs(items, initial.vals.Keys));
    var a := CatalogSection(initial, saved, learnedOnInit);
    var b := LeftoverSection(initial, saved);
    var rest := Minus(saved.keys, initial.keys);
    var ms := LoadSpec(catalog, learnedOnInit, Parsed(Arr(items))).modules;
    assert ms == a + b;
    assert initial.keys == Dedup(Keys(catalog)) by {
      CatalogMapKeys(catalog);
    }
    assert saved.keys == Dedup(ValidKeys(items)) by {
      SavedMapKeys(items, initial.vals.Keys);
    }
    assert Keys(ms) == initial.keys + rest by {
      CatalogMapKeyed(catalog);
      FromPairsKeyed(SavedPairs(items, initial.vals.Keys));
      SectionKeys(initial, saved, learnedOnInit);
      KeysAppend(a, b);
    }
    assert UniqueKeys(ms) by {
      MinusDistinct(saved.keys, initial.keys);
      DistinctAppend(initial.keys, rest);
      UniqueKeysDistinct(ms);
    }
  }

  /** The merge path of `loadModules` in terms of its two maps. */
  lemma LoadMerge(catalog: seq<Module>, learnedOnInit: set<string>, items: seq<Val>)
    requires catalog != []
    ensures LoadSpec(catalog, learnedOnInit, Parsed(Arr(items))).modules ==
      CatalogSection(InitialMap(catalog), SavedMapOf(catalog, items), learnedOnInit) +
      LeftoverSection(InitialMap(catalog), SavedMapOf(catalog, items))
  {
  }

  /** The `i`-th catalog key of the merged list holds the record decoded
      from the last kept saved element with that key when there is one, and
      otherwise the last catalog record with that key, marked not custom
      and learned exactly when its key is in the initial learned set. */
  lemma LoadCatalogEntry(catalog: seq<Module>, learnedOnInit: set<string>, items: seq<Val>, i: nat)
    requires catalog != [] && i < |Dedup(Keys(catalog))|
    ensures var ms := LoadSpec(catalog, learnedOnInit, Parsed(Arr(items))).modules;
      var kvs := SavedPairs(items, InitialMap(catalog).vals.Keys);
      var k := Dedup(Keys(catalog))[i];
      && i < |ms|
      && ms[i] ==
           if k in Firsts(kvs) then kvs[LastIndex(Firsts(kvs), k)].1
           else catalog[LastIndex(Keys(catalog), k)].(isCustom := false, learned := k in learnedOnInit)
  {
    LoadMerge(catalog, learnedOnInit, items);
    var initial, saved := InitialMap(catalog), SavedMapOf(catalog, items);
    var kvs := SavedPairs(items, initial.vals.Keys);
    CatalogMapKeys(catalog);
    CatalogMapVals(catalog);
    SavedMapVals(items, initial.vals.Keys);
    var a := CatalogSection(initial, saved, learnedOnInit);
    var k := initial.keys[i];
    assert (a + LeftoverSection(initial, saved))[i] == a[i];
    if k in saved.vals {
      assert a[i] == saved.vals[k] == kvs[LastIndex(Firsts(kvs), k)].1;
    } else {
      assert k in initial.vals;
      assert a[i] == initial.vals[k].(learned := k in learnedOnInit);
    }
  }

  // ---------------------------------------------------------------------
  // Module list: saving

  /** `v || ''`. */
  function OrEmpty(v: Val): (r: Val)
    ensures Truthy(v) ==> r == v
    ensures !Truthy(v) ==> r == Str("")
  {
    if Truthy(v) then v else Str("")
  }

  /** The object `saveModules` writes for one element: the six fields, with
      `learned` and `isCustom` coerced to booleans and the text fields
      defaulting to ''; `JSON.stringify` leaves out an undefined `ruName`
      or `stars`. */
  function SaveRecord(v: Val): (r: Val)
    requires !v.Undefined? && !v.Null?
    ensures r.Obj?
    ensures Get(r, "ruName") == Get(v, "ruName") && Get(r, "stars") == Get(v, "stars")
    ensures forall f :: f in r.fields ==> f in {"ruName", "stars", "learned", "enName", "effect", "isCustom"}
  {
    assert "ruName"[0] != "enName"[0] && "ruName"[0] != "effect"[0] && "enName"[1] != "effect"[1];
    var fields := map[
      "learned" := Bool(Truthy(Get(v, "learned"))),
      "enName" := OrEmpty(Get(v, "enName")),
      "effect" := OrEmpty(Get(v, "effect")),
      "isCustom" := Bool(Truthy(Get(v, "isCustom")))];
    var withName := if Get(v, "ruName").Undefined? then fields else fields["ruName" := Get(v, "ruName")];
    Obj(if Get(v, "stars").Undefined? then withName else withName["stars" := Get(v, "stars")])
  }

  /** `saveModules(modules)`: the list of saved objects, one per element in
      order; `None` when an element is `null` or `undefined`, whose
      destructuring throws, and then nothing is written. */
  function SaveModules(modules: seq<Val>): (r: Option<seq<Val>>)
    ensures r.None? <==> exists i :: 0 <= i < |modules| && (modules[i].Undefined? || modules[i].Null?)
    ensures r.Some? ==> |r.value| == |modules| && forall i :: 0 <= i < |modules| ==> r.value[i] == SaveRecord(modules[i])
  {
    if modules == [] then Some([])
    else if modules[0].Undefined? || modules[0].Null? then None
    else
      match SaveModules(modules[1..])
      case None => None
      case Some(rest) => Some([SaveRecord(modules[0])] + rest)
  }

  /** The saved record coerces `learned` and `isCustom` to booleans and
      defaults the text fields to ''. */
  lemma SaveRecordCoerces(v: Val)
    requires !v.Undefined? && !v.Null?
    ensures Get(SaveRecord(v), "learned") == Bool(Truthy(Get(v, "learned")))
    ensures Get(SaveRecord(v), "isCustom") == Bool(Truthy(Get(v, "isCustom")))
    ensures Get(SaveRecord(v), "enName") == OrEmpty(Get(v, "enName"))
    ensures Get(SaveRecord(v), "effect") == OrEmpty(Get(v, "effect"))
  {
  }

  /** Saving what was saved changes nothing. */
  lemma SaveRecordIdempotent(v: Val)
    requires !v.Undefined? && !v.Null?
    ensures SaveRecord(SaveRecord(v)) == SaveRecord(v)
  {
    var r := SaveRecord(v);
    var rr := SaveRecord(r);
    SaveRecordCoerces(v);
    SaveRecordCoerces(r);
    assert rr.fields.Keys == r.fields.Keys;
  }

  /** The application's entries as the JSON objects they are held as. */
  function AsJson(ms: seq<Module>): (vs: seq<Val>)
    ensures |vs| == |ms| && forall i :: 0 <= i < |ms| ==> vs[i] == ToJson(ms[i])
  {
    seq(|ms|, i requires 0 <= i < |ms| => ToJson(ms[i]))
  }

  /** An entry is saved as it is: the projection keeps all six fields. */
  lemma SaveEntry(m: Module)
    ensures SaveRecord(ToJson(m)) == ToJson(m)
  {
    var r := SaveRecord(ToJson(m));
    assert r.fields.Keys == ToJson(m).fields.Keys;
  }

  /** A saved entry is kept on loading and decodes to itself. */
  lemma DecodeEntry(m: Module, known: set<string>)
    ensures ValidSaved(ToJson(m)) && DecodeSaved(ToJson(m), known) == m
  {
  }

  // ---------------------------------------------------------------------
  // Module list: saving and loading again

  /** The pairs a list of entries puts in the saved map. */
  function EntryPairs(ms: seq<Module>): (kvs: seq<(string, Module)>)
    ensures |kvs| == |ms| && forall i :: 0 <= i < |ms| ==> kvs[i] == (KeyText(ms[i]), ms[i])
  {
    seq(|ms|, i requires 0 <= i < |ms| => (KeyText(ms[i]), ms[i]))
  }

  lemma EntryPairsSnoc(ms: seq<Module>)
    requires ms != []
    ensures EntryPairs(ms) == EntryPairs(ms[..|ms| - 1]) + [(KeyText(ms[|ms| - 1]), ms[|ms| - 1])]
  {
    var r := EntryPairs(ms[..|ms| - 1]) + [(KeyText(ms[|ms| - 1]), ms[|ms| - 1])];
    forall i | 0 <= i < |ms| ensures EntryPairs(ms)[i] == r[i] {
      if i < |ms| - 1 {
        assert ms[..|ms| - 1][i] == ms[i];
      }
    }
  }

  /** One more element keeps one more key text when it is kept. */
  lemma ValidKeysSnoc(items: seq<Val>, v: Val)
    ensures ValidKeys(items + [v]) ==
      ValidKeys(items) + if ValidSaved(v) then [KeyString(Key(Get(v, "ruName").s, Get(v, "stars").n))] else []
  {
    assert (items + [v])[..|items|] == items;
  }

  /** One more element adds one more pair when it is kept. */
  lemma SavedPairsSnocAll(items: seq<Val>, v: Val, known: set<string>)
    ensures SavedPairs(items + [v], known) ==
      SavedPairs(items, known) + if ValidSaved(v) then [(KeyText(DecodeSaved(v, known)), DecodeSaved(v, known))] else []
  {
    assert (items + [v])[..|items|] == items;
  }

  lemma AsJsonSnoc(ms: seq<Module>)
    requires ms != []
    ensures AsJson(ms) == AsJson(ms[..|ms| - 1]) + [ToJson(ms[|ms| - 1])]
  {
  }

  /** Every saved entry is kept, under its own key text. */
  lemma {:induction false} ValidKeysOfEntries(ms: seq<Module>)
    ensures ValidKeys(AsJson(ms)) == Keys(ms)
  {
    if ms != [] {
      var init, last := ms[..|ms| - 1], ms[|ms| - 1];
      var v := ToJson(last);
      assert ValidSaved(v);
      assert KeyString(Key(Get(v, "ruName").s, Get(v, "stars").n)) == KeyText(last);
      AsJsonSnoc(ms);
      ValidKeysSnoc(AsJson(init), v);
      ValidKeysOfEntries(init);
      KeysSnoc(ms);
    }
  }

  /** Every saved entry decodes to itself. */
  lemma {:induction false} SavedPairsOfEntries(ms: seq<Module>, known: set<string>)
    ensures SavedPairs(AsJson(ms), known) == EntryPairs(ms)
  {
    if ms != [] {
      var init, last := ms[..|ms| - 1], ms[|ms| - 1];
      SavedPairsOfEntries(init, known);
      AsJsonSnoc(ms);
      SavedPairsSnocAll(AsJson(init), ToJson(last), known);
      DecodeEntry(last, known);
      EntryPairsSnoc(ms);
    }
  }

  /** The saved map of a list with unique keys lists its keys in order. */
  lemma EntryMapKeys(ms: seq<Module>)
    requires UniqueKeys(ms)
    ensures FromPairs(EntryPairs(ms)).keys == Keys(ms)
  {
    var kvs := EntryPairs(ms);
    assert Firsts(kvs) == Keys(ms);
    UniqueKeysDistinct(ms);
    FromPairsKeys(kvs);
    DedupDistinct(Keys(ms));
  }

  /** The saved map of a list with unique keys holds each entry under its
      key. */
  lemma EntryMapVals(ms: seq<Module>, i: int)
    requires UniqueKeys(ms) && 0 <= i < |ms|
    ensures KeyText(ms[i]) in FromPairs(EntryPairs(ms)).vals
    ensures FromPairs(EntryPairs(ms)).vals[KeyText(ms[i])] == ms[i]
  {
    var kvs := EntryPairs(ms);
    var ks := Firsts(kvs);
    assert ks == Keys(ms);
    assert ks[i] == KeyText(ms[i]);
    UniqueKeysDistinct(ms);
    FromPairsVals(kvs);
    LastIndexDistinct(ks, i);
    assert kvs[LastIndex(ks, ks[i])] == kvs[i];
  }

  /** Saving a list of entries writes each entry as it is. */
  lemma SaveEntries(ms: seq<Module>)
    ensures SaveModules(AsJson(ms)) == Some(AsJson(ms))
  {
    var vs := AsJson(ms);
    assert forall i :: 0 <= i < |vs| ==> vs[i].Obj?;
    var r := SaveModules(vs);
    assert r.Some?;
    forall i | 0 <= i < |ms| ensures r.value[i] == vs[i] {
      SaveEntry(ms[i]);
    }
    assert r.value == vs;
  }

  /** Dropping the keys of the first `n` entries from all keys leaves the
      keys of the rest when those are all different from the first ones. */
  lemma RestIsTail(ks: seq<string>, d: seq<string>, n: int)
    requires 0 <= n <= |ks| && ks[..n] == d
    requires forall j :: n <= j < |ks| ==> ks[j] !in d
    ensures Minus(ks, d) == ks[n..]
  {
    assert ks == ks[..n] + ks[n..];
    MinusAppend(ks[..n], ks[n..], d);
    MinusAll(ks[..n], d);
    forall x | x in ks[n..] ensures x !in d {
      var j :| 0 <= j < |ks[n..]| && ks[n..][j] == x;
      assert x == ks[n + j];
    }
    MinusNothing(ks[n..], d);
  }

  /** The merge rebuilds a list from a saved map holding every entry under
      its key `ks[i]`, when the catalog keys are the keys of its first
      entries. */
  lemma SectionsRebuild(
    initial: OrderedMap<string, Module>, saved: OrderedMap<string, Module>, learnedOnInit: set<string>,
    ms: seq<Module>, ks: seq<string>, n: int)
    requires initial.Valid() && saved.Valid()
    requires |ks| == |ms| && 0 <= n <= |ms| && initial.keys == ks[..n]
    requires Minus(saved.keys, initial.keys) == ks[n..]
    requires forall i :: 0 <= i < |ms| ==> ks[i] in saved.vals && saved.vals[ks[i]] == ms[i]
    ensures CatalogSection(initial, saved, learnedOnInit) + LeftoverSection(initial, saved) == ms
  {
    var a := CatalogSection(initial, saved, learnedOnInit);
    var b := LeftoverSection(initial, saved);
    assert |a + b| == |ms|;
    forall i | 0 <= i < |ms| ensures (a + b)[i] == ms[i] {
      if i < n {
        assert initial.keys[i] == ks[i];
        assert a[i] == saved.vals[ks[i]];
      } else {
        assert Minus(saved.keys, initial.keys)[i - n] == ks[i];
        assert (a + b)[i] == b[i - n] == saved.vals[ks[i]];
      }
    }
  }

  /** A list that starts with each catalog key once in catalog order and
      continues with entries whose keys are not in the catalog, with no key
      twice, is saved and loaded back unchanged, whatever the initial
      learned set. */
  lemma {:induction false} ReloadRoundTrip(catalog: seq<Module>, learnedOnInit: set<string>, ms: seq<Module>)
    requires catalog != []
    requires UniqueKeys(ms)
    requires |Dedup(Keys(catalog))| <= |ms| && Keys(ms)[..|Dedup(Keys(catalog))|] == Dedup(Keys(catalog))
    requires forall j :: |Dedup(Keys(catalog))| <= j < |ms| ==> KeyText(ms[j]) !in Keys(catalog)
    ensures SaveModules(AsJson(ms)) == Some(AsJson(ms))
    ensures LoadSpec(catalog, learnedOnInit, Parsed(Arr(AsJson(ms)))) == Merged(ms)
  {
    SaveEntries(ms);
    var items := AsJson(ms);
    var initial, saved := InitialMap(catalog), SavedMapOf(catalog, items);
    var d := Dedup(Keys(catalog));
    LoadMerge(catalog, learnedOnInit, items);
    CatalogMapKeys(catalog);
    SavedPairsOfEntries(ms, initial.vals.Keys);
    EntryMapKeys(ms);
    RestIsTail(Keys(ms), d, |d|);
    var ks := Keys(ms);
    forall i | 0 <= i < |ms| ensures ks[i] in saved.vals && saved.vals[ks[i]] == ms[i] {
      EntryMapVals(ms, i);
    }
    SectionsRebuild(initial, saved, learnedOnInit, ms, ks, |d|);
  }

  /** What `loadModules` merged is saved and loaded back unchanged: a
      reload in a later session shows the same list. */
  lemma ReloadAfterLoad(catalog: seq<Module>, learnedOnInit: set<string>, later: set<string>, items: seq<Val>)
    requires catalog != []
    ensures var ms := LoadSpec(catalog, learnedOnInit, Parsed(Arr(items))).modules;
      && SaveModules(AsJson(ms)) == Some(AsJson(ms))
      && LoadSpec(catalog, later, Parsed(Arr(AsJson(ms)))) == Merged(ms)
  {
    var ms := LoadSpec(catalog, learnedOnInit, Parsed(Arr(items))).modules;
    var d := Dedup(Keys(catalog));
    assert UniqueKeys(ms) && |d| <= |ms| && Keys(ms)[..|d|] == d &&
      forall j :: |d| <= j < |ms| ==> KeyText(ms[j]) !in Keys(catalog)
    by {
      LoadKeys(catalog, learnedOnInit, items);
      var ks := Keys(ms);
      var rest := Minus(Dedup(ValidKeys(items)), d);
      assert ks[..|d|] == d;
      forall j | |d| <= j < |ms| ensures KeyText(ms[j]) !in Keys(catalog) {
        AppendRight(d, rest, j);
      }
    }
    ReloadRoundTrip(catalog, later, ms);
  }

  // ---------------------------------------------------------------------
  // Column settings

  /** `col.minWidth || fallback`. */
  function LowerBound(col: Column, fallback: int): int
  {
    if col.minWidth.Some? && col.minWidth.value != 0 then col.minWidth.value else fallback
  }

  /** `col.maxWidth || fallback`, where `None` stands for `Infinity`. */
  function UpperBound(col: Column, fallback: Option<int>): Option<int>
  {
    if col.maxWidth.Some? && col.maxWidth.value != 0 then col.maxWidth else fallback
  }

  /** `Math.max(lo, Math.min(hi, w))`, where `hi == None` is `Infinity`. */
  function Clamp(lo: int, hi: Option<int>, w: int): (r: int)
    ensures lo <= r
    ensures hi.Some? && lo <= hi.value ==> r <= hi.value
    ensures lo <= w && (hi.None? || w <= hi.value) ==> r == w
    ensures hi.Some? && lo <= hi.value < w ==> r == hi.value
    ensures w < lo ==> r == lo
    ensures hi.Some? && hi.value < lo ==> r == lo
  {
    var upper := if hi.Some? && hi.value < w then hi.value else w;
    if upper < lo then lo else upper
  }

  /** `x && typeof x === 'object'` for the named part of the settings. */
  predicate HasPart(settings: Val, name: string)
  {
    Truthy(Get(settings, name)) && IsObject(Get(settings, name))
  }

  /** The visibility a column gets from a valid saved visibility object:
      the saved boolean for a toggleable column, always shown for a column
      that cannot be toggled, otherwise the default. */
  function VisibilityEntry(col: Column, saved: Val, dflt: bool): bool
  {
    if col.visibilityToggleable && Get(saved, col.id).Bool? then Get(saved, col.id).b
    else if !col.visibilityToggleable then true
    else dflt
  }

  /** The width a column gets from a valid saved widths object: the saved
      number clamped to the column's bounds for a resizable column, the
      configured default width for a fixed one, and otherwise the default
      map's width. */
  function WidthEntry(col: Column, saved: Val, dflt: int, minFallback: int, maxFallback: Option<int>): int
  {
    if col.widthAdjustable && Get(saved, col.id).Num? then
      Clamp(LowerBound(col, minFallback), UpperBound(col, maxFallback), Get(saved, col.id).n)
    else if !col.widthAdjustable then col.defaultWidth
    else dflt
  }

  /** The ids of `cols` are pairwise distinct and each has an entry in
      `defaults`. */
  ghost predicate ConfigFits<T>(cols: seq<Column>, defaults: map<string, T>)
  {
    && (forall i, j :: 0 <= i < j < |cols| ==> cols[i].id != cols[j].id)
    && (forall i :: 0 <= i < |cols| ==> cols[i].id in defaults)
  }

  /** The visibility map the settings object yields for every column of
      `cols`, starting from `defaults`. */
  ghost predicate VisibilityFrom(visibility: map<string, bool>, cols: seq<Column>, defaults: map<string, bool>, settings: Val)
    requires ConfigFits(cols, defaults)
  {
    && visibility.Keys == defaults.Keys
    && forall i :: 0 <= i < |cols| ==>
         visibility[cols[i].id] ==
           if HasPart(settings, "visibility") then VisibilityEntry(cols[i], Get(settings, "visibility"), defaults[cols[i].id])
           else defaults[cols[i].id]
  }

  /** The widths map the settings object yields for every column of `cols`,
      starting from `defaults`. */
  ghost predicate WidthsFrom(
    widths: map<string, int>, cols: seq<Column>, defaults: map<string, int>, settings: Val,
    minFallback: int, maxFallback: Option<int>)
    requires ConfigFits(cols, defaults)
  {
    && widths.Keys == defaults.Keys
    && forall i :: 0 <= i < |cols| ==>
         widths[cols[i].id] ==
           if HasPart(settings, "widths")
           then WidthEntry(cols[i], Get(settings, "widths"), defaults[cols[i].id], minFallback, maxFallback)
           else defaults[cols[i].id]
  }

  /** Every configured column has a width within its configured bounds, and
      a column that cannot be resized has its default width. */
  ghost predicate WidthsWithinBounds(widths: map<string, int>)
  {
    forall i :: 0 <= i < |ColumnConfig| ==>
      var col := ColumnConfig[i];
      && col.id in widths
      && (col.widthAdjustable ==>
            col.minWidth.Some? && col.maxWidth.Some? &&
            col.minWidth.value <= widths[col.id] <= col.maxWidth.value)
      && (!col.widthAdjustable ==> widths[col.id] == col.defaultWidth)
  }

  /** The application's configuration fits its default maps. */
  lemma ConfigFitsDefaults()
    ensures ConfigFits(ColumnConfig, DefaultVisibility)
    ensures ConfigFits(ColumnConfig, DefaultWidths)
  {
    ColumnIdsDistinct();
    DefaultsOfColumns();
  }

  /** Whatever the settings object holds, the widths validated against the
      application's configuration stay within the configured bounds, and
      the columns that cannot be hidden are shown. */
  lemma {:induction false} ValidatedSettingsInBounds(
    visibility: map<string, bool>, widths: map<string, int>, settings: Val, minFallback: int, maxFallback: Option<int>)
    requires ConfigFits(ColumnConfig, DefaultVisibility) && ConfigFits(ColumnConfig, DefaultWidths)
    requires VisibilityFrom(visibility, ColumnConfig, DefaultVisibility, settings)
    requires WidthsFrom(widths, ColumnConfig, DefaultWidths, settings, minFallback, maxFallback)
    ensures WidthsWithinBounds(widths)
    ensures forall i :: 0 <= i < |ColumnConfig| && !ColumnConfig[i].visibilityToggleable ==>
      ColumnConfig[i].id in visibility && visibility[ColumnConfig[i].id]
  {
    ConfigDefaultsWithinBounds();
    DefaultsOfColumns();
  }

  /** The visibility half of the validation: start from the defaults and,
      for each column in configuration order, take the saved boolean of a
      toggleable column and force a fixed column visible. */
  method ValidateVisibility(cols: seq<Column>, defaults: map<string, bool>, settings: Val)
    returns (visibility: map<string, bool>)
    requires ConfigFits(cols, defaults)
    ensures VisibilityFrom(visibility, cols, defaults, settings)
  {
    visibility := defaults;
    var saved := Get(settings, "visibility");
    if Truthy(saved) && IsObject(saved) {
      for i := 0 to |cols|
        invariant visibility.Keys == defaults.Keys
        invariant forall t :: 0 <= t < |cols| ==>
          visibility[cols[t].id] ==
            if t < i then VisibilityEntry(cols[t], saved, defaults[cols[t].id]) else defaults[cols[t].id]
      {
        var col := cols[i];
        var v := Get(saved, col.id);
        if col.visibilityToggleable && v.Bool? {
          visibility := visibility[col.id := v.b];
        } else if !col.visibilityToggleable {
          visibility := visibility[col.id := true];
        }
      }
    }
  }

  /** The widths half of the validation: start from the defaults and, for
      each column in configuration order, clamp the saved number of a
      resizable column and reset a fixed column to its default width. */
  method ValidateWidths(cols: seq<Column>, defaults: map<string, int>, settings: Val, minFallback: int, maxFallback: Option<int>)
    returns (widths: map<string, int>)
    requires ConfigFits(cols, defaults)
    ensures WidthsFrom(widths, cols, defaults, settings, minFallback, maxFallback)
  {
    widths := defaults;
    var saved := Get(settings, "widths");
    if Truthy(saved) && IsObject(saved) {
      for i := 0 to |cols|
        invariant widths.Keys == defaults.Keys
        invariant forall t :: 0 <= t < |cols| ==>
          widths[cols[t].id] ==
            if t < i then WidthEntry(cols[t], saved, defaults[cols[t].id], minFallback, maxFallback)
            else defaults[cols[t].id]
      {
        var col := cols[i];
        var v := Get(saved, col.id);
        if col.widthAdjustable && v.Num? {
          widths := widths[col.id := Clamp(LowerBound(col, minFallback), UpperBound(col, maxFallback), v.n)];
        } else if !col.widthAdjustable {
          widths := widths[col.id := col.defaultWidth];
        }
      }
    }
  }

  /** The validation shared by `loadColumnSettings` and
      `applyImportedSettings`, over the application's configuration; the
      two differ only in the fallback bounds for a column without its own
      `minWidth`/`maxWidth`. */
  method ValidateSettings(settings: Val, minFallback: int, maxFallback: Option<int>) returns (s: Settings)
    ensures ConfigFits(ColumnConfig, DefaultVisibility) && ConfigFits(ColumnConfig, DefaultWidths)
    ensures VisibilityFrom(s.visibility, ColumnConfig, DefaultVisibility, settings)
    ensures WidthsFrom(s.widths, ColumnConfig, DefaultWidths, settings, minFallback, maxFallback)
    ensures WidthsWithinBounds(s.widths)
  {
    ConfigFitsDefaults();
    var visibility := ValidateVisibility(ColumnConfig, DefaultVisibility, settings);
    var widths := ValidateWidths(ColumnConfig, DefaultWidths, settings, minFallback, maxFallback);
    ValidatedSettingsInBounds(visibility, widths, settings, minFallback, maxFallback);
    s := Settings(visibility, widths);
  }

  /** A settings object without a valid visibility or widths part leaves
      the defaults as they are. */
  lemma NoPartsKeepDefaults(
    cols: seq<Column>, dv: map<string, bool>, dw: map<string, int>, settings: Val,
    minFallback: int, maxFallback: Option<int>)
    requires ConfigFits(cols, dv) && ConfigFits(cols, dw)
    requires !HasPart(settings, "visibility") && !HasPart(settings, "widths")
    ensures VisibilityFrom(dv, cols, dv, settings)
    ensures WidthsFrom(dw, cols, dw, settings, minFallback, maxFallback)
  {
  }

  /** The default widths lie within the configured bounds. */
  lemma DefaultWidthsWithinBounds()
    ensures WidthsWithinBounds(DefaultWidths)
  {
    DefaultsOfColumns();
    ConfigDefaultsWithinBounds();
  }

  /** The defaults are what the validation yields for an object without
      settings, and they keep the widths within bounds. */
  lemma DefaultsAreValidated()
    ensures ConfigFits(ColumnConfig, DefaultVisibility) && ConfigFits(ColumnConfig, DefaultWidths)
    ensures VisibilityFrom(DefaultVisibility, ColumnConfig, DefaultVisibility, Obj(map[]))
    ensures WidthsFrom(DefaultWidths, ColumnConfig, DefaultWidths, Obj(map[]), 0, None)
    ensures WidthsWithinBounds(DefaultWidths)
  {
    ConfigFitsDefaults();
    NoPartsKeepDefaults(ColumnConfig, DefaultVisibility, DefaultWidths, Obj(map[]), 0, None);
    DefaultWidthsWithinBounds();
  }

  /** `loadColumnSettings()`: the saved settings validated against the
      configuration, widths clamped to [minWidth || 0, maxWidth || Infinity];
      the defaults when nothing was saved or it does not parse. */
  method LoadColumnSettings(saved: Stored) returns (s: Settings)
    ensures ConfigFits(ColumnConfig, DefaultVisibility) && ConfigFits(ColumnConfig, DefaultWidths)
    ensures !saved.Parsed? ==> s == DefaultSettings
    ensures saved.Parsed? ==>
      && VisibilityFrom(s.visibility, ColumnConfig, DefaultVisibility, saved.value)
      && WidthsFrom(s.widths, ColumnConfig, DefaultWidths, saved.value, 0, None)
    ensures WidthsWithinBounds(s.widths)
  {
    ConfigFitsDefaults();
    if saved.Parsed? {
      s := ValidateSettings(saved.value, 0, None);
    } else {
      DefaultsAreValidated();
      s := DefaultSettings;
    }
  }
}
