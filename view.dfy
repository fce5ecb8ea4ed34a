/** app.jsx: what the table shows (`processedModules`) and the learned
    statistics (`stats`). Case folding and locale-aware comparison are not
    modelled character by character: `toLowerCase` and `localeCompare` in
    the current language are parameters, and the sort is proved sorted for
    any comparison that answers the opposite when its arguments are
    swapped. */
module View {
  import Text
  import opened Json
  import opened Records
  import opened Columns
  import opened Hooks
  import opened Lists

  /** `String.prototype.toLowerCase` and `localeCompare(…, language)`. */
  datatype TextOps = TextOps(lower: string -> string, compare: (string, string) -> int)

  // ---------------------------------------------------------------------
  // Filtering

  /** The search predicate for a lower-cased, non-empty term. */
  predicate SearchHit(m: Module, term: string, lower: string -> string)
  {
    || Text.Contains(lower(m.ruName), term)
    || (m.enName != "" && Text.Contains(lower(m.enName), term))
    || (m.effect != "" && Text.Contains(lower(m.effect), term))
  }

  /** The learned filter: 'learned', 'notLearned', or anything else for all. */
  predicate LearnedFilterHit(m: Module, filter: string)
  {
    if filter == "learned" then m.learned
    else if filter == "notLearned" then !m.learned
    else true
  }

  /** `selectedStars === null || m.stars === selectedStars`. */
  predicate StarsHit(m: Module, selectedStars: Option<int>)
  {
    selectedStars.None? || m.stars == selectedStars.value
  }

  /** An entry shown by the three filters together. */
  predicate Shown(m: Module, term: string, filter: string, selectedStars: Option<int>, lower: string -> string)
  {
    (term == "" || SearchHit(m, term, lower)) && LearnedFilterHit(m, filter) && StarsHit(m, selectedStars)
  }

  /** One filter stage: every element it keeps passes, it keeps every
      passing element as often as it occurs, and it adds nothing. */
  lemma FilterStage(s: seq<Module>, p: Module -> bool)
    ensures forall x :: x in Filter(s, p) ==> p(x)
    ensures forall x :: p(x) ==> multiset(Filter(s, p))[x] == multiset(s)[x]
    ensures multiset(Filter(s, p)) <= multiset(s)
  {
    var r := Filter(s, p);
    forall x | x in r ensures p(x) {
      var i :| 0 <= i < |r| && r[i] == x;
    }
    forall x | p(x) ensures multiset(r)[x] == multiset(s)[x] {
      FilterKeeps(s, p, x);
    }
  }

  /** The search: everything for an empty term. */
  function Searched(ms: seq<Module>, term: string, lower: string -> string): (r: seq<Module>)
    ensures forall x :: x in r ==> term == "" || SearchHit(x, term, lower)
    ensures forall x :: (term == "" || SearchHit(x, term, lower)) ==> multiset(r)[x] == multiset(ms)[x]
    ensures multiset(r) <= multiset(ms)
  {
    if term == "" then ms
    else
      FilterStage(ms, m => SearchHit(m, term, lower));
      Filter(ms, m => SearchHit(m, term, lower))
  }

  /** The `switch (filter)`. */
  function ByLearned(ms: seq<Module>, filter: string): (r: seq<Module>)
    ensures forall x :: x in r ==> LearnedFilterHit(x, filter)
    ensures forall x :: LearnedFilterHit(x, filter) ==> multiset(r)[x] == multiset(ms)[x]
    ensures multiset(r) <= multiset(ms)
  {
    if filter == "learned" then
      FilterStage(ms, (m: Module) => m.learned);
      Filter(ms, (m: Module) => m.learned)
    else if filter == "notLearned" then
      FilterStage(ms, (m: Module) => !m.learned);
      Filter(ms, (m: Module) => !m.learned)
    else ms
  }

  /** The star filter, when a star count is selected. */
  function ByStars(ms: seq<Module>, selectedStars: Option<int>): (r: seq<Module>)
    ensures forall x :: x in r ==> StarsHit(x, selectedStars)
    ensures forall x :: StarsHit(x, selectedStars) ==> multiset(r)[x] == multiset(ms)[x]
    ensures multiset(r) <= multiset(ms)
  {
    if selectedStars.Some? then
      FilterStage(ms, (m: Module) => m.stars == selectedStars.value);
      Filter(ms, (m: Module) => m.stars == selectedStars.value)
    else ms
  }

  /** The three filters of `processedModules`, applied one after the other. */
  function Filtered(ms: seq<Module>, term: string, filter: string, selectedStars: Option<int>, lower: string -> string): seq<Module>
  {
    ByStars(ByLearned(Searched(ms, term, lower), filter), selectedStars)
  }

  /** The three filters in a row keep exactly the entries shown: nothing
      else, and each shown entry as often as it occurs in the list. */
  lemma FilteredSelection(ms: seq<Module>, term: string, filter: string, selectedStars: Option<int>, lower: string -> string)
    ensures var r := Filtered(ms, term, filter, selectedStars, lower);
      && (forall x :: x in r ==> Shown(x, term, filter, selectedStars, lower))
      && (forall x :: Shown(x, term, filter, selectedStars, lower) ==> multiset(r)[x] == multiset(ms)[x])
      && multiset(r) <= multiset(ms)
  {
    var searched := Searched(ms, term, lower);
    var filtered := ByLearned(searched, filter);
    var r := ByStars(filtered, selectedStars);
    forall x | x in r ensures Shown(x, term, filter, selectedStars, lower) {
      assert multiset(r)[x] > 0;
      assert x in filtered;
      assert multiset(filtered)[x] > 0;
      assert x in searched;
    }
  }

  // ---------------------------------------------------------------------
  // Sorting

  /** A value read as `a[sortKey]`. */
  datatype FieldValue = TextField(s: string) | CountField(n: int) | FlagField(b: bool)

  /** `a[sortKey]`: the six fields of an entry; any other key reads as
      `undefined`. */
  function FieldOf(m: Module, key: string): (r: Option<FieldValue>)
    ensures r.None? <==> key !in {"ruName", "enName", "effect", "stars", "learned", "isCustom"}
  {
    if key == "ruName" then Some(TextField(m.ruName))
    else if key == "enName" then Some(TextField(m.enName))
    else if key == "effect" then Some(TextField(m.effect))
    else if key == "stars" then Some(CountField(m.stars))
    else if key == "learned" then Some(FlagField(m.learned))
    else if key == "isCustom" then Some(FlagField(m.isCustom))
    else None
  }

  /** `String(v ?? '')`. */
  function StringKey(f: Option<FieldValue>): string
  {
    match f
    case None => ""
    case Some(TextField(s)) => s
    case Some(CountField(n)) => Text.IntToString(n)
    case Some(FlagField(b)) => if b then "true" else "false"
  }

  /** `Number(v ?? 0)`. */
  function NumberKey(f: Option<FieldValue>): int
  {
    match f
    case None => 0
    case Some(CountField(n)) => n
    case Some(FlagField(b)) => if b then 1 else 0
    case Some(TextField(_)) => 0
  }

  /** `Boolean(v)`. */
  function BoolKey(f: Option<FieldValue>): bool
  {
    match f
    case None => false
    case Some(TextField(s)) => s != ""
    case Some(CountField(n)) => n != 0
    case Some(FlagField(b)) => b
  }

  function BoolToInt(b: bool): int
  {
    if b then 1 else 0
  }

  /** `columnConfig.find(c => c.id === sortKey)?.type || 'string'`. */
  function ColumnKind(key: string): ColumnType
  {
    match FindColumn(key)
    case Some(c) => c.kind
    case None => StringColumn
  }

  /** The comparison of the sort key for the column's type, before the
      direction is applied; 0 means a tie and columns of other types always
      tie. */
  function PrimaryCompare(a: Module, b: Module, key: string, ops: TextOps): int
  {
    var fa, fb := FieldOf(a, key), FieldOf(b, key);
    match ColumnKind(key)
    case StringColumn => ops.compare(ops.lower(StringKey(fa)), ops.lower(StringKey(fb)))
    case NumberColumn => NumberKey(fa) - NumberKey(fb)
    case BooleanColumn => BoolToInt(BoolKey(fa)) - BoolToInt(BoolKey(fb))
    case _ => 0
  }

  /** The comparator of `processedModules`: the sort key in the sort
      direction, ties broken by `ruName` in the current language, always
      ascending. */
  function Compare(a: Module, b: Module, sort: SortConfig, ops: TextOps): int
  {
    var mult := if sort.direction == Asc then 1 else -1;
    var primary := PrimaryCompare(a, b, sort.key, ops);
    if primary != 0 then primary * mult else ops.compare(a.ruName, b.ruName)
  }

  /** The comparator answers the opposite when its arguments are swapped,
      whenever the locale comparison does. */
  lemma CompareAntisymmetric(sort: SortConfig, ops: TextOps)
    requires Antisymmetric(ops.compare)
    ensures Antisymmetric((a: Module, b: Module) => Compare(a, b, sort, ops))
  {
    forall a: Module, b: Module ensures Sign(Compare(a, b, sort, ops)) == -Sign(Compare(b, a, sort, ops)) {
      CompareSwap(a, b, sort, ops);
    }
  }

  lemma CompareSwap(a: Module, b: Module, sort: SortConfig, ops: TextOps)
    requires Antisymmetric(ops.compare)
    ensures Sign(Compare(a, b, sort, ops)) == -Sign(Compare(b, a, sort, ops))
  {
    PrimarySwap(a, b, sort.key, ops);
    assert Sign(ops.compare(a.ruName, b.ruName)) == -Sign(ops.compare(b.ruName, a.ruName));
  }

  lemma PrimarySwap(a: Module, b: Module, key: string, ops: TextOps)
    requires Antisymmetric(ops.compare)
    ensures Sign(PrimaryCompare(a, b, key, ops)) == -Sign(PrimaryCompare(b, a, key, ops))
  {
    var fa, fb := FieldOf(a, key), FieldOf(b, key);
    match ColumnKind(key)
    case StringColumn =>
      assert Sign(ops.compare(ops.lower(StringKey(fa)), ops.lower(StringKey(fb)))) ==
        -Sign(ops.compare(ops.lower(StringKey(fb)), ops.lower(StringKey(fa))));
    case NumberColumn =>
    case BooleanColumn =>
    case _ =>
  }

  /** The comparator chains "at most equal" whenever the locale comparison
      does and answers the opposite when its arguments are swapped. */
  lemma CompareTransitive(sort: SortConfig, ops: TextOps)
    requires Antisymmetric(ops.compare) && Transitive(ops.compare)
    ensures Transitive((a: Module, b: Module) => Compare(a, b, sort, ops))
  {
    forall a: Module, b: Module, c: Module
      ensures Compare(a, b, sort, ops) <= 0 && Compare(b, c, sort, ops) <= 0 ==> Compare(a, c, sort, ops) <= 0
    {
      CompareTrans(a, b, c, sort, ops);
    }
  }

  lemma CompareTrans(a: Module, b: Module, c: Module, sort: SortConfig, ops: TextOps)
    requires Antisymmetric(ops.compare) && Transitive(ops.compare)
    ensures Compare(a, b, sort, ops) <= 0 && Compare(b, c, sort, ops) <= 0 ==> Compare(a, c, sort, ops) <= 0
  {
    var key := sort.key;
    PrimarySwap(a, b, key, ops);
    PrimarySwap(b, c, key, ops);
    PrimarySwap(a, c, key, ops);
    PrimaryTrans(a, b, c, key, ops);
    PrimaryTrans(a, c, b, key, ops);
    PrimaryTrans(b, a, c, key, ops);
    PrimaryTrans(b, c, a, key, ops);
    PrimaryTrans(c, a, b, key, ops);
    PrimaryTrans(c, b, a, key, ops);
    assert ops.compare(a.ruName, b.ruName) <= 0 && ops.compare(b.ruName, c.ruName) <= 0 ==>
      ops.compare(a.ruName, c.ruName) <= 0;
  }

  /** The primary comparison chains "at most equal" when the locale
      comparison does. */
  lemma PrimaryTrans(a: Module, b: Module, c: Module, key: string, ops: TextOps)
    requires Transitive(ops.compare)
    ensures PrimaryCompare(a, b, key, ops) <= 0 && PrimaryCompare(b, c, key, ops) <= 0 ==>
      PrimaryCompare(a, c, key, ops) <= 0
  {
    var fa, fb, fc := FieldOf(a, key), FieldOf(b, key), FieldOf(c, key);
    match ColumnKind(key)
    case StringColumn =>
      var x, y, z := ops.lower(StringKey(fa)), ops.lower(StringKey(fb)), ops.lower(StringKey(fc));
      assert ops.compare(x, y) <= 0 && ops.compare(y, z) <= 0 ==> ops.compare(x, z) <= 0;
    case NumberColumn =>
    case BooleanColumn =>
    case _ =>
  }

  /** `processedModules`: nothing while loading; otherwise the entries the
      search, the learned filter and the star filter keep, sorted. */
  function ProcessedModules(
    isLoading: bool, ms: seq<Module>, searchTerm: string, filter: string,
    selectedStars: Option<int>, sort: SortConfig, ops: TextOps): (r: seq<Module>)
    ensures isLoading ==> r == []
  {
    if isLoading then []
    else
      var filtered := Filtered(ms, ops.lower(searchTerm), filter, selectedStars, ops.lower);
      SortBy(filtered, (a: Module, b: Module) => Compare(a, b, sort, ops))
  }

  /** Once loaded, the table shows exactly the entries that pass the three
      filters, each as often as it occurs in the list, sorted by the
      comparator whenever the locale comparison is antisymmetric, and in
      order between any two positions when it is also transitive. */
  lemma ProcessedIsSortedSelection(
    ms: seq<Module>, searchTerm: string, filter: string,
    selectedStars: Option<int>, sort: SortConfig, ops: TextOps)
    ensures var r := ProcessedModules(false, ms, searchTerm, filter, selectedStars, sort, ops);
      var term := ops.lower(searchTerm);
      && (forall x :: x in r ==> Shown(x, term, filter, selectedStars, ops.lower))
      && (forall x :: Shown(x, term, filter, selectedStars, ops.lower) ==> multiset(r)[x] == multiset(ms)[x])
      && multiset(r) <= multiset(ms)
      && (Antisymmetric(ops.compare) ==> Sorted(r, (a: Module, b: Module) => Compare(a, b, sort, ops)))
      && (Antisymmetric(ops.compare) && Transitive(ops.compare) ==>
            forall i, j :: 0 <= i < j < |r| ==> Compare(r[i], r[j], sort, ops) <= 0)
  {
    var term := ops.lower(searchTerm);
    var filtered := Filtered(ms, term, filter, selectedStars, ops.lower);
    var cmp := (a: Module, b: Module) => Compare(a, b, sort, ops);
    FilteredSelection(ms, term, filter, selectedStars, ops.lower);
    var r := SortBy(filtered, cmp);
    assert r == ProcessedModules(false, ms, searchTerm, filter, selectedStars, sort, ops);
    forall x | x in r ensures x in filtered {
      assert multiset(r)[x] > 0;
    }
    if Antisymmetric(ops.compare) {
      CompareAntisymmetric(sort, ops);
      SortBySorted(filtered, cmp);
      if Transitive(ops.compare) {
        CompareTransitive(sort, ops);
        SortedAllPairs(r, cmp);
      }
    }
  }

  /** Sorting on a column that is not a field of the entries leaves every
      primary comparison tied, so the table is ordered by `ruName`
      whichever direction is chosen. An entry here has only its six
      fields, so 'name' and 'module_materials' are such columns; a catalog
      entry that carried either field would be sorted on it. */
  lemma NonFieldSortIgnoresDirection(
    ms: seq<Module>, searchTerm: string, filter: string,
    selectedStars: Option<int>, key: string, ops: TextOps)
    requires key !in {"ruName", "enName", "effect", "stars", "learned", "isCustom"}
    requires Antisymmetric(ops.compare)
    ensures ProcessedModules(false, ms, searchTerm, filter, selectedStars, SortConfig(key, Asc), ops) ==
      ProcessedModules(false, ms, searchTerm, filter, selectedStars, SortConfig(key, Desc), ops)
    ensures forall a: Module, b: Module :: Compare(a, b, SortConfig(key, Asc), ops) == ops.compare(a.ruName, b.ruName)
  {
    forall a: Module, b: Module ensures Compare(a, b, SortConfig(key, Asc), ops) == ops.compare(a.ruName, b.ruName)
      && Compare(a, b, SortConfig(key, Desc), ops) == ops.compare(a.ruName, b.ruName)
    {
      assert Sign(ops.compare(ops.lower(""), ops.lower(""))) == -Sign(ops.compare(ops.lower(""), ops.lower("")));
      assert PrimaryCompare(a, b, key, ops) == 0;
    }
    var filtered := Filtered(ms, ops.lower(searchTerm), filter, selectedStars, ops.lower);
    SortBySameOrder(filtered,
      (a: Module, b: Module) => Compare(a, b, SortConfig(key, Asc), ops),
      (a: Module, b: Module) => Compare(a, b, SortConfig(key, Desc), ops));
  }

  /** The sortable columns of the configuration that are not among the six
      fields of an entry. */
  lemma NameColumnsAreNotFields()
    ensures FindColumn("name").Some? && FindColumn("name").value.sortable
    ensures FindColumn("module_materials").Some? && FindColumn("module_materials").value.sortable
    ensures forall m: Module :: FieldOf(m, "name").None? && FieldOf(m, "module_materials").None?
  {
    FindColumnAt(1);
    FindColumnAt(4);
    NameColumnsHaveNoField();
  }

  lemma NameColumnsHaveNoField()
    ensures forall m: Module :: FieldOf(m, "name").None? && FieldOf(m, "module_materials").None?
  {
  }

  // ---------------------------------------------------------------------
  // Statistics

  datatype Stats = Stats(totalCount: nat, learnedCount: nat)

  /** `stats`: zeros while loading; otherwise the list length and the
      number of learned entries. */
  function ComputeStats(isLoading: bool, ms: seq<Module>): (r: Stats)
    ensures r.learnedCount <= r.totalCount
    ensures isLoading ==> r == Stats(0, 0)
    ensures !isLoading ==> r.totalCount == |ms|
  {
    if isLoading then Stats(0, 0)
    else Stats(|ms|, |Filter(ms, (m: Module) => m.learned)|)
  }

  /** The learned count is the number of learned entries. */
  lemma {:induction false} StatsCountLearned(ms: seq<Module>)
    ensures ComputeStats(false, ms).learnedCount == LearnedCount(ms)
  {
    if ms != [] {
      StatsCountLearned(ms[1..]);
    }
  }

  /** Toggling one entry's learned mark moves the learned count by one. */
  lemma StatsAfterToggle(ms: seq<Module>, i: int)
    requires 0 <= i < |ms|
    ensures var t := ms[i := ms[i].(learned := !ms[i].learned)];
      ComputeStats(false, t).learnedCount ==
        ComputeStats(false, ms).learnedCount + (if ms[i].learned then -1 else 1)
  {
    var t := ms[i := ms[i].(learned := !ms[i].learned)];
    StatsCountLearned(ms);
    StatsCountLearned(t);
    LearnedCountUpdate(ms, i);
  }

  lemma {:induction false} LearnedCountUpdate(ms: seq<Module>, i: int)
    requires 0 <= i < |ms|
    ensures LearnedCount(ms[i := ms[i].(learned := !ms[i].learned)]) ==
      LearnedCount(ms) + (if ms[i].learned then -1 else 1)
  {
    var t := ms[i := ms[i].(learned := !ms[i].learned)];
    if i > 0 {
      assert t[1..] == ms[1..][i - 1 := ms[i].(learned := !ms[i].learned)];
      LearnedCountUpdate(ms[1..], i - 1);
    } else {
      assert t[1..] == ms[1..];
    }
  }
}
