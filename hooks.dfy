/** hooks.js: the state hooks of the table and of the edit modal, and the
    handlers that change the module list. Notifications are modelled as a
    `Notice` value the handler returns; their text and their timers are not
    part of this model. */
module Hooks {
  import opened Json
  import opened OrderedMaps
  import opened Records
  import opened Columns
  import opened Utils

  // ---------------------------------------------------------------------
  // useTableState

  datatype Direction = Asc | Desc

  /** `sortConfig`: the column id sorted on and the direction. */
  datatype SortConfig = SortConfig(key: string, direction: Direction)

  const DefaultSort := SortConfig("stars", Asc)

  /** A user-visible notice: which error, or success. */
  datatype Notice = ErrorNotice(reason: Reject) | SuccessNotice

  /** The sort state after a click on the header of `columnId`: a click on
      the column already sorted ascending sorts it descending, any other
      click sorts the clicked column ascending. */
  function NextSort(prev: SortConfig, columnId: string): (r: SortConfig)
    ensures r.key == columnId
    ensures r.direction == Desc <==> prev.key == columnId && prev.direction == Asc
  {
    SortConfig(columnId, if prev.key == columnId && prev.direction == Asc then Desc else Asc)
  }

  /** Two clicks on the column already sorted on bring the direction back. */
  lemma NextSortTwice(prev: SortConfig, columnId: string)
    requires prev.key == columnId
    ensures NextSort(NextSort(prev, columnId), columnId) == prev
  {
  }

  /** The visibility map after the toggle of `columnId`: that column's flag
      negated (a missing flag reads as hidden, so it becomes shown), every
      other flag as it was. */
  function ToggleVisibility(visibility: map<string, bool>, columnId: string): (r: map<string, bool>)
    ensures r.Keys == visibility.Keys + {columnId}
    ensures r[columnId] == !(columnId in visibility && visibility[columnId])
    ensures forall id :: id in visibility && id != columnId ==> r[id] == visibility[id]
  {
    visibility[columnId := !(columnId in visibility && visibility[columnId])]
  }

  /** Toggling a column twice restores its flag. */
  lemma ToggleVisibilityTwice(visibility: map<string, bool>, columnId: string)
    requires columnId in visibility
    ensures ToggleVisibility(ToggleVisibility(visibility, columnId), columnId) == visibility
  {
    var once := ToggleVisibility(visibility, columnId);
    var twice := ToggleVisibility(once, columnId);
    assert twice.Keys == visibility.Keys;
  }

  /** The state held by `useTableState`: the column settings and the sort. */
  class TableState {
    var settings: Settings
    var sortConfig: SortConfig

    /** The settings loaded from local storage, sorted on stars ascending. */
    constructor(saved: Stored)
      ensures ConfigFits(ColumnConfig, DefaultVisibility) && ConfigFits(ColumnConfig, DefaultWidths)
      ensures !saved.Parsed? ==> settings == DefaultSettings
      ensures saved.Parsed? ==>
        && VisibilityFrom(settings.visibility, ColumnConfig, DefaultVisibility, saved.value)
        && WidthsFrom(settings.widths, ColumnConfig, DefaultWidths, saved.value, 0, None)
      ensures WidthsWithinBounds(settings.widths)
      ensures sortConfig == DefaultSort
    {
      var loaded := LoadColumnSettings(saved);
      settings := loaded;
      sortConfig := DefaultSort;
    }

    /** `handleVisibilityChange(columnId)`. */
    method HandleVisibilityChange(columnId: string)
      modifies this
      ensures settings == old(settings).(visibility := ToggleVisibility(old(settings.visibility), columnId))
      ensures sortConfig == old(sortConfig)
    {
      settings := settings.(visibility := ToggleVisibility(settings.visibility, columnId));
    }

    /** `handleSort(columnId)`. */
    method HandleSort(columnId: string)
      modifies this
      ensures sortConfig == NextSort(old(sortConfig), columnId)
      ensures settings == old(settings)
    {
      sortConfig := NextSort(sortConfig, columnId);
    }

    /** `handleResetSettings()`: back to the default maps, with a success
      notice. */
    method HandleResetSettings() returns (notice: Notice)
      modifies this
      ensures settings == DefaultSettings
      ensures sortConfig == old(sortConfig)
      ensures notice == SuccessNotice
    {
      settings := DefaultSettings;
      notice := SuccessNotice;
    }

    /** `applyImportedSettings(importedSettings)`: ignored unless it is an
      object; otherwise validated like saved settings but with widths
      clamped to [minWidth || 50, maxWidth || 600]. */
    method ApplyImportedSettings(imported: Val)
      modifies this
      ensures !(Truthy(imported) && IsObject(imported)) ==> settings == old(settings)
      ensures Truthy(imported) && IsObject(imported) ==>
        && ConfigFits(ColumnConfig, DefaultVisibility) && ConfigFits(ColumnConfig, DefaultWidths)
        && VisibilityFrom(settings.visibility, ColumnConfig, DefaultVisibility, imported)
        && WidthsFrom(settings.widths, ColumnConfig, DefaultWidths, imported, 50, Some(600))
        && WidthsWithinBounds(settings.widths)
      ensures sortConfig == old(sortConfig)
    {
      if !(Truthy(imported) && IsObject(imported)) {
        return;
      }
      var validated := ValidateSettings(imported, 50, Some(600));
      settings := validated;
    }
  }

  // ---------------------------------------------------------------------
  // useModalState

  /** The edit modal: open or closed, and the entry being edited (`None`
      in add mode). */
  class ModalState {
    var isModalOpen: bool
    var itemBeingEdited: Option<Module>

    constructor()
      ensures !isModalOpen && itemBeingEdited == None
    {
      isModalOpen := false;
      itemBeingEdited := None;
    }

    /** `openModal(item)`. */
    method OpenModal(item: Option<Module>)
      modifies this
      ensures isModalOpen && itemBeingEdited == item
    {
      itemBeingEdited := item;
      isModalOpen := true;
    }

    /** `closeModal()`: closed, and back to add mode. */
    method CloseModal()
      modifies this
      ensures !isModalOpen && itemBeingEdited == None
    {
      isModalOpen := false;
      itemBeingEdited := None;
    }
  }

  // ---------------------------------------------------------------------
  // useModuleManagement

  /** The add/edit form's fields. */
  datatype Form = Form(ruName: string, enName: string, stars: int, effect: string)

  /** Why a handler refused the form. */
  datatype Reject = MissingFields | DuplicateKey

  /** The outcome of a handler: the new list, or the list left as it was
      and the reason shown to the user. */
  datatype Outcome = Done(modules: seq<Module>) | Rejected(reason: Reject)

  /** The entry identified by the pair `(ruName, stars)`. */
  predicate Matches(m: Module, ruName: string, stars: int)
  {
    m.ruName == ruName && m.stars == stars
  }

  /** `!ruName || !stars || !effect`. */
  predicate MissingRequired(form: Form)
  {
    form.ruName == "" || form.stars == 0 || form.effect == ""
  }

  function FormKey(form: Form): string
  {
    KeyString(Key(form.ruName, form.stars))
  }

  /** `handleLearnedChange(ruName, stars)`: the entries with that name and
      star count have `learned` flipped; every other entry, the length and
      the order stay as they were. */
  function ToggleLearned(ms: seq<Module>, ruName: string, stars: int): (r: seq<Module>)
    ensures |r| == |ms|
    ensures forall i :: 0 <= i < |ms| && Matches(ms[i], ruName, stars) ==>
      r[i] == ms[i].(learned := !ms[i].learned)
    ensures forall i :: 0 <= i < |ms| && !Matches(ms[i], ruName, stars) ==> r[i] == ms[i]
  {
    seq(|ms|, i requires 0 <= i < |ms| =>
      if Matches(ms[i], ruName, stars) then ms[i].(learned := !ms[i].learned) else ms[i])
  }

  /** Flipping twice restores the list. */
  lemma ToggleLearnedTwice(ms: seq<Module>, ruName: string, stars: int)
    ensures ToggleLearned(ToggleLearned(ms, ruName, stars), ruName, stars) == ms
  {
    var twice := ToggleLearned(ToggleLearned(ms, ruName, stars), ruName, stars);
    forall i | 0 <= i < |ms| ensures twice[i] == ms[i] {
    }
  }

  /** Flipping keeps every key, so it keeps the keys unique. */
  lemma ToggleLearnedKeys(ms: seq<Module>, ruName: string, stars: int)
    ensures Keys(ToggleLearned(ms, ruName, stars)) == Keys(ms)
    ensures UniqueKeys(ms) ==> UniqueKeys(ToggleLearned(ms, ruName, stars))
  {
    var r := ToggleLearned(ms, ruName, stars);
    forall i | 0 <= i < |ms| ensures KeyText(r[i]) == KeyText(ms[i]) {
    }
  }

  /** The number of learned entries among those matching the pair. */
  function LearnedMatching(ms: seq<Module>, ruName: string, stars: int): (n: nat)
    ensures n <= MatchCount(ms, ruName, stars)
  {
    if ms == [] then 0
    else (if Matches(ms[0], ruName, stars) && ms[0].learned then 1 else 0) + LearnedMatching(ms[1..], ruName, stars)
  }

  /** The number of entries matching the pair. */
  function MatchCount(ms: seq<Module>, ruName: string, stars: int): nat
  {
    if ms == [] then 0
    else (if Matches(ms[0], ruName, stars) then 1 else 0) + MatchCount(ms[1..], ruName, stars)
  }

  /** Flipping changes the learned count by the matching entries only:
      the learned ones become unlearned and the others learned. */
  lemma {:induction false} ToggleLearnedCount(ms: seq<Module>, ruName: string, stars: int)
    ensures LearnedCount(ToggleLearned(ms, ruName, stars)) ==
      LearnedCount(ms) + MatchCount(ms, ruName, stars) - 2 * LearnedMatching(ms, ruName, stars)
  {
    if ms != [] {
      ToggleLearnedCount(ms[1..], ruName, stars);
      assert ToggleLearned(ms, ruName, stars)[1..] == ToggleLearned(ms[1..], ruName, stars);
    }
  }

  /** The entry an accepted form adds: learned and custom. */
  function NewModule(form: Form): (m: Module)
    ensures KeyText(m) == FormKey(form)
    ensures m.learned && m.isCustom
  {
    Module(form.ruName, form.stars, form.enName, form.effect, true, true)
  }

  /** `handleAddNewModule(_, newModuleData)`: refused when a required field
      is empty or the key is taken; otherwise the new entry is appended. */
  function AddModule(ms: seq<Module>, form: Form): (r: Outcome)
    ensures r.Rejected? <==> MissingRequired(form) || HasKey(ms, FormKey(form))
    ensures r == Rejected(MissingFields) <==> MissingRequired(form)
    ensures r.Done? ==> r.modules == ms + [NewModule(form)]
  {
    if MissingRequired(form) then Rejected(MissingFields)
    else if HasKey(ms, FormKey(form)) then Rejected(DuplicateKey)
    else Done(ms + [NewModule(form)])
  }

  /** An accepted addition keeps the keys unique. */
  lemma AddKeepsUnique(ms: seq<Module>, form: Form)
    requires UniqueKeys(ms) && AddModule(ms, form).Done?
    ensures UniqueKeys(AddModule(ms, form).modules)
  {
    var r := AddModule(ms, form).modules;
    forall i, j | 0 <= i < j < |r| ensures KeyText(r[i]) != KeyText(r[j]) {
      if j == |ms| {
        assert r[i] == ms[i];
        assert !HasKey(ms, FormKey(form));
      }
    }
  }

  /** The merge `{ ...m, ...updatedData }` of the form over an entry: the
      form's four fields replace the entry's, `learned` and `isCustom`
      stay. */
  function ApplyForm(m: Module, form: Form): (r: Module)
    ensures KeyText(r) == FormKey(form)
    ensures r.learned == m.learned && r.isCustom == m.isCustom
  {
    m.(ruName := form.ruName, enName := form.enName, stars := form.stars, effect := form.effect)
  }

  /** `handleSaveChangesInModal(originalKey, updatedData)`: refused when a
      required field is empty, or when the key changes to one that is
      taken; otherwise the form is merged over every entry with the
      original key and the rest stays as it was. */
  function SaveChanges(ms: seq<Module>, originalKey: string, form: Form): (r: Outcome)
    ensures r == Rejected(MissingFields) <==> MissingRequired(form)
    ensures r == Rejected(DuplicateKey) <==>
      !MissingRequired(form) && originalKey != FormKey(form) && HasKey(ms, FormKey(form))
    ensures r.Done? ==> |r.modules| == |ms|
    ensures r.Done? ==> forall i :: 0 <= i < |ms| ==>
      r.modules[i] == if KeyText(ms[i]) == originalKey then ApplyForm(ms[i], form) else ms[i]
  {
    if MissingRequired(form) then Rejected(MissingFields)
    else if originalKey != FormKey(form) && HasKey(ms, FormKey(form)) then Rejected(DuplicateKey)
    else Done(seq(|ms|, i requires 0 <= i < |ms| =>
      if KeyText(ms[i]) == originalKey then ApplyForm(ms[i], form) else ms[i]))
  }

  /** An accepted edit keeps the keys unique. */
  lemma EditKeepsUnique(ms: seq<Module>, originalKey: string, form: Form)
    requires UniqueKeys(ms) && SaveChanges(ms, originalKey, form).Done?
    ensures UniqueKeys(SaveChanges(ms, originalKey, form).modules)
  {
    var r := SaveChanges(ms, originalKey, form).modules;
    var newKey := FormKey(form);
    forall i, j | 0 <= i < j < |r| ensures KeyText(r[i]) != KeyText(r[j]) {
      var ci, cj := KeyText(ms[i]) == originalKey, KeyText(ms[j]) == originalKey;
      if ci && !cj {
        if newKey != originalKey {
          assert !HasKey(ms, newKey);
          assert KeyText(ms[j]) != newKey;
        }
      } else if !ci && cj {
        if newKey != originalKey {
          assert !HasKey(ms, newKey);
          assert KeyText(ms[i]) != newKey;
        }
      }
    }
  }

  /** `prev.filter(m => !(m.ruName === ruName && m.stars === stars))`. */
  function RemoveMatching(ms: seq<Module>, ruName: string, stars: int): (r: seq<Module>)
    ensures |r| == |ms| - MatchCount(ms, ruName, stars)
  {
    if ms == [] then []
    else (if Matches(ms[0], ruName, stars) then [] else [ms[0]]) + RemoveMatching(ms[1..], ruName, stars)
  }

  /** The entries kept are exactly those of the list that do not match. */
  lemma {:induction false} RemoveMatchingMembers(ms: seq<Module>, ruName: string, stars: int)
    ensures forall m :: m in RemoveMatching(ms, ruName, stars) <==> m in ms && !Matches(m, ruName, stars)
  {
    if ms != [] {
      RemoveMatchingMembers(ms[1..], ruName, stars);
      assert forall m :: m in ms <==> m == ms[0] || m in ms[1..] by {
        assert ms == [ms[0]] + ms[1..];
      }
    }
  }

  /** `handleDeleteModule(ruName, stars)` with the user's answer to the
      confirmation: the matching entries removed, or nothing changed. */
  function DeleteModule(ms: seq<Module>, ruName: string, stars: int, confirmed: bool): (r: seq<Module>)
    ensures !confirmed ==> r == ms
    ensures confirmed ==> r == RemoveMatching(ms, ruName, stars)
  {
    if confirmed then RemoveMatching(ms, ruName, stars) else ms
  }

  /** Removing nothing keeps the list. */
  lemma {:induction false} RemoveNothing(ms: seq<Module>, ruName: string, stars: int)
    requires forall i :: 0 <= i < |ms| ==> !Matches(ms[i], ruName, stars)
    ensures RemoveMatching(ms, ruName, stars) == ms
  {
    if ms != [] {
      RemoveNothing(ms[1..], ruName, stars);
    }
  }

  lemma {:induction false} RemoveAppend(a: seq<Module>, b: seq<Module>, ruName: string, stars: int)
    ensures RemoveMatching(a + b, ruName, stars) == RemoveMatching(a, ruName, stars) + RemoveMatching(b, ruName, stars)
  {
    if a == [] {
      assert a + b == b;
    } else {
      assert (a + b)[0] == a[0];
      assert (a + b)[1..] == a[1..] + b;
      RemoveAppend(a[1..], b, ruName, stars);
    }
  }

  /** In a list with unique keys no other entry has the pair of entry `i`. */
  lemma OnlyMatch(ms: seq<Module>, i: int)
    requires UniqueKeys(ms) && 0 <= i < |ms|
    ensures forall j :: 0 <= j < |ms| && j != i ==> !Matches(ms[j], ms[i].ruName, ms[i].stars)
  {
    forall j | 0 <= j < |ms| && j != i ensures !Matches(ms[j], ms[i].ruName, ms[i].stars) {
      if j < i {
        assert KeyText(ms[j]) != KeyText(ms[i]);
      } else {
        assert KeyText(ms[i]) != KeyText(ms[j]);
      }
    }
  }

  /** In a list with unique keys, deleting an entry by its pair removes that
      entry alone and keeps the others in order. */
  lemma DeleteUnique(ms: seq<Module>, i: int)
    requires UniqueKeys(ms) && 0 <= i < |ms|
    ensures DeleteModule(ms, ms[i].ruName, ms[i].stars, true) == ms[..i] + ms[i + 1..]
  {
    OnlyMatch(ms, i);
    RemoveOnlyMatch(ms, i);
  }

  /** When entry `i` alone has its pair, removing that pair removes just it. */
  lemma {:induction false} RemoveOnlyMatch(ms: seq<Module>, i: int)
    requires 0 <= i < |ms|
    requires forall j :: 0 <= j < |ms| && j != i ==> !Matches(ms[j], ms[i].ruName, ms[i].stars)
    ensures RemoveMatching(ms, ms[i].ruName, ms[i].stars) == ms[..i] + ms[i + 1..]
  {
    var ruName, stars := ms[i].ruName, ms[i].stars;
    var tail := ms[1..];
    if i == 0 {
      forall j | 0 <= j < |tail| ensures !Matches(tail[j], ruName, stars) {
        assert tail[j] == ms[j + 1];
      }
      RemoveNothing(tail, ruName, stars);
    } else {
      forall j | 0 <= j < |tail| && j != i - 1 ensures !Matches(tail[j], ruName, stars) {
        assert tail[j] == ms[j + 1];
      }
      assert tail[i - 1] == ms[i];
      RemoveOnlyMatch(tail, i - 1);
      assert !Matches(ms[0], ruName, stars);
      assert tail[..i - 1] + tail[i..] == ms[1..i] + ms[i + 1..];
      assert [ms[0]] + ms[1..i] == ms[..i];
    }
  }

  /** Deleting what was just added gives back the list as it was. */
  lemma AddThenDelete(ms: seq<Module>, form: Form)
    requires AddModule(ms, form).Done?
    ensures DeleteModule(AddModule(ms, form).modules, form.ruName, form.stars, true) == ms
  {
    assert !HasKey(ms, FormKey(form));
    forall i | 0 <= i < |ms| ensures !Matches(ms[i], form.ruName, form.stars) {
      assert KeyText(ms[i]) != FormKey(form);
    }
    RemoveAppend(ms, [NewModule(form)], form.ruName, form.stars);
    RemoveNothing(ms, form.ruName, form.stars);
    assert RemoveMatching([NewModule(form)], form.ruName, form.stars) == [];
  }

  /** The module list as the application holds it, with the handlers of
      `useModuleManagement` and the modal they close on success. */
  class ModuleList {
    var modules: seq<Module>
    var modal: ModalState

    /** No two entries share a key text. */
    ghost predicate Valid()
      reads this
    {
      UniqueKeys(modules)
    }

    constructor(initial: seq<Module>, modal: ModalState)
      requires UniqueKeys(initial)
      ensures Valid() && modules == initial && this.modal == modal
    {
      modules := initial;
      this.modal := modal;
    }

    /** `handleLearnedChange(ruName, stars)`. */
    method HandleLearnedChange(ruName: string, stars: int)
      requires Valid()
      modifies this
      ensures Valid()
      ensures modules == ToggleLearned(old(modules), ruName, stars) && modal == old(modal)
    {
      ToggleLearnedKeys(modules, ruName, stars);
      modules := ToggleLearned(modules, ruName, stars);
    }

    /** `handleAddNewModule(_, form)`: on success the list grows by the new
      entry and the modal closes; on refusal nothing changes. */
    method HandleAddNewModule(form: Form) returns (notice: Notice)
      requires Valid()
      modifies this, modal
      ensures Valid() && modal == old(modal)
      ensures AddModule(old(modules), form).Rejected? ==>
        notice == ErrorNotice(AddModule(old(modules), form).reason) && modules == old(modules) &&
        modal.isModalOpen == old(modal.isModalOpen) && modal.itemBeingEdited == old(modal.itemBeingEdited)
      ensures AddModule(old(modules), form).Done? ==>
        notice == SuccessNotice && modules == AddModule(old(modules), form).modules &&
        !modal.isModalOpen && modal.itemBeingEdited == None
    {
      var outcome := AddModule(modules, form);
      if outcome.Rejected? {
        return ErrorNotice(outcome.reason);
      }
      AddKeepsUnique(modules, form);
      modules := outcome.modules;
      modal.CloseModal();
      return SuccessNotice;
    }

    /** `handleSaveChangesInModal(originalKey, form)`. */
    method HandleSaveChangesInModal(originalKey: string, form: Form) returns (notice: Notice)
      requires Valid()
      modifies this, modal
      ensures Valid() && modal == old(modal)
      ensures SaveChanges(old(modules), originalKey, form).Rejected? ==>
        notice == ErrorNotice(SaveChanges(old(modules), originalKey, form).reason) && modules == old(modules) &&
        modal.isModalOpen == old(modal.isModalOpen) && modal.itemBeingEdited == old(modal.itemBeingEdited)
      ensures SaveChanges(old(modules), originalKey, form).Done? ==>
        notice == SuccessNotice && modules == SaveChanges(old(modules), originalKey, form).modules &&
        !modal.isModalOpen && modal.itemBeingEdited == None
    {
      var outcome := SaveChanges(modules, originalKey, form);
      if outcome.Rejected? {
        return ErrorNotice(outcome.reason);
      }
      EditKeepsUnique(modules, originalKey, form);
      modules := outcome.modules;
      modal.CloseModal();
      return SuccessNotice;
    }

    /** `handleDeleteModule(ruName, stars)`, with the answer to
      `window.confirm` as `confirmed`: a success notice only when the
      deletion was confirmed. */
    method HandleDeleteModule(ruName: string, stars: int, confirmed: bool) returns (notice: Option<Notice>)
      requires Valid()
      modifies this
      ensures Valid()
      ensures modules == DeleteModule(old(modules), ruName, stars, confirmed) && modal == old(modal)
      ensures notice == if confirmed then Some(SuccessNotice) else None
    {
      RemoveKeepsUnique(modules, ruName, stars);
      modules := DeleteModule(modules, ruName, stars, confirmed);
      notice := if confirmed then Some(SuccessNotice) else None;
    }
  }

  /** The entries after the first of a list with unique keys have unique
      keys. */
  lemma UniqueTail(ms: seq<Module>)
    requires UniqueKeys(ms) && ms != []
    ensures UniqueKeys(ms[1..])
    ensures forall j :: 1 <= j < |ms| ==> KeyText(ms[j]) != KeyText(ms[0])
  {
    forall i, j | 0 <= i < j < |ms[1..]| ensures KeyText(ms[1..][i]) != KeyText(ms[1..][j]) {
      assert ms[1..][i] == ms[i + 1] && ms[1..][j] == ms[j + 1];
    }
  }

  /** An entry whose key is new in front of a list with unique keys. */
  lemma UniqueCons(x: Module, r: seq<Module>)
    requires UniqueKeys(r)
    requires forall j :: 0 <= j < |r| ==> KeyText(r[j]) != KeyText(x)
    ensures UniqueKeys([x] + r)
  {
    var xr := [x] + r;
    forall i, j | 0 <= i < j < |xr| ensures KeyText(xr[i]) != KeyText(xr[j]) {
      AppendRight([x], r, j);
      if i > 0 {
        AppendRight([x], r, i);
      }
    }
  }

  /** Removing entries keeps the keys unique. */
  lemma {:induction false} RemoveKeepsUnique(ms: seq<Module>, ruName: string, stars: int)
    requires UniqueKeys(ms)
    ensures UniqueKeys(RemoveMatching(ms, ruName, stars))
  {
    if ms != [] {
      UniqueTail(ms);
      RemoveKeepsUnique(ms[1..], ruName, stars);
      var rest := RemoveMatching(ms[1..], ruName, stars);
      if !Matches(ms[0], ruName, stars) {
        RemoveMatchingMembers(ms[1..], ruName, stars);
        forall j | 0 <= j < |rest| ensures KeyText(rest[j]) != KeyText(ms[0]) {
          assert rest[j] in ms[1..];
          var t :| 0 <= t < |ms[1..]| && ms[1..][t] == rest[j];
          assert ms[1..][t] == ms[t + 1];
        }
        UniqueCons(ms[0], rest);
      }
    }
  }
}
