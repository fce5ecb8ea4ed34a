/** The table's column configuration (config.js) and the column settings
    that are derived from it: a visibility flag and a width per column id. */
module Columns {
  import opened Json

  datatype ColumnType = StringColumn | NumberColumn | BooleanColumn | ArrayIconsColumn | ActionsColumn

  /** One entry of `columnConfig`; an absent `minWidth`/`maxWidth` is `None`. */
  datatype Column = Column(
    id: string,
    defaultWidth: int,
    minWidth: Option<int>,
    maxWidth: Option<int>,
    visibilityToggleable: bool,
    widthAdjustable: bool,
    sortable: bool,
    kind: ColumnType)

  /** `columnConfig`, in table order. */
  const ColumnConfig: seq<Column> := [
    Column("learned", 60, None, None, false, false, true, BooleanColumn),
    Column("name", 220, Some(150), Some(400), true, true, true, StringColumn),
    Column("stars", 80, Some(50), Some(150), true, true, true, NumberColumn),
    Column("module_compatibility", 150, Some(80), Some(250), true, true, false, ArrayIconsColumn),
    Column("module_materials", 200, Some(100), Some(350), true, true, true, StringColumn),
    Column("effect", 300, Some(150), Some(600), true, true, true, StringColumn),
    Column("actions", 70, None, None, false, false, false, ActionsColumn)
  ]

  /** `defaultColumnVisibility`: every column is shown. */
  const DefaultVisibility: map<string, bool> := map[
    "learned" := true, "name" := true, "stars" := true, "module_compatibility" := true,
    "module_materials" := true, "effect" := true, "actions" := true]

  /** `defaultColumnWidths`: each column's `defaultWidth`. */
  const DefaultWidths: map<string, int> := map[
    "learned" := 60, "name" := 220, "stars" := 80, "module_compatibility" := 150,
    "module_materials" := 200, "effect" := 300, "actions" := 70]

  /** The `{ visibility, widths }` pair the table state holds. */
  datatype Settings = Settings(visibility: map<string, bool>, widths: map<string, int>)

  const DefaultSettings := Settings(DefaultVisibility, DefaultWidths)

  /** The column ids are pairwise distinct. */
  lemma ColumnIdsDistinct()
    ensures forall i, j :: 0 <= i < j < |ColumnConfig| ==> ColumnConfig[i].id != ColumnConfig[j].id
  {
  }

  /** The default maps hold what the configuration says for every column,
      and nothing else. */
  lemma DefaultsMatchConfig()
    ensures DefaultWidths.Keys == DefaultVisibility.Keys
    ensures forall i :: 0 <= i < |ColumnConfig| ==>
      ColumnConfig[i].id in DefaultVisibility && DefaultVisibility[ColumnConfig[i].id] &&
      DefaultWidths[ColumnConfig[i].id] == ColumnConfig[i].defaultWidth
    ensures forall id :: id in DefaultVisibility ==> FindColumn(id).Some?
  {
    DefaultsOfColumns();
    DefaultIdsConfigured();
  }

  lemma DefaultsOfColumns()
    ensures forall i :: 0 <= i < |ColumnConfig| ==>
      ColumnConfig[i].id in DefaultVisibility && DefaultVisibility[ColumnConfig[i].id] &&
      ColumnConfig[i].id in DefaultWidths && DefaultWidths[ColumnConfig[i].id] == ColumnConfig[i].defaultWidth
  {
  }

  lemma DefaultIdsConfigured()
    ensures forall id :: id in DefaultVisibility ==> FindColumn(id).Some?
  {
    forall id | id in DefaultVisibility ensures FindColumn(id).Some? {
      var k := if id == "learned" then 0 else if id == "name" then 1 else if id == "stars" then 2
        else if id == "module_compatibility" then 3 else if id == "module_materials" then 4
        else if id == "effect" then 5 else 6;
      assert ColumnConfig[k] in ColumnConfig && ColumnConfig[k].id == id;
    }
  }

  /** Each resizable column has both bounds and its default width lies
      between them. */
  lemma ConfigDefaultsWithinBounds()
    ensures forall i :: 0 <= i < |ColumnConfig| && ColumnConfig[i].widthAdjustable ==>
      && ColumnConfig[i].minWidth.Some? && ColumnConfig[i].maxWidth.Some?
      && 0 < ColumnConfig[i].minWidth.value <= ColumnConfig[i].defaultWidth <= ColumnConfig[i].maxWidth.value
  {
  }

  /** `columnConfig.find(c => c.id === id)`. */
  function FindColumn(id: string): (r: Option<Column>)
    ensures r.Some? ==> r.value in ColumnConfig && r.value.id == id
    ensures r.None? ==> forall c :: c in ColumnConfig ==> c.id != id
  {
    FindIn(ColumnConfig, id)
  }

  /** Looking up the id of a configured column finds that column. */
  lemma FindColumnAt(i: int)
    requires 0 <= i < |ColumnConfig|
    ensures FindColumn(ColumnConfig[i].id) == Some(ColumnConfig[i])
  {
    ColumnIdsDistinct();
    FindInDistinct(ColumnConfig, i);
  }

  lemma {:induction false} FindInDistinct(cols: seq<Column>, i: int)
    requires 0 <= i < |cols|
    requires forall j, k :: 0 <= j < k < |cols| ==> cols[j].id != cols[k].id
    ensures FindIn(cols, cols[i].id) == Some(cols[i])
  {
    if i > 0 {
      assert cols[0].id != cols[i].id;
      FindInDistinct(cols[1..], i - 1);
    }
  }

  function FindIn(cols: seq<Column>, id: string): (r: Option<Column>)
    ensures r.Some? ==> r.value in cols && r.value.id == id
    ensures r.None? ==> forall c :: c in cols ==> c.id != id
  {
    if cols == [] then None
    else if cols[0].id == id then Some(cols[0])
    else FindIn(cols[1..], id)
  }
}
