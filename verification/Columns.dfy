/**
 ADD, RENAME and DROP COLUMN: crates/engine/src/engine_ddl_alter.rs.

 A column's name, attribute number, comment, row position, value-index slots and every index, CHECK
 and foreign-key reference live in different maps that each statement rewrites by hand.
 */
module Columns {
  import opened Primitives

  const I16_MAX := 0x7FFF
  const U32_MAX := 0xFFFF_FFFF

  datatype Column = Column(id: nat, attnum: int, name: string)

  datatype Index = Index(column: string, keyColumns: seq<string>)

  datatype ForeignKey = ForeignKey(column: string, referencedTable: string, referencedColumn: string)

  datatype Row = Row(key: nat, values: seq<int>)

  /** The value index: which rows hold a value in a column. */
  type ValueIndex = map<(string, int), seq<nat>>

  datatype Table = Table(
    columns: seq<Column>, indexes: seq<Index>, checks: seq<string>, foreignKeys: seq<ForeignKey>,
    rows: seq<Row>, valueIndex: ValueIndex)

  datatype Catalog = Catalog(
    tables: map<string, Table>,
    otherRelations: set<string>,            // views, materialized views and sequences
    comments: map<(string, int), string>,   // by table and attribute number
    nextColumnId: nat)

  // ---------------------------------------------------------------- what must hold

  ghost predicate Numbered(columns: seq<Column>)
  {
    |columns| <= I16_MAX && forall i :: 0 <= i < |columns| ==> columns[i].attnum == i + 1
  }

  ghost predicate NamesDistinct(columns: seq<Column>)
  {
    forall i, j :: 0 <= i < j < |columns| ==> columns[i].name != columns[j].name
  }

  /** Column identities are distinct and below the allocator. */
  ghost predicate IdsBelow(columns: seq<Column>, next: nat)
  {
    && (forall i :: 0 <= i < |columns| ==> columns[i].id < next)
    && (forall i, j :: 0 <= i < j < |columns| ==> columns[i].id != columns[j].id)
  }

  predicate Has(columns: seq<Column>, name: string)
  {
    exists i :: 0 <= i < |columns| && columns[i].name == name
  }

  ghost predicate WidthsMatch(rows: seq<Row>, width: nat)
  {
    forall r :: 0 <= r < |rows| ==> |rows[r].values| == width
  }

  /** The keys of the rows holding `value` at `position`. */
  ghost function Holding(rows: seq<Row>, position: nat, value: int): multiset<nat>
    requires forall r :: 0 <= r < |rows| ==> position < |rows[r].values|
  {
    if rows == [] then multiset{}
    else
      var n := |rows| - 1;
      Holding(rows[..n], position, value)
      + if rows[n].values[position] == value then multiset{rows[n].key} else multiset{}
  }

  function Slot(index: ValueIndex, name: string, value: int): seq<nat>
  {
    if (name, value) in index then index[(name, value)] else []
  }

  /** Every slot lists exactly the rows holding that value in that column, and there are no others. */
  ghost predicate IndexExact(index: ValueIndex, columns: seq<Column>, rows: seq<Row>)
    requires WidthsMatch(rows, |columns|)
  {
    && (forall i, value :: 0 <= i < |columns| ==>
          multiset(Slot(index, columns[i].name, value)) == Holding(rows, i, value))
    && (forall k :: k in index ==> Has(columns, k.0))
  }

  ghost predicate IndexesResolve(indexes: seq<Index>, columns: seq<Column>)
  {
    forall k :: 0 <= k < |indexes| ==>
      && indexes[k].column in indexes[k].keyColumns
      && forall j :: 0 <= j < |indexes[k].keyColumns| ==> Has(columns, indexes[k].keyColumns[j])
  }

  ghost predicate ChecksResolve(checks: seq<string>, columns: seq<Column>)
  {
    forall k :: 0 <= k < |checks| ==> Has(columns, checks[k])
  }

  ghost predicate TableOk(t: Table, nextColumnId: nat)
  {
    && Numbered(t.columns) && NamesDistinct(t.columns) && IdsBelow(t.columns, nextColumnId)
    && WidthsMatch(t.rows, |t.columns|)
    && IndexExact(t.valueIndex, t.columns, t.rows)
    && IndexesResolve(t.indexes, t.columns) && ChecksResolve(t.checks, t.columns)
  }

  ghost predicate ForeignKeyResolves(fk: ForeignKey, own: seq<Column>, tables: map<string, Table>)
  {
    && Has(own, fk.column)
    && fk.referencedTable in tables && Has(tables[fk.referencedTable].columns, fk.referencedColumn)
  }

  ghost predicate ForeignKeysResolve(tables: map<string, Table>)
  {
    forall t, k :: t in tables && 0 <= k < |tables[t].foreignKeys| ==>
      ForeignKeyResolves(tables[t].foreignKeys[k], tables[t].columns, tables)
  }

  /** No comment hangs in the air. */
  ghost predicate CommentsResolve(comments: map<(string, int), string>, tables: map<string, Table>)
  {
    forall k :: k in comments && k.0 in tables ==> 1 <= k.1 <= |tables[k.0].columns|
  }

  ghost predicate Inv(c: Catalog)
  {
    && (forall t :: t in c.tables ==> TableOk(c.tables[t], c.nextColumnId))
    && ForeignKeysResolve(c.tables)
    && CommentsResolve(c.comments, c.tables)
  }

  // ---------------------------------------------------------------- adding

  function Widened(rows: seq<Row>, defaults: seq<int>): (r: seq<Row>)
    requires |defaults| == |rows|
    ensures |r| == |rows|
  {
    seq(|rows|, k requires 0 <= k < |rows| => Row(rows[k].key, rows[k].values + [defaults[k]]))
  }

  /** Push each row's key into the slot of its new value. */
  function SlotsFor(index: ValueIndex, name: string, rows: seq<Row>, defaults: seq<int>): ValueIndex
    requires |defaults| == |rows|
  {
    if rows == [] then index
    else
      var n := |rows| - 1;
      var before := SlotsFor(index, name, rows[..n], defaults[..n]);
      before[(name, defaults[n]) := Slot(before, name, defaults[n]) + [rows[n].key]]
  }

  function WithColumn(t: Table, id: nat, name: string, defaults: seq<int>): Table
    requires |defaults| == |t.rows|
  {
    t.(columns := t.columns + [Column(id, |t.columns| + 1, name)],
       rows := Widened(t.rows, defaults),
       valueIndex := SlotsFor(t.valueIndex, name, t.rows, defaults))
  }

  /** `backfill` is the evaluated default per row, or None when the default is missing or unusable. */
  predicate CanAdd(c: Catalog, table: string, name: string, backfill: Option<seq<int>>)
  {
    && table !in c.otherRelations && table in c.tables
    && !Has(c.tables[table].columns, name)
    && backfill.Some? && |backfill.value| == |c.tables[table].rows|
    && |c.tables[table].columns| + 1 <= I16_MAX
    && c.nextColumnId < U32_MAX
  }

  function Added(c: Catalog, table: string, name: string, defaults: seq<int>): Catalog
    requires CanAdd(c, table, name, Some(defaults))
  {
    c.(tables := c.tables[table := WithColumn(c.tables[table], c.nextColumnId, name, defaults)],
       nextColumnId := c.nextColumnId + 1)
  }

  // ---------------------------------------------------------------- renaming

  function RenamedTo(name: string, from: string, to: string): string
  {
    if name == from then to else name
  }

  function RenamedColumns(columns: seq<Column>, from: string, to: string): (r: seq<Column>)
    ensures |r| == |columns|
  {
    seq(|columns|, k requires 0 <= k < |columns| => columns[k].(name := RenamedTo(columns[k].name, from, to)))
  }

  function RenamedNames(names: seq<string>, from: string, to: string): (r: seq<string>)
    ensures |r| == |names|
  {
    seq(|names|, k requires 0 <= k < |names| => RenamedTo(names[k], from, to))
  }

  function RenamedIndexes(indexes: seq<Index>, from: string, to: string): (r: seq<Index>)
    ensures |r| == |indexes|
  {
    seq(|indexes|, k requires 0 <= k < |indexes| =>
      Index(RenamedTo(indexes[k].column, from, to), RenamedNames(indexes[k].keyColumns, from, to)))
  }

  /** References to the renamed column from any table's foreign keys; `own` marks the table itself. */
  function RenamedForeignKeys(fks: seq<ForeignKey>, table: string, own: bool, from: string, to: string)
    : (r: seq<ForeignKey>)
    ensures |r| == |fks|
  {
    seq(|fks|, k requires 0 <= k < |fks| =>
      ForeignKey(
        if own then RenamedTo(fks[k].column, from, to) else fks[k].column,
        fks[k].referencedTable,
        if fks[k].referencedTable == table then RenamedTo(fks[k].referencedColumn, from, to)
        else fks[k].referencedColumn))
  }

  /** Re-key the renamed column's slots. */
  function RenamedSlots(index: ValueIndex, from: string, to: string): ValueIndex
  {
    (map k | k in index && k.0 != from && k.0 != to :: index[k])
    + (map k | k in (set j | j in index && j.0 == from :: (to, j.1)) :: index[(from, k.1)])
  }

  function WithRenamed(t: Table, table: string, from: string, to: string): Table
  {
    Table(RenamedColumns(t.columns, from, to), RenamedIndexes(t.indexes, from, to), RenamedNames(t.checks, from, to),
          RenamedForeignKeys(t.foreignKeys, table, true, from, to), t.rows, RenamedSlots(t.valueIndex, from, to))
  }

  predicate CanRename(c: Catalog, table: string, from: string, to: string)
  {
    && table !in c.otherRelations && table in c.tables
    && Has(c.tables[table].columns, from) && !Has(c.tables[table].columns, to)
  }

  function Renamed(c: Catalog, table: string, from: string, to: string): Catalog
    requires CanRename(c, table, from, to)
  {
    c.(tables := map t | t in c.tables ::
         if t == table then WithRenamed(c.tables[t], table, from, to)
         else c.tables[t].(foreignKeys := RenamedForeignKeys(c.tables[t].foreignKeys, table, false, from, to)))
  }

  // ---------------------------------------------------------------- dropping

  function PositionOf(columns: seq<Column>, name: string): (p: nat)
    requires Has(columns, name)
    ensures p < |columns| && columns[p].name == name && forall i :: 0 <= i < p ==> columns[i].name != name
  {
    if columns[0].name == name then 0 else PositionOf(columns[1..], name) + 1
  }

  function Omit<T>(s: seq<T>, p: nat): (r: seq<T>)
    requires p < |s|
    ensures |r| == |s| - 1
  {
    s[..p] + s[p + 1..]
  }

  function Renumbered(columns: seq<Column>): (r: seq<Column>)
    ensures |r| == |columns|
  {
    seq(|columns|, k requires 0 <= k < |columns| => columns[k].(attnum := k + 1))
  }

  function Narrowed(rows: seq<Row>, p: nat): (r: seq<Row>)
    requires forall k :: 0 <= k < |rows| ==> p < |rows[k].values|
    ensures |r| == |rows|
  {
    seq(|rows|, k requires 0 <= k < |rows| && p < |rows[k].values| => Row(rows[k].key, Omit(rows[k].values, p)))
  }

  function WithoutSlots(index: ValueIndex, name: string): ValueIndex
  {
    map k | k in index && k.0 != name :: index[k]
  }

  function Lookup(comments: map<(string, int), string>, table: string, attnum: int): Option<string>
  {
    if (table, attnum) in comments then Some(comments[(table, attnum)]) else None
  }

  /** Where the comment now at `k` was before the attribute was dropped. */
  function Unshifted(k: (string, int), table: string, attnum: int): (string, int)
  {
    if k.0 == table && k.1 >= attnum then (k.0, k.1 + 1) else k
  }

  function OneBelow(keys: set<(string, int)>): (below: set<(string, int)>)
    ensures forall k :: k in keys ==> (k.0, k.1 - 1) in below
  {
    set k | k in keys :: (k.0, k.1 - 1)
  }

  /** Comments above the dropped attribute move down by one; the dropped one goes. */
  function ShiftedComments(comments: map<(string, int), string>, table: string, attnum: int): map<(string, int), string>
  {
    map k | k in comments.Keys + OneBelow(comments.Keys) && Unshifted(k, table, attnum) in comments ::
      comments[Unshifted(k, table, attnum)]
  }

  lemma ShiftedLookup(comments: map<(string, int), string>, table: string, attnum: int, t: string, a: int)
    ensures var from := Unshifted((t, a), table, attnum);
      Lookup(ShiftedComments(comments, table, attnum), t, a) == Lookup(comments, from.0, from.1)
  {
    var from := Unshifted((t, a), table, attnum);
    if from in comments && from != (t, a) {
      assert (from.0, from.1 - 1) in OneBelow(comments.Keys);
    }
  }

  predicate DependsOn(c: Catalog, table: string, name: string)
    requires table in c.tables
  {
    || (exists k :: 0 <= k < |c.tables[table].indexes| && name in c.tables[table].indexes[k].keyColumns)
    || name in c.tables[table].checks
    || (exists k :: 0 <= k < |c.tables[table].foreignKeys| && c.tables[table].foreignKeys[k].column == name)
    || (exists t :: t in c.tables && References(c.tables[t].foreignKeys, table, name))
  }

  predicate References(fks: seq<ForeignKey>, table: string, name: string)
  {
    exists k :: 0 <= k < |fks| && fks[k].referencedTable == table && fks[k].referencedColumn == name
  }

  predicate CanDrop(c: Catalog, table: string, name: string)
  {
    && table !in c.otherRelations && table in c.tables
    && Has(c.tables[table].columns, name)
    && !DependsOn(c, table, name)
  }

  function WithoutColumn(t: Table, name: string): Table
    requires Has(t.columns, name) && forall k :: 0 <= k < |t.rows| ==> |t.rows[k].values| == |t.columns|
  {
    var p := PositionOf(t.columns, name);
    t.(columns := Renumbered(Omit(t.columns, p)),
       rows := Narrowed(t.rows, p),
       valueIndex := WithoutSlots(t.valueIndex, name))
  }

  function Dropped(c: Catalog, table: string, name: string): Catalog
    requires CanDrop(c, table, name)
    requires forall k :: 0 <= k < |c.tables[table].rows| ==>
      |c.tables[table].rows[k].values| == |c.tables[table].columns|
  {
    var t := c.tables[table];
    c.(tables := c.tables[table := WithoutColumn(t, name)],
       comments := ShiftedComments(c.comments, table, t.columns[PositionOf(t.columns, name)].attnum))
  }

  // ---------------------------------------------------------------- adding keeps it

  lemma {:induction false} HoldingWidened(rows: seq<Row>, defaults: seq<int>, width: nat, i: nat, value: int)
    requires |defaults| == |rows| && WidthsMatch(rows, width) && i < width
    ensures WidthsMatch(Widened(rows, defaults), width + 1)
    ensures Holding(Widened(rows, defaults), i, value) == Holding(rows, i, value)
  {
    if rows != [] {
      var n := |rows| - 1;
      HoldingWidened(rows[..n], defaults[..n], width, i, value);
      assert Widened(rows, defaults)[..n] == Widened(rows[..n], defaults[..n]);
    }
  }

  lemma {:induction false} SlotsForOther(index: ValueIndex, name: string, rows: seq<Row>, defaults: seq<int>,
                                         other: string, value: int)
    requires |defaults| == |rows| && other != name
    ensures Slot(SlotsFor(index, name, rows, defaults), other, value) == Slot(index, other, value)
  {
    if rows != [] {
      var n := |rows| - 1;
      SlotsForOther(index, name, rows[..n], defaults[..n], other, value);
    }
  }

  lemma {:induction false} SlotsForKeys(index: ValueIndex, name: string, rows: seq<Row>, defaults: seq<int>)
    requires |defaults| == |rows|
    ensures forall k :: k in SlotsFor(index, name, rows, defaults) ==> k in index || k.0 == name
  {
    if rows != [] { SlotsForKeys(index, name, rows[..|rows| - 1], defaults[..|rows| - 1]); }
  }

  lemma {:induction false} SlotsForNew(index: ValueIndex, name: string, rows: seq<Row>, defaults: seq<int>,
                                       width: nat, value: int)
    requires |defaults| == |rows| && WidthsMatch(rows, width)
    ensures WidthsMatch(Widened(rows, defaults), width + 1)
    ensures multiset(Slot(SlotsFor(index, name, rows, defaults), name, value))
         == multiset(Slot(index, name, value)) + Holding(Widened(rows, defaults), width, value)
  {
    hide Holding, Slot;
    if rows == [] {
      assert Holding([], width, value) == multiset{} by { NothingHeld(width, value); }
    } else {
      var n := |rows| - 1;
      SlotsForNew(index, name, rows[..n], defaults[..n], width, value);
      var before, widened := SlotsFor(index, name, rows[..n], defaults[..n]), Widened(rows, defaults);
      assert widened[..n] == Widened(rows[..n], defaults[..n]);
      assert widened[n].values[width] == defaults[n] && widened[n].key == rows[n].key;
      SlotPushed(before, name, defaults[n], rows[n].key, value);
      HoldingLast(widened, width, value);
      var added := if defaults[n] == value then multiset{rows[n].key} else multiset{};
      assert Holding(widened, width, value) == Holding(widened[..n], width, value) + added;
    }
  }

  lemma NothingHeld(position: nat, value: int)
    ensures Holding([], position, value) == multiset{}
  {
  }

  lemma HoldingLast(rows: seq<Row>, position: nat, value: int)
    requires rows != [] && forall r :: 0 <= r < |rows| ==> position < |rows[r].values|
    ensures var n := |rows| - 1;
      Holding(rows, position, value) == Holding(rows[..n], position, value)
        + if rows[n].values[position] == value then multiset{rows[n].key} else multiset{}
  {
  }

  lemma SlotPushed(index: ValueIndex, name: string, v: int, key: nat, value: int)
    ensures multiset(Slot(index[(name, v) := Slot(index, name, v) + [key]], name, value))
         == multiset(Slot(index, name, value)) + if v == value then multiset{key} else multiset{}
  {
  }

  lemma HasIn(columns: seq<Column>, more: seq<Column>, name: string)
    ensures Has(columns + more, name) <==> Has(columns, name) || Has(more, name)
  {
    if Has(columns, name) {
      var i :| 0 <= i < |columns| && columns[i].name == name;
      assert (columns + more)[i].name == name;
    }
    if Has(more, name) {
      var i :| 0 <= i < |more| && more[i].name == name;
      assert (columns + more)[|columns| + i].name == name;
    }
    if Has(columns + more, name) {
      var i :| 0 <= i < |columns + more| && (columns + more)[i].name == name;
      if i < |columns| { assert columns[i].name == name; } else { assert more[i - |columns|].name == name; }
    }
  }

  lemma AddKeepsIndexExact(t: Table, id: nat, name: string, defaults: seq<int>)
    requires |defaults| == |t.rows| && WidthsMatch(t.rows, |t.columns|) && !Has(t.columns, name)
    requires IndexExact(t.valueIndex, t.columns, t.rows)
    ensures var u := WithColumn(t, id, name, defaults);
      WidthsMatch(u.rows, |u.columns|) && IndexExact(u.valueIndex, u.columns, u.rows)
  {
    hide Holding, SlotsFor;
    var u := WithColumn(t, id, name, defaults);
    var width := |t.columns|;
    assert WidthsMatch(u.rows, width + 1) by { SlotsForNew(t.valueIndex, name, t.rows, defaults, width, 0); }
    forall i, value | 0 <= i < |u.columns|
      ensures multiset(Slot(u.valueIndex, u.columns[i].name, value)) == Holding(u.rows, i, value)
    {
      if i < width {
        assert t.columns[i].name != name;
        SlotsForOther(t.valueIndex, name, t.rows, defaults, t.columns[i].name, value);
        HoldingWidened(t.rows, defaults, width, i, value);
      } else {
        assert (name, value) !in t.valueIndex;
        SlotsForNew(t.valueIndex, name, t.rows, defaults, width, value);
      }
    }
    SlotsForKeys(t.valueIndex, name, t.rows, defaults);
    forall k | k in u.valueIndex ensures Has(u.columns, k.0) {
      HasIn(t.columns, [Column(id, width + 1, name)], k.0);
      assert [Column(id, width + 1, name)][0].name == name;
    }
  }

  /** References that resolved keep resolving when no name disappears. */
  lemma ReferencesSurvive(t: Table, columns: seq<Column>)
    requires IndexesResolve(t.indexes, t.columns) && ChecksResolve(t.checks, t.columns)
    requires forall name :: Has(t.columns, name) ==> Has(columns, name)
    ensures IndexesResolve(t.indexes, columns) && ChecksResolve(t.checks, columns)
  {
  }

  lemma AddKeepsTable(t: Table, name: string, defaults: seq<int>, next: nat)
    requires TableOk(t, next) && |defaults| == |t.rows| && !Has(t.columns, name) && |t.columns| + 1 <= I16_MAX
    ensures TableOk(WithColumn(t, next, name, defaults), next + 1)
  {
    hide Holding, SlotsFor, IndexExact, Has;
    var u := WithColumn(t, next, name, defaults);
    AddKeepsIndexExact(t, next, name, defaults);
    forall n ensures Has(t.columns, n) ==> Has(u.columns, n) {
      HasIn(t.columns, [Column(next, |t.columns| + 1, name)], n);
    }
    ReferencesSurvive(t, u.columns);
    AddKeepsNames(t.columns, Column(next, |t.columns| + 1, name));
  }

  lemma AddKeepsNames(columns: seq<Column>, column: Column)
    requires NamesDistinct(columns) && !Has(columns, column.name)
    ensures NamesDistinct(columns + [column])
  {
  }

  /** If every table keeps at least its names and its foreign keys, foreign keys keep resolving. */
  lemma ForeignKeysSurvive(tables: map<string, Table>, after: map<string, Table>)
    requires ForeignKeysResolve(tables) && after.Keys == tables.Keys
    requires forall t :: t in tables ==> after[t].foreignKeys == tables[t].foreignKeys
    requires forall t, name :: t in tables && Has(tables[t].columns, name) ==> Has(after[t].columns, name)
    ensures ForeignKeysResolve(after)
  {
    hide Has;
    forall t, k | t in after && 0 <= k < |after[t].foreignKeys|
      ensures ForeignKeyResolves(after[t].foreignKeys[k], after[t].columns, after)
    {
      assert ForeignKeyResolves(tables[t].foreignKeys[k], tables[t].columns, tables);
    }
  }

  lemma LargerAllocatorIsFine(t: Table, next: nat)
    requires TableOk(t, next)
    ensures TableOk(t, next + 1)
  {
    hide Holding, IndexExact, Has;
  }

  lemma AddKeepsInv(c: Catalog, table: string, name: string, defaults: seq<int>)
    requires Inv(c) && CanAdd(c, table, name, Some(defaults))
    ensures Inv(Added(c, table, name, defaults))
  {
    hide TableOk, Has, ForeignKeysResolve, SlotsFor;
    var d := Added(c, table, name, defaults);
    forall t | t in d.tables ensures TableOk(d.tables[t], d.nextColumnId) {
      if t == table {
        AddKeepsTable(c.tables[t], name, defaults, c.nextColumnId);
      } else {
        LargerAllocatorIsFine(c.tables[t], c.nextColumnId);
      }
    }
    forall t, n | t in c.tables && Has(c.tables[t].columns, n) ensures Has(d.tables[t].columns, n) {
      if t == table { HasIn(c.tables[t].columns, [Column(c.nextColumnId, |c.tables[t].columns| + 1, name)], n); }
    }
    ForeignKeysSurvive(c.tables, d.tables);
  }

  // ---------------------------------------------------------------- renaming keeps it

  lemma HasRenamed(columns: seq<Column>, from: string, to: string, name: string)
    ensures Has(columns, name) ==> Has(RenamedColumns(columns, from, to), RenamedTo(name, from, to))
  {
    if Has(columns, name) {
      var i :| 0 <= i < |columns| && columns[i].name == name;
      assert RenamedColumns(columns, from, to)[i].name == RenamedTo(name, from, to);
    }
  }

  lemma SlotRenamed(index: ValueIndex, from: string, to: string, name: string, value: int)
    requires name != to && from != to
    ensures Slot(RenamedSlots(index, from, to), RenamedTo(name, from, to), value) == Slot(index, name, value)
  {
    var moved := set j | j in index && j.0 == from :: (to, j.1);
    if name == from {
      assert (to, value) in moved <==> (from, value) in index by {
        if (from, value) in index { assert (to, (from, value).1) in moved; }
      }
    } else {
      assert (name, value) !in moved;
    }
  }

  lemma RenameKeepsIndexExact(t: Table, table: string, from: string, to: string)
    requires WidthsMatch(t.rows, |t.columns|) && IndexExact(t.valueIndex, t.columns, t.rows)
    requires Has(t.columns, from) && !Has(t.columns, to)
    ensures var u := WithRenamed(t, table, from, to); IndexExact(u.valueIndex, u.columns, u.rows)
  {
    hide Holding, Slot;
    var u := WithRenamed(t, table, from, to);
    forall i, value | 0 <= i < |u.columns|
      ensures multiset(Slot(u.valueIndex, u.columns[i].name, value)) == Holding(u.rows, i, value)
    {
      assert Has(t.columns, t.columns[i].name);
      SlotRenamed(t.valueIndex, from, to, t.columns[i].name, value);
    }
    forall k | k in u.valueIndex ensures Has(u.columns, k.0) {
      if k.0 == to {
        HasRenamed(t.columns, from, to, from);
      } else {
        assert k in t.valueIndex && k.0 != from;
        HasRenamed(t.columns, from, to, k.0);
      }
    }
  }

  lemma RenameKeepsIndexes(indexes: seq<Index>, columns: seq<Column>, from: string, to: string)
    requires IndexesResolve(indexes, columns)
    ensures IndexesResolve(RenamedIndexes(indexes, from, to), RenamedColumns(columns, from, to))
  {
    hide Has;
    var after, renamed := RenamedIndexes(indexes, from, to), RenamedColumns(columns, from, to);
    forall k | 0 <= k < |after|
      ensures after[k].column in after[k].keyColumns
      ensures forall j :: 0 <= j < |after[k].keyColumns| ==> Has(renamed, after[k].keyColumns[j])
    {
      var p :| 0 <= p < |indexes[k].keyColumns| && indexes[k].keyColumns[p] == indexes[k].column;
      assert after[k].keyColumns[p] == after[k].column;
      forall j | 0 <= j < |after[k].keyColumns| ensures Has(renamed, after[k].keyColumns[j]) {
        HasRenamed(columns, from, to, indexes[k].keyColumns[j]);
      }
    }
  }

  lemma RenameKeepsTable(t: Table, table: string, from: string, to: string, next: nat)
    requires TableOk(t, next) && Has(t.columns, from) && !Has(t.columns, to)
    ensures TableOk(WithRenamed(t, table, from, to), next)
  {
    hide Holding, IndexExact;
    var u := WithRenamed(t, table, from, to);
    RenameKeepsIndexExact(t, table, from, to);
    RenameKeepsIndexes(t.indexes, t.columns, from, to);
    forall k | 0 <= k < |u.checks| ensures Has(u.columns, u.checks[k]) { HasRenamed(t.columns, from, to, t.checks[k]); }
    forall i, j | 0 <= i < j < |u.columns| ensures u.columns[i].name != u.columns[j].name {
      assert Has(t.columns, t.columns[i].name) && Has(t.columns, t.columns[j].name);
    }
  }

  lemma RenameKeepsForeignKeys(c: Catalog, table: string, from: string, to: string)
    requires ForeignKeysResolve(c.tables) && CanRename(c, table, from, to)
    ensures ForeignKeysResolve(Renamed(c, table, from, to).tables)
  {
    hide Has;
    var tables, after := c.tables, Renamed(c, table, from, to).tables;
    forall t, k | t in after && 0 <= k < |after[t].foreignKeys|
      ensures ForeignKeyResolves(after[t].foreignKeys[k], after[t].columns, after)
    {
      var fk := tables[t].foreignKeys[k];
      assert ForeignKeyResolves(fk, tables[t].columns, tables);
      HasRenamed(tables[t].columns, from, to, fk.column);
      HasRenamed(tables[fk.referencedTable].columns, from, to, fk.referencedColumn);
    }
  }

  lemma OtherForeignKeysAreFine(t: Table, fks: seq<ForeignKey>, next: nat)
    requires TableOk(t, next)
    ensures TableOk(t.(foreignKeys := fks), next)
  {
    hide Holding, IndexExact, Has;
  }

  lemma RenameKeepsInv(c: Catalog, table: string, from: string, to: string)
    requires Inv(c) && CanRename(c, table, from, to)
    ensures Inv(Renamed(c, table, from, to))
  {
    hide TableOk, Has, ForeignKeysResolve;
    var d := Renamed(c, table, from, to);
    forall t | t in d.tables ensures TableOk(d.tables[t], d.nextColumnId) {
      if t == table {
        RenameKeepsTable(c.tables[t], table, from, to, c.nextColumnId);
      } else {
        OtherForeignKeysAreFine(c.tables[t], d.tables[t].foreignKeys, c.nextColumnId);
      }
    }
    RenameKeepsForeignKeys(c, table, from, to);
  }

  // ---------------------------------------------------------------- dropping keeps it

  /** Where position `i` was before the element at `p` was removed. */
  function Before(i: nat, p: nat): nat { if i < p then i else i + 1 }

  lemma {:induction false} HoldingNarrowed(rows: seq<Row>, p: nat, width: nat, i: nat, value: int)
    requires WidthsMatch(rows, width) && p < width && i < width - 1
    ensures WidthsMatch(Narrowed(rows, p), width - 1)
    ensures Holding(Narrowed(rows, p), i, value) == Holding(rows, Before(i, p), value)
  {
    hide Holding;
    if rows == [] {
      NothingHeld(i, value);
      NothingHeld(Before(i, p), value);
    } else {
      var n := |rows| - 1;
      HoldingNarrowed(rows[..n], p, width, i, value);
      assert Narrowed(rows, p)[..n] == Narrowed(rows[..n], p);
      HoldingLast(Narrowed(rows, p), i, value);
      HoldingLast(rows, Before(i, p), value);
    }
  }

  lemma HasAfterDrop(columns: seq<Column>, p: nat, name: string)
    requires p < |columns| && NamesDistinct(columns)
    ensures Has(Renumbered(Omit(columns, p)), name) <==> Has(columns, name) && name != columns[p].name
  {
    var after := Renumbered(Omit(columns, p));
    assert forall i :: 0 <= i < |after| ==> after[i].name == columns[Before(i, p)].name;
    if Has(columns, name) && name != columns[p].name {
      var i :| 0 <= i < |columns| && columns[i].name == name;
      assert after[if i < p then i else i - 1].name == name;
    }
    if Has(after, name) {
      var i :| 0 <= i < |after| && after[i].name == name;
      assert columns[Before(i, p)].name == name;
    }
  }

  lemma DropKeepsIndexExact(t: Table, name: string)
    requires WidthsMatch(t.rows, |t.columns|) && IndexExact(t.valueIndex, t.columns, t.rows)
    requires NamesDistinct(t.columns) && Has(t.columns, name)
    ensures var u := WithoutColumn(t, name);
      WidthsMatch(u.rows, |u.columns|) && IndexExact(u.valueIndex, u.columns, u.rows)
  {
    hide Holding, Has;
    var u := WithoutColumn(t, name);
    var p := PositionOf(t.columns, name);
    assert WidthsMatch(u.rows, |u.columns|);
    forall i, value | 0 <= i < |u.columns|
      ensures multiset(Slot(u.valueIndex, u.columns[i].name, value)) == Holding(u.rows, i, value)
    {
      assert u.columns[i].name == t.columns[Before(i, p)].name != name;
      HoldingNarrowed(t.rows, p, |t.columns|, i, value);
    }
    forall k | k in u.valueIndex ensures Has(u.columns, k.0) { HasAfterDrop(t.columns, p, k.0); }
  }

  lemma DropKeepsTable(t: Table, name: string, next: nat)
    requires TableOk(t, next) && Has(t.columns, name)
    requires forall k :: 0 <= k < |t.indexes| ==> name !in t.indexes[k].keyColumns
    requires name !in t.checks
    ensures TableOk(WithoutColumn(t, name), next)
  {
    hide Holding, IndexExact, Has, Numbered, NamesDistinct, IdsBelow, IndexesResolve, ChecksResolve;
    var u := WithoutColumn(t, name);
    var p := PositionOf(t.columns, name);
    DropKeepsIndexExact(t, name);
    DropKeepsColumns(t.columns, p, next);
    DropKeepsReferences(t, p);
  }

  lemma DropKeepsColumns(columns: seq<Column>, p: nat, next: nat)
    requires p < |columns| && Numbered(columns) && NamesDistinct(columns) && IdsBelow(columns, next)
    ensures var after := Renumbered(Omit(columns, p));
      Numbered(after) && NamesDistinct(after) && IdsBelow(after, next)
  {
    var after := Renumbered(Omit(columns, p));
    forall i | 0 <= i < |after|
      ensures after[i].name == columns[Before(i, p)].name && after[i].id == columns[Before(i, p)].id
    { }
  }

  lemma DropKeepsReferences(t: Table, p: nat)
    requires p < |t.columns| && NamesDistinct(t.columns)
    requires IndexesResolve(t.indexes, t.columns) && ChecksResolve(t.checks, t.columns)
    requires forall k :: 0 <= k < |t.indexes| ==> t.columns[p].name !in t.indexes[k].keyColumns
    requires t.columns[p].name !in t.checks
    ensures var after := Renumbered(Omit(t.columns, p));
      IndexesResolve(t.indexes, after) && ChecksResolve(t.checks, after)
  {
    hide Has, Renumbered;
    forall n ensures Has(Renumbered(Omit(t.columns, p)), n) <==> Has(t.columns, n) && n != t.columns[p].name {
      HasAfterDrop(t.columns, p, n);
    }
  }

  lemma DropKeepsForeignKeys(c: Catalog, table: string, name: string)
    requires Inv(c) && CanDrop(c, table, name)
    ensures ForeignKeysResolve(Dropped(c, table, name).tables)
  {
    hide Has, TableOk;
    var tables := c.tables;
    assert TableOk(tables[table], c.nextColumnId);
    WidthOfTable(tables[table], c.nextColumnId);
    var after := Dropped(c, table, name).tables;
    forall n ensures Has(after[table].columns, n) <==> Has(tables[table].columns, n) && n != name {
      HasAfterDrop(tables[table].columns, PositionOf(tables[table].columns, name), n);
    }
    forall t, k | t in after && 0 <= k < |after[t].foreignKeys|
      ensures ForeignKeyResolves(after[t].foreignKeys[k], after[t].columns, after)
    {
      var fk := tables[t].foreignKeys[k];
      assert ForeignKeyResolves(fk, tables[t].columns, tables);
      assert !References(tables[t].foreignKeys, table, name);
    }
  }

  lemma WidthOfTable(t: Table, next: nat)
    requires TableOk(t, next)
    ensures WidthsMatch(t.rows, |t.columns|) && NamesDistinct(t.columns) && Numbered(t.columns)
  {
  }

  lemma ShiftedStayInRange(comments: map<(string, int), string>, tables: map<string, Table>, after: map<string, Table>,
                           table: string, attnum: int)
    requires CommentsResolve(comments, tables) && table in tables && 1 <= attnum <= |tables[table].columns|
    requires after.Keys == tables.Keys && |after[table].columns| == |tables[table].columns| - 1
    requires forall t :: t in tables && t != table ==> after[t].columns == tables[t].columns
    ensures CommentsResolve(ShiftedComments(comments, table, attnum), after)
  {
    var shifted := ShiftedComments(comments, table, attnum);
    forall k | k in shifted && k.0 in after ensures 1 <= k.1 <= |after[k.0].columns| {
      assert Unshifted(k, table, attnum) in comments;
    }
  }

  lemma DropKeepsInv(c: Catalog, table: string, name: string)
    requires Inv(c) && CanDrop(c, table, name)
    ensures WidthsMatch(c.tables[table].rows, |c.tables[table].columns|)
    ensures Inv(Dropped(c, table, name))
  {
    hide TableOk, Has, ForeignKeysResolve, ShiftedComments;
    var t := c.tables[table];
    WidthOfTable(t, c.nextColumnId);
    var d := Dropped(c, table, name);
    DropKeepsTable(t, name, c.nextColumnId);
    DropKeepsForeignKeys(c, table, name);
    ShiftedStayInRange(c.comments, c.tables, d.tables, table, t.columns[PositionOf(t.columns, name)].attnum);
  }

  // ---------------------------------------------------------------- what a surviving column keeps

  /** A table together with the comment map that annotates its attribute numbers. */
  datatype Annotated = Annotated(name: string, table: Table, comments: map<(string, int), string>)

  ghost function CommentAt(a: Annotated, i: nat): Option<string>
    requires i < |a.table.columns|
  {
    Lookup(a.comments, a.name, a.table.columns[i].attnum)
  }

  /** Column `i` of `before` and column `j` of `after` have the same cell in every row. */
  ghost predicate SameCells(before: Table, i: nat, after: Table, j: nat)
  {
    && |after.rows| == |before.rows|
    && forall r :: 0 <= r < |before.rows| ==>
         && i < |before.rows[r].values| && j < |after.rows[r].values|
         && after.rows[r].values[j] == before.rows[r].values[i]
  }

  /** Column `i` before and column `j` after are one column, with its comment and its cells. */
  ghost predicate Carried(before: Annotated, i: nat, after: Annotated, j: nat)
    requires i < |before.table.columns| && j < |after.table.columns|
  {
    CommentAt(after, j) == CommentAt(before, i) && SameCells(before.table, i, after.table, j)
  }

  ghost predicate HasId(columns: seq<Column>, id: nat)
  {
    exists i :: 0 <= i < |columns| && columns[i].id == id
  }

  ghost predicate SameKeys(before: seq<Row>, after: seq<Row>)
  {
    |after| == |before| && forall r :: 0 <= r < |before| ==> after[r].key == before[r].key
  }

  /** The table keeps its row keys, every column present on both sides keeps its comment and its cells,
      and every column not present before is new and has no comment. */
  ghost predicate TableEvolves(before: Annotated, after: Annotated, next: nat)
  {
    var x, y := before.table.columns, after.table.columns;
    && SameKeys(before.table.rows, after.table.rows)
    && (forall i, j :: 0 <= i < |x| && 0 <= j < |y| && x[i].id == y[j].id ==> Carried(before, i, after, j))
    && (forall j :: 0 <= j < |y| ==> if y[j].id < next then HasId(x, y[j].id) else CommentAt(after, j) == None)
  }

  ghost function At(c: Catalog, t: string): Annotated
    requires t in c.tables
  {
    Annotated(t, c.tables[t], c.comments)
  }

  ghost predicate Evolves(c: Catalog, d: Catalog)
  {
    && d.tables.Keys == c.tables.Keys && c.nextColumnId <= d.nextColumnId
    && forall t :: t in c.tables ==> TableEvolves(At(c, t), At(d, t), c.nextColumnId)
  }

  /** Enough to know where each old column went: the first `|origin|` columns come from there, any
      further column is new. */
  lemma TracedColumnsEvolve(before: Annotated, after: Annotated, next: nat, origin: seq<nat>)
    requires IdsBelow(before.table.columns, next) && SameKeys(before.table.rows, after.table.rows)
    requires |origin| <= |after.table.columns|
    requires forall j :: 0 <= j < |origin| ==>
      && origin[j] < |before.table.columns| && before.table.columns[origin[j]].id == after.table.columns[j].id
      && Carried(before, origin[j], after, j)
    requires forall j :: |origin| <= j < |after.table.columns| ==>
      after.table.columns[j].id >= next && CommentAt(after, j) == None
    ensures TableEvolves(before, after, next)
  {
    hide Carried;
    var x, y := before.table.columns, after.table.columns;
    forall i, j | 0 <= i < |x| && 0 <= j < |y| && x[i].id == y[j].id ensures Carried(before, i, after, j) {
      assert j < |origin| && x[origin[j]].id == y[j].id;
      assert i == origin[j];
    }
  }

  lemma EvolvesReflexive(c: Catalog)
    requires Inv(c)
    ensures Evolves(c, c)
  {
    hide IndexExact, Holding, IndexesResolve, ChecksResolve, TableEvolves;
    forall t | t in c.tables ensures TableEvolves(At(c, t), At(c, t), c.nextColumnId) {
      assert TableOk(c.tables[t], c.nextColumnId);
      Untouched(At(c, t), At(c, t), c.nextColumnId);
    }
  }

  lemma Untouched(before: Annotated, after: Annotated, next: nat)
    requires IdsBelow(before.table.columns, next) && WidthsMatch(before.table.rows, |before.table.columns|)
    requires after.name == before.name
    requires after.table.columns == before.table.columns && after.table.rows == before.table.rows
    requires forall a :: Lookup(after.comments, after.name, a) == Lookup(before.comments, before.name, a)
    ensures TableEvolves(before, after, next)
  {
    TracedColumnsEvolve(before, after, next, seq(|before.table.columns|, j => j));
  }

  lemma TableEvolvesTransitive(a: Annotated, b: Annotated, c: Annotated, next: nat, later: nat)
    requires TableEvolves(a, b, next) && TableEvolves(b, c, later) && next <= later && IdsBelow(a.table.columns, next)
    ensures TableEvolves(a, c, next)
  {
    hide CommentAt, SameCells;
    var x, y, z := a.table.columns, b.table.columns, c.table.columns;
    forall i, k | 0 <= i < |x| && 0 <= k < |z| && x[i].id == z[k].id ensures Carried(a, i, c, k) {
      assert HasId(y, z[k].id);
      var j :| 0 <= j < |y| && y[j].id == z[k].id;
      assert Carried(a, i, b, j) && Carried(b, j, c, k);
      CarriedOn(a, i, b, j, c, k);
    }
    forall k | 0 <= k < |z| ensures if z[k].id < next then HasId(x, z[k].id) else CommentAt(c, k) == None {
      if z[k].id < later {
        var j :| 0 <= j < |y| && y[j].id == z[k].id;
        assert Carried(b, j, c, k);
      }
    }
  }

  lemma CarriedOn(a: Annotated, i: nat, b: Annotated, j: nat, c: Annotated, k: nat)
    requires i < |a.table.columns| && j < |b.table.columns| && k < |c.table.columns|
    requires Carried(a, i, b, j) && Carried(b, j, c, k)
    ensures Carried(a, i, c, k)
  {
  }

  lemma AddEvolves(c: Catalog, table: string, name: string, defaults: seq<int>)
    requires Inv(c) && CanAdd(c, table, name, Some(defaults))
    ensures Evolves(c, Added(c, table, name, defaults))
  {
    hide Has, ForeignKeysResolve, SlotsFor, TableEvolves, IndexExact, IndexesResolve, ChecksResolve;
    var d := Added(c, table, name, defaults);
    forall t | t in c.tables ensures TableEvolves(At(c, t), At(d, t), c.nextColumnId) {
      assert TableOk(c.tables[t], c.nextColumnId);
      if t == table {
        var width := |c.tables[t].columns|;
        assert CommentAt(At(d, t), width) == None;
        TracedColumnsEvolve(At(c, t), At(d, t), c.nextColumnId, seq(width, j => j));
      } else {
        Untouched(At(c, t), At(d, t), c.nextColumnId);
      }
    }
  }

  lemma RenameEvolves(c: Catalog, table: string, from: string, to: string)
    requires Inv(c) && CanRename(c, table, from, to)
    ensures Evolves(c, Renamed(c, table, from, to))
  {
    hide Has, ForeignKeysResolve, TableEvolves, RenamedSlots, IndexExact, IndexesResolve, ChecksResolve;
    var d := Renamed(c, table, from, to);
    forall t | t in c.tables ensures TableEvolves(At(c, t), At(d, t), c.nextColumnId) {
      assert TableOk(c.tables[t], c.nextColumnId);
      if t == table {
        TracedColumnsEvolve(At(c, t), At(d, t), c.nextColumnId, seq(|c.tables[t].columns|, j => j));
      } else {
        Untouched(At(c, t), At(d, t), c.nextColumnId);
      }
    }
  }

  lemma DropEvolves(c: Catalog, table: string, name: string)
    requires Inv(c) && CanDrop(c, table, name)
    requires WidthsMatch(c.tables[table].rows, |c.tables[table].columns|)
    ensures Evolves(c, Dropped(c, table, name))
  {
    hide Has, ForeignKeysResolve, TableEvolves, ShiftedComments, IndexExact, IndexesResolve, ChecksResolve, DependsOn;
    var d := Dropped(c, table, name);
    var columns := c.tables[table].columns;
    var attnum := columns[PositionOf(columns, name)].attnum;
    forall t | t in c.tables ensures TableEvolves(At(c, t), At(d, t), c.nextColumnId) {
      assert TableOk(c.tables[t], c.nextColumnId);
      if t == table {
        DroppedTableEvolves(At(c, t), name, c.nextColumnId);
      } else {
        forall a ensures Lookup(d.comments, t, a) == Lookup(c.comments, t, a) {
          ShiftedLookup(c.comments, table, attnum, t, a);
        }
        Untouched(At(c, t), At(d, t), c.nextColumnId);
      }
    }
  }

  lemma DroppedTableEvolves(a: Annotated, name: string, next: nat)
    requires Has(a.table.columns, name) && IdsBelow(a.table.columns, next) && Numbered(a.table.columns)
    requires WidthsMatch(a.table.rows, |a.table.columns|)
    ensures var attnum := a.table.columns[PositionOf(a.table.columns, name)].attnum;
      var after := Annotated(a.name, WithoutColumn(a.table, name), ShiftedComments(a.comments, a.name, attnum));
      TableEvolves(a, after, next)
  {
    hide Has, ShiftedComments, TableEvolves, Carried, WithoutSlots;
    var p := PositionOf(a.table.columns, name);
    var attnum := a.table.columns[p].attnum;
    var after := Annotated(a.name, WithoutColumn(a.table, name), ShiftedComments(a.comments, a.name, attnum));
    var origin: seq<nat> := seq(|a.table.columns| - 1, (j: nat) => Before(j, p));
    assert SameKeys(a.table.rows, after.table.rows);
    forall j | 0 <= j < |origin| ensures Carried(a, origin[j], after, j) { DroppedCarries(a, after, name, j); }
    forall j | 0 <= j < |origin| ensures a.table.columns[origin[j]].id == after.table.columns[j].id { }
    TracedColumnsEvolve(a, after, next, origin);
  }

  lemma DroppedCarries(a: Annotated, after: Annotated, name: string, j: nat)
    requires Has(a.table.columns, name) && Numbered(a.table.columns) && j < |a.table.columns| - 1
    requires WidthsMatch(a.table.rows, |a.table.columns|)
    requires after.name == a.name && after.table == WithoutColumn(a.table, name)
    requires after.comments ==
      ShiftedComments(a.comments, a.name, a.table.columns[PositionOf(a.table.columns, name)].attnum)
    ensures Carried(a, Before(j, PositionOf(a.table.columns, name)), after, j)
  {
    hide Has, ShiftedComments, SameCells;
    var p := PositionOf(a.table.columns, name);
    DroppedCells(a.table, name, j);
    ShiftedLookup(a.comments, a.name, a.table.columns[p].attnum, a.name, j + 1);
  }

  lemma DroppedCells(t: Table, name: string, j: nat)
    requires WidthsMatch(t.rows, |t.columns|) && Has(t.columns, name) && j < |t.columns| - 1
    ensures SameCells(t, Before(j, PositionOf(t.columns, name)), WithoutColumn(t, name), j)
  {
  }

  // ---------------------------------------------------------------- what references name

  /** The identity of the column a name stands for. */
  ghost function IdOf(columns: seq<Column>, name: string): Option<nat>
  {
    if Has(columns, name) then Some(columns[PositionOf(columns, name)].id) else None
  }

  lemma IdOfAt(columns: seq<Column>, i: nat)
    requires i < |columns| && NamesDistinct(columns)
    ensures IdOf(columns, columns[i].name) == Some(columns[i].id)
  {
    assert Has(columns, columns[i].name);
  }

  /** Where `names` stood for columns of `before`, `renames` stands for the same columns of `after`. */
  ghost predicate SameNamed(before: seq<Column>, names: seq<string>, after: seq<Column>, renames: seq<string>)
  {
    |renames| == |names| && forall j :: 0 <= j < |names| ==> IdOf(after, renames[j]) == IdOf(before, names[j])
  }

  ghost predicate IndexesFollow(x: Table, y: Table)
  {
    && |y.indexes| == |x.indexes|
    && forall k :: 0 <= k < |x.indexes| ==>
         && IdOf(y.columns, y.indexes[k].column) == IdOf(x.columns, x.indexes[k].column)
         && SameNamed(x.columns, x.indexes[k].keyColumns, y.columns, y.indexes[k].keyColumns)
  }

  ghost predicate ForeignKeyFollows(c: Catalog, d: Catalog, t: string, k: nat)
    requires t in c.tables && t in d.tables && k < |c.tables[t].foreignKeys| && k < |d.tables[t].foreignKeys|
  {
    var a, b := c.tables[t].foreignKeys[k], d.tables[t].foreignKeys[k];
    && IdOf(d.tables[t].columns, b.column) == IdOf(c.tables[t].columns, a.column)
    && b.referencedTable == a.referencedTable
    && (a.referencedTable in c.tables && a.referencedTable in d.tables ==>
          IdOf(d.tables[a.referencedTable].columns, b.referencedColumn)
          == IdOf(c.tables[a.referencedTable].columns, a.referencedColumn))
  }

  /** Every index key, CHECK and foreign key still names the column it named, whatever it is called. */
  ghost predicate ReferencesFollow(c: Catalog, d: Catalog)
  {
    && d.tables.Keys == c.tables.Keys
    && (forall t :: t in c.tables ==>
          && IndexesFollow(c.tables[t], d.tables[t])
          && SameNamed(c.tables[t].columns, c.tables[t].checks, d.tables[t].columns, d.tables[t].checks)
          && |d.tables[t].foreignKeys| == |c.tables[t].foreignKeys|)
    && (forall t, k :: t in c.tables && 0 <= k < |c.tables[t].foreignKeys| && k < |d.tables[t].foreignKeys| ==>
          ForeignKeyFollows(c, d, t, k))
  }

  lemma ReferencesStay(c: Catalog)
    ensures ReferencesFollow(c, c)
  {
  }

  lemma ReferencesFollowOn(c: Catalog, d: Catalog, e: Catalog)
    requires ReferencesFollow(c, d) && ReferencesFollow(d, e)
    ensures ReferencesFollow(c, e)
  {
    hide IdOf;
    forall t, k | t in c.tables && 0 <= k < |c.tables[t].foreignKeys| && k < |e.tables[t].foreignKeys|
      ensures ForeignKeyFollows(c, e, t, k)
    {
      assert ForeignKeyFollows(c, d, t, k) && ForeignKeyFollows(d, e, t, k);
    }
  }

  /** Each table's columns are found again under these names. */
  ghost predicate Renames(x: seq<Column>, y: seq<Column>, from: string, to: string)
  {
    forall n :: Has(x, n) ==> IdOf(y, RenamedTo(n, from, to)) == IdOf(x, n)
  }

  lemma RenamedColumnsFound(x: seq<Column>, from: string, to: string)
    requires NamesDistinct(x) && !Has(x, to)
    ensures Renames(x, RenamedColumns(x, from, to), from, to)
  {
    var y := RenamedColumns(x, from, to);
    assert NamesDistinct(y);
    forall n | Has(x, n) ensures IdOf(y, RenamedTo(n, from, to)) == IdOf(x, n) {
      var i :| 0 <= i < |x| && x[i].name == n;
      IdOfAt(x, i);
      IdOfAt(y, i);
    }
  }

  lemma WidenedColumnsFound(x: seq<Column>, last: Column, n: string)
    requires NamesDistinct(x) && !Has(x, last.name) && Has(x, n)
    ensures IdOf(x + [last], n) == IdOf(x, n)
  {
    var y := x + [last];
    assert NamesDistinct(y) by { forall i | 0 <= i < |x| ensures x[i].name != last.name { } }
    var i :| 0 <= i < |x| && x[i].name == n;
    assert y[i] == x[i];
    IdOfAt(x, i);
    IdOfAt(y, i);
  }

  lemma NarrowedColumns(x: seq<Column>, p: nat)
    requires NamesDistinct(x) && p < |x|
    ensures var y := Renumbered(Omit(x, p));
      && NamesDistinct(y)
      && forall j :: 0 <= j < |y| ==> y[j].name == x[Before(j, p)].name && y[j].id == x[Before(j, p)].id
  {
    var y := Renumbered(Omit(x, p));
    forall j | 0 <= j < |y| ensures y[j].name == x[Before(j, p)].name && y[j].id == x[Before(j, p)].id { }
  }

  lemma NarrowedColumnsFound(x: seq<Column>, name: string, n: string)
    requires NamesDistinct(x) && Has(x, name) && Has(x, n) && n != name
    ensures IdOf(Renumbered(Omit(x, PositionOf(x, name))), n) == IdOf(x, n)
  {
    hide NamesDistinct, Renumbered, Omit, IdOf, PositionOf;
    var p := PositionOf(x, name);
    var y := Renumbered(Omit(x, p));
    NarrowedColumns(x, p);
    var i :| 0 <= i < |x| && x[i].name == n;
    var j := if i < p then i else i - 1;
    assert Before(j, p) == i;
    IdOfAt(x, i);
    IdOfAt(y, j);
  }

  ghost predicate AllFound(x: seq<Column>, y: seq<Column>)
  {
    forall n :: Has(x, n) ==> IdOf(y, n) == IdOf(x, n)
  }

  /** A table whose references did not change and whose resolved names all keep their meaning. */
  lemma UnchangedTableFollows(x: Table, y: Table)
    requires IndexesResolve(x.indexes, x.columns) && ChecksResolve(x.checks, x.columns)
    requires y.indexes == x.indexes && y.checks == x.checks
    requires forall k :: 0 <= k < |x.checks| ==> IdOf(y.columns, x.checks[k]) == IdOf(x.columns, x.checks[k])
    requires forall k, j :: 0 <= k < |x.indexes| && 0 <= j < |x.indexes[k].keyColumns| ==>
      IdOf(y.columns, x.indexes[k].keyColumns[j]) == IdOf(x.columns, x.indexes[k].keyColumns[j])
    ensures IndexesFollow(x, y) && SameNamed(x.columns, x.checks, y.columns, y.checks)
  {
    hide Has, IdOf;
    forall k | 0 <= k < |x.indexes|
      ensures IdOf(y.columns, y.indexes[k].column) == IdOf(x.columns, x.indexes[k].column)
    {
      var j :| 0 <= j < |x.indexes[k].keyColumns| && x.indexes[k].keyColumns[j] == x.indexes[k].column;
    }
  }

  lemma RenamedTableFollows(x: Table, y: Table, from: string, to: string)
    requires IndexesResolve(x.indexes, x.columns) && ChecksResolve(x.checks, x.columns)
    requires Renames(x.columns, y.columns, from, to)
    requires y.indexes == RenamedIndexes(x.indexes, from, to) && y.checks == RenamedNames(x.checks, from, to)
    ensures IndexesFollow(x, y) && SameNamed(x.columns, x.checks, y.columns, y.checks)
  {
    hide Has, IdOf, RenamedTo;
    forall k | 0 <= k < |x.indexes|
      ensures IdOf(y.columns, y.indexes[k].column) == IdOf(x.columns, x.indexes[k].column)
      ensures SameNamed(x.columns, x.indexes[k].keyColumns, y.columns, y.indexes[k].keyColumns)
    {
      assert Has(x.columns, x.indexes[k].column);
    }
  }

  lemma AddFollows(c: Catalog, table: string, name: string, defaults: seq<int>)
    requires Inv(c) && CanAdd(c, table, name, Some(defaults))
    ensures ReferencesFollow(c, Added(c, table, name, defaults))
  {
    hide Has, IdOf, IndexExact, SlotsFor, Widened, CommentsResolve, IndexesFollow, SameNamed;
    var d := Added(c, table, name, defaults);
    var last := Column(c.nextColumnId, |c.tables[table].columns| + 1, name);
    forall t | t in c.tables ensures AllFound(c.tables[t].columns, d.tables[t].columns) {
      assert TableOk(c.tables[t], c.nextColumnId);
      if t == table {
        forall n | Has(c.tables[t].columns, n) ensures IdOf(d.tables[t].columns, n) == IdOf(c.tables[t].columns, n) {
          WidenedColumnsFound(c.tables[t].columns, last, n);
        }
      }
    }
    UnchangedReferencesFollow(c, d);
  }

  /** References that did not change follow when every name that resolved keeps its meaning. */
  lemma UnchangedReferencesFollow(c: Catalog, d: Catalog)
    requires Inv(c) && d.tables.Keys == c.tables.Keys
    requires forall t :: t in c.tables ==> AllFound(c.tables[t].columns, d.tables[t].columns)
    requires forall t :: t in c.tables ==>
      && d.tables[t].indexes == c.tables[t].indexes && d.tables[t].checks == c.tables[t].checks
      && d.tables[t].foreignKeys == c.tables[t].foreignKeys
    ensures ReferencesFollow(c, d)
  {
    hide Has, IdOf, IndexExact, CommentsResolve, IndexesFollow, SameNamed;
    forall t | t in c.tables
      ensures IndexesFollow(c.tables[t], d.tables[t])
      ensures SameNamed(c.tables[t].columns, c.tables[t].checks, d.tables[t].columns, d.tables[t].checks)
    {
      assert TableOk(c.tables[t], c.nextColumnId);
      UnchangedTableFollows(c.tables[t], d.tables[t]);
    }
    forall t, k | t in c.tables && 0 <= k < |c.tables[t].foreignKeys| && k < |d.tables[t].foreignKeys|
      ensures ForeignKeyFollows(c, d, t, k)
    {
      assert ForeignKeyResolves(c.tables[t].foreignKeys[k], c.tables[t].columns, c.tables);
    }
  }

  lemma RenameFollows(c: Catalog, table: string, from: string, to: string)
    requires Inv(c) && CanRename(c, table, from, to)
    ensures ReferencesFollow(c, Renamed(c, table, from, to))
  {
    hide Has, IdOf, IndexExact, RenamedSlots, CommentsResolve, IndexesFollow, SameNamed, Renames, RenamedColumns;
    var d := Renamed(c, table, from, to);
    assert TableOk(c.tables[table], c.nextColumnId);
    RenamedColumnsFound(c.tables[table].columns, from, to);
    forall t | t in c.tables
      ensures IndexesFollow(c.tables[t], d.tables[t])
      ensures SameNamed(c.tables[t].columns, c.tables[t].checks, d.tables[t].columns, d.tables[t].checks)
    {
      assert TableOk(c.tables[t], c.nextColumnId);
      if t == table {
        RenamedTableFollows(c.tables[t], d.tables[t], from, to);
      } else {
        UnchangedTableFollows(c.tables[t], d.tables[t]);
      }
    }
    forall t, k | t in c.tables && 0 <= k < |c.tables[t].foreignKeys| && k < |d.tables[t].foreignKeys|
      ensures ForeignKeyFollows(c, d, t, k)
    {
      RenamedForeignKeyFollows(c, table, from, to, t, k);
    }
  }

  lemma RenamedForeignKeyFollows(c: Catalog, table: string, from: string, to: string, t: string, k: nat)
    requires CanRename(c, table, from, to) && ForeignKeysResolve(c.tables)
    requires Renames(c.tables[table].columns, RenamedColumns(c.tables[table].columns, from, to), from, to)
    requires t in c.tables && k < |c.tables[t].foreignKeys|
    ensures ForeignKeyFollows(c, Renamed(c, table, from, to), t, k)
  {
    hide Has, IdOf, RenamedColumns, RenamedSlots, RenamedIndexes, RenamedNames;
    assert ForeignKeyResolves(c.tables[t].foreignKeys[k], c.tables[t].columns, c.tables);
  }

  lemma DropFollows(c: Catalog, table: string, name: string)
    requires Inv(c) && CanDrop(c, table, name)
    requires WidthsMatch(c.tables[table].rows, |c.tables[table].columns|)
    ensures ReferencesFollow(c, Dropped(c, table, name))
  {
    hide Has, IdOf, IndexExact, CommentsResolve, IndexesFollow, SameNamed, ShiftedComments, WithoutSlots, Narrowed,
         Renumbered, Omit;
    var d := Dropped(c, table, name);
    forall t | t in c.tables
      ensures IndexesFollow(c.tables[t], d.tables[t])
      ensures SameNamed(c.tables[t].columns, c.tables[t].checks, d.tables[t].columns, d.tables[t].checks)
    {
      assert TableOk(c.tables[t], c.nextColumnId);
      if t == table { DroppedTableFollows(c, table, name); }
      UnchangedTableFollows(c.tables[t], d.tables[t]);
    }
    forall t, k | t in c.tables && 0 <= k < |c.tables[t].foreignKeys| && k < |d.tables[t].foreignKeys|
      ensures ForeignKeyFollows(c, d, t, k)
    {
      DroppedForeignKeyFollows(c, table, name, t, k);
    }
  }

  lemma DroppedTableFollows(c: Catalog, table: string, name: string)
    requires CanDrop(c, table, name) && TableOk(c.tables[table], c.nextColumnId)
    ensures var x := c.tables[table]; var y := Renumbered(Omit(x.columns, PositionOf(x.columns, name)));
      && (forall k :: 0 <= k < |x.checks| ==> IdOf(y, x.checks[k]) == IdOf(x.columns, x.checks[k]))
      && (forall k, j :: 0 <= k < |x.indexes| && 0 <= j < |x.indexes[k].keyColumns| ==>
            IdOf(y, x.indexes[k].keyColumns[j]) == IdOf(x.columns, x.indexes[k].keyColumns[j]))
  {
    hide Has, IdOf, IndexExact, Renumbered, Omit, PositionOf;
    var x := c.tables[table];
    var y := Renumbered(Omit(x.columns, PositionOf(x.columns, name)));
    forall k | 0 <= k < |x.checks| ensures IdOf(y, x.checks[k]) == IdOf(x.columns, x.checks[k]) {
      assert x.checks[k] != name;
      NarrowedColumnsFound(x.columns, name, x.checks[k]);
    }
    forall k, j | 0 <= k < |x.indexes| && 0 <= j < |x.indexes[k].keyColumns|
      ensures IdOf(y, x.indexes[k].keyColumns[j]) == IdOf(x.columns, x.indexes[k].keyColumns[j])
    {
      assert x.indexes[k].keyColumns[j] in x.indexes[k].keyColumns;
      NarrowedColumnsFound(x.columns, name, x.indexes[k].keyColumns[j]);
    }
  }

  lemma DroppedForeignKeyFollows(c: Catalog, table: string, name: string, t: string, k: nat)
    requires Inv(c) && CanDrop(c, table, name) && t in c.tables && k < |c.tables[t].foreignKeys|
    requires WidthsMatch(c.tables[table].rows, |c.tables[table].columns|)
    ensures ForeignKeyFollows(c, Dropped(c, table, name), t, k)
  {
    hide Has, IdOf, IndexExact, CommentsResolve, ShiftedComments, WithoutSlots, Narrowed, Renumbered, Omit;
    var fk := c.tables[t].foreignKeys[k];
    assert ForeignKeyResolves(fk, c.tables[t].columns, c.tables);
    assert TableOk(c.tables[table], c.nextColumnId);
    if t == table { NarrowedColumnsFound(c.tables[table].columns, name, fk.column); }
    if fk.referencedTable == table {
      assert !References(c.tables[t].foreignKeys, table, name);
      NarrowedColumnsFound(c.tables[table].columns, name, fk.referencedColumn);
    }
  }

  // ---------------------------------------------------------------- whole runs

  datatype Statement =
    | AddColumn(table: string, name: string, backfill: Option<seq<int>>)
    | RenameColumn(table: string, from: string, to: string)
    | DropColumn(table: string, name: string)

  /** A statement that is refused changes nothing. */
  ghost function Step(c: Catalog, s: Statement): (d: Catalog)
    requires Inv(c)
    ensures Inv(d) && Evolves(c, d)
  {
    match s
    case AddColumn(table, name, backfill) =>
      if CanAdd(c, table, name, backfill) then
        AddKeepsInv(c, table, name, backfill.value);
        AddEvolves(c, table, name, backfill.value);
        Added(c, table, name, backfill.value)
      else
        EvolvesReflexive(c);
        c
    case RenameColumn(table, from, to) =>
      if CanRename(c, table, from, to) then
        RenameKeepsInv(c, table, from, to);
        RenameEvolves(c, table, from, to);
        Renamed(c, table, from, to)
      else
        EvolvesReflexive(c);
        c
    case DropColumn(table, name) =>
      if CanDrop(c, table, name) then
        DropKeepsInv(c, table, name);
        DropEvolves(c, table, name);
        Dropped(c, table, name)
      else
        EvolvesReflexive(c);
        c
  }

  ghost function Run(c: Catalog, statements: seq<Statement>): Catalog
    requires Inv(c)
    decreases |statements|
  {
    if statements == [] then c else Run(Step(c, statements[0]), statements[1..])
  }

  /** The column, by table and id, that an accepted DROP COLUMN names. */
  ghost function DropsNow(c: Catalog, s: Statement): set<(string, nat)>
  {
    if s.DropColumn? && CanDrop(c, s.table, s.name) then
      var columns := c.tables[s.table].columns;
      {(s.table, columns[PositionOf(columns, s.name)].id)}
    else {}
  }

  ghost function DropsOver(c: Catalog, statements: seq<Statement>): set<(string, nat)>
    requires Inv(c)
    decreases |statements|
  {
    if statements == [] then {}
    else DropsNow(c, statements[0]) + DropsOver(Step(c, statements[0]), statements[1..])
  }

  /** The columns of `c` that are still there are exactly those no accepted statement dropped. */
  ghost predicate OnlyDropsRemove(c: Catalog, d: Catalog, drops: set<(string, nat)>)
  {
    && d.tables.Keys == c.tables.Keys
    && forall t, i :: t in c.tables && 0 <= i < |c.tables[t].columns| ==>
         (HasId(d.tables[t].columns, c.tables[t].columns[i].id) <==> (t, c.tables[t].columns[i].id) !in drops)
  }

  lemma SameIdsKeepAll(before: seq<Column>, after: seq<Column>)
    requires |before| <= |after| && forall i :: 0 <= i < |before| ==> after[i].id == before[i].id
    ensures forall i :: 0 <= i < |before| ==> HasId(after, before[i].id)
  {
  }

  lemma OmitRemovesOne(columns: seq<Column>, p: nat, next: nat)
    requires p < |columns| && IdsBelow(columns, next)
    ensures forall i :: 0 <= i < |columns| ==> (HasId(Renumbered(Omit(columns, p)), columns[i].id) <==> i != p)
  {
    var after := Renumbered(Omit(columns, p));
    assert forall j :: 0 <= j < |after| ==> after[j].id == columns[Before(j, p)].id;
    forall i | 0 <= i < |columns| ensures HasId(after, columns[i].id) <==> i != p {
      if i != p { assert after[if i < p then i else i - 1].id == columns[i].id; }
    }
  }

  lemma StepOnlyDrops(c: Catalog, s: Statement)
    requires Inv(c)
    ensures OnlyDropsRemove(c, Step(c, s), DropsNow(c, s))
  {
    hide TableOk, Has, ForeignKeysResolve, CommentsResolve, TableEvolves, DependsOn, HasId,
         Renumbered, Omit, WithoutSlots, ShiftedComments, Narrowed;
    var d := Step(c, s);
    forall t | t in c.tables
      ensures forall i :: 0 <= i < |c.tables[t].columns| ==>
        (HasId(d.tables[t].columns, c.tables[t].columns[i].id) <==> (t, c.tables[t].columns[i].id) !in DropsNow(c, s))
    {
      var columns := c.tables[t].columns;
      IdsOfTable(c.tables[t], c.nextColumnId);
      if s.DropColumn? && s.table == t && CanDrop(c, t, s.name) {
        OmitRemovesOne(columns, PositionOf(columns, s.name), c.nextColumnId);
      } else {
        SameIdsKeepAll(columns, d.tables[t].columns);
      }
    }
  }

  lemma IdsOfTable(t: Table, next: nat)
    requires TableOk(t, next)
    ensures IdsBelow(t.columns, next)
  {
  }

  /** Ids are never used again, so what is gone after the first step stays gone. */
  lemma DropsAccumulate(c: Catalog, d: Catalog, e: Catalog, now: set<(string, nat)>, later: set<(string, nat)>)
    requires Inv(c) && Evolves(c, d) && Evolves(d, e)
    requires OnlyDropsRemove(c, d, now) && OnlyDropsRemove(d, e, later)
    ensures OnlyDropsRemove(c, e, now + later)
  {
    hide Carried, SameKeys, CommentAt, IndexExact, IndexesResolve, ChecksResolve, ForeignKeysResolve, CommentsResolve;
    forall t, i | t in c.tables && 0 <= i < |c.tables[t].columns|
      ensures HasId(e.tables[t].columns, c.tables[t].columns[i].id) <==> (t, c.tables[t].columns[i].id) !in now + later
    {
      var x, y, z := c.tables[t].columns, d.tables[t].columns, e.tables[t].columns;
      assert TableOk(c.tables[t], c.nextColumnId) && x[i].id < c.nextColumnId <= d.nextColumnId;
      assert TableEvolves(At(d, t), At(e, t), d.nextColumnId);
      assert HasId(z, x[i].id) ==> HasId(y, x[i].id);
      if HasId(y, x[i].id) {
        var j :| 0 <= j < |y| && y[j].id == x[i].id;
        assert HasId(z, y[j].id) <==> (t, y[j].id) !in later;
      }
    }
  }

  /** After any sequence of column statements attribute numbers are 1..n, rows are as wide as the column
      list, the value index is exact, every index key, CHECK and foreign key names the column it always
      named, exactly the columns named by an accepted DROP are gone, and every other column kept its
      comment and its cells. */
  lemma {:induction false} ColumnRunsKeepEverything(c: Catalog, statements: seq<Statement>)
    requires Inv(c)
    ensures Inv(Run(c, statements)) && Evolves(c, Run(c, statements))
    ensures OnlyDropsRemove(c, Run(c, statements), DropsOver(c, statements))
    ensures ReferencesFollow(c, Run(c, statements))
    decreases |statements|
  {
    hide Inv, Evolves, OnlyDropsRemove, DropsNow, ReferencesFollow;
    if statements == [] {
      EvolvesReflexive(c);
      NothingDropped(c);
      ReferencesStay(c);
    } else {
      var d := Step(c, statements[0]);
      ColumnRunsKeepEverything(d, statements[1..]);
      Chain(c, d, Run(c, statements));
      StepOnlyDrops(c, statements[0]);
      DropsAccumulate(c, d, Run(c, statements), DropsNow(c, statements[0]), DropsOver(d, statements[1..]));
      StepReferencesFollow(c, statements[0]);
      ReferencesFollowOn(c, d, Run(c, statements));
    }
  }

  lemma StepReferencesFollow(c: Catalog, s: Statement)
    requires Inv(c)
    ensures ReferencesFollow(c, Step(c, s))
  {
    hide Inv, ReferencesFollow, Evolves, CanRename, CanDrop;
    match s
    case AddColumn(table, name, backfill) =>
      if CanAdd(c, table, name, backfill) { AddFollows(c, table, name, backfill.value); } else { ReferencesStay(c); }
    case RenameColumn(table, from, to) =>
      if CanRename(c, table, from, to) { RenameFollows(c, table, from, to); } else { ReferencesStay(c); }
    case DropColumn(table, name) =>
      if CanDrop(c, table, name) {
        DropKeepsInv(c, table, name);
        DropFollows(c, table, name);
      } else {
        ReferencesStay(c);
      }
  }

  lemma NothingDropped(c: Catalog)
    ensures OnlyDropsRemove(c, c, {})
  {
  }

  lemma Chain(c: Catalog, d: Catalog, e: Catalog)
    requires Inv(c) && Inv(d) && Evolves(c, d) && Evolves(d, e)
    ensures Evolves(c, e)
  {
    hide TableEvolves, IndexExact, IndexesResolve, ChecksResolve, ForeignKeysResolve, CommentsResolve, NamesDistinct;
    forall t | t in c.tables ensures TableEvolves(At(c, t), At(e, t), c.nextColumnId) {
      assert TableOk(c.tables[t], c.nextColumnId);
      TableEvolvesTransitive(At(c, t), At(d, t), At(e, t), c.nextColumnId, d.nextColumnId);
    }
  }

  // ---------------------------------------------------------------- what each statement is for

  /** ADD COLUMN appends one column with the given name and a fresh id, holding its default in every
      row; RENAME COLUMN gives the column its new name.  Every other column keeps id and name. */
  lemma AddAndRenameMeaning(c: Catalog, s: Statement)
    requires Inv(c)
    requires match s
      case AddColumn(table, name, backfill) => CanAdd(c, table, name, backfill)
      case RenameColumn(table, from, to) => CanRename(c, table, from, to)
      case DropColumn(_, _) => false
    ensures var d := Step(c, s); var x, y := c.tables[s.table], d.tables[s.table];
      match s
      case AddColumn(_, name, backfill) =>
        && y.columns == x.columns + [Column(c.nextColumnId, |x.columns| + 1, name)]
        && (forall r :: 0 <= r < |x.rows| ==> y.rows[r].values == x.rows[r].values + [backfill.value[r]])
        && d == c.(tables := c.tables[s.table := y], nextColumnId := c.nextColumnId + 1)
      case RenameColumn(_, from, to) =>
        && |y.columns| == |x.columns| && y.rows == x.rows
        && (forall i :: 0 <= i < |x.columns| ==>
              && y.columns[i].id == x.columns[i].id && y.columns[i].attnum == x.columns[i].attnum
              && y.columns[i].name == if x.columns[i].name == from then to else x.columns[i].name)
        && d.comments == c.comments && d.nextColumnId == c.nextColumnId
      case _ => true
  {
    hide IndexExact, IndexesResolve, ChecksResolve, ForeignKeysResolve, CommentsResolve, Evolves, SlotsFor;
    hide RenamedSlots;
  }

  /** Every refusal has one of these reasons, and each of them is one. */
  lemma RefusedIff(c: Catalog, s: Statement)
    ensures
      match s
      case AddColumn(table, name, backfill) =>
        !CanAdd(c, table, name, backfill) <==>
          || table in c.otherRelations || table !in c.tables || backfill.None?
          || (exists i :: 0 <= i < |c.tables[table].columns| && c.tables[table].columns[i].name == name)
          || |backfill.value| != |c.tables[table].rows|
          || |c.tables[table].columns| >= 0x7FFF || c.nextColumnId >= 0xFFFF_FFFF
      case RenameColumn(table, from, to) =>
        !CanRename(c, table, from, to) <==>
          || table in c.otherRelations || table !in c.tables
          || (forall i :: 0 <= i < |c.tables[table].columns| ==> c.tables[table].columns[i].name != from)
          || (exists i :: 0 <= i < |c.tables[table].columns| && c.tables[table].columns[i].name == to)
      case DropColumn(table, name) =>
        !CanDrop(c, table, name) <==>
          || table in c.otherRelations || table !in c.tables
          || (forall i :: 0 <= i < |c.tables[table].columns| ==> c.tables[table].columns[i].name != name)
          || (exists k :: 0 <= k < |c.tables[table].indexes| && name in c.tables[table].indexes[k].keyColumns)
          || (exists k :: 0 <= k < |c.tables[table].checks| && c.tables[table].checks[k] == name)
          || (exists k :: 0 <= k < |c.tables[table].foreignKeys| && c.tables[table].foreignKeys[k].column == name)
          || (exists t :: t in c.tables && References(c.tables[t].foreignKeys, table, name))
  {
  }

  /** Renaming a column there and back restores the whole catalog. */
  lemma RenameBackRestores(c: Catalog, table: string, from: string, to: string)
    requires Inv(c) && CanRename(c, table, from, to)
    ensures var d := Renamed(c, table, from, to);
      CanRename(d, table, to, from) && Renamed(d, table, to, from) == c
  {
    hide IndexExact, CommentsResolve;
    var d := Renamed(c, table, from, to);
    RenameBackAllowed(c.tables[table].columns, from, to);
    var e := Renamed(d, table, to, from);
    forall t | t in c.tables ensures e.tables[t] == c.tables[t] {
      assert TableOk(c.tables[t], c.nextColumnId);
      ForeignKeysBack(c, table, from, to, t);
      if t == table { TableBack(c.tables[t], table, from, to, c.nextColumnId); }
    }
    assert e.tables == c.tables;
  }

  lemma RenameBackAllowed(columns: seq<Column>, from: string, to: string)
    requires Has(columns, from) && !Has(columns, to)
    ensures var after := RenamedColumns(columns, from, to); Has(after, to) && !Has(after, from)
  {
    var after := RenamedColumns(columns, from, to);
    var i :| 0 <= i < |columns| && columns[i].name == from;
    assert after[i].name == to;
  }

  lemma NamesBack(columns: seq<Column>, names: seq<string>, from: string, to: string)
    requires !Has(columns, to) && forall j :: 0 <= j < |names| ==> Has(columns, names[j])
    ensures RenamedNames(RenamedNames(names, from, to), to, from) == names
  {
    hide Has;
    forall j | 0 <= j < |names| ensures names[j] != to { }
  }

  lemma ForeignKeysBack(c: Catalog, table: string, from: string, to: string, t: string)
    requires ForeignKeysResolve(c.tables) && CanRename(c, table, from, to) && t in c.tables
    ensures var fks := c.tables[t].foreignKeys; var own := t == table;
      RenamedForeignKeys(RenamedForeignKeys(fks, table, own, from, to), table, own, to, from) == fks
  {
    hide Has;
    var fks := c.tables[t].foreignKeys;
    forall k | 0 <= k < |fks|
      ensures t == table ==> fks[k].column != to
      ensures fks[k].referencedTable == table ==> fks[k].referencedColumn != to
    {
      assert ForeignKeyResolves(fks[k], c.tables[t].columns, c.tables);
    }
  }

  /** Which slots there are after re-keying, and what they list. */
  lemma RenamedSlotAt(index: ValueIndex, from: string, to: string, k: (string, int))
    requires from != to
    ensures var after := RenamedSlots(index, from, to);
      var was := if k.0 == to then (from, k.1) else k;
      (k in after <==> k.0 != from && was in index) && (k in after ==> after[k] == index[was])
  {
    if k.0 == to && (from, k.1) in index {
      var j := (from, k.1);
      assert j in index && j.0 == from && k == (to, j.1);
    }
  }

  lemma SlotsBack(index: ValueIndex, from: string, to: string)
    requires from != to && forall k :: k in index ==> k.0 != to
    ensures RenamedSlots(RenamedSlots(index, from, to), to, from) == index
  {
    hide RenamedSlots;
    var there := RenamedSlots(index, from, to);
    var back := RenamedSlots(there, to, from);
    forall k: (string, int) ensures (k in back <==> k in index) && (k in index ==> back[k] == index[k]) {
      RenamedSlotAt(there, to, from, k);
      RenamedSlotAt(index, from, to, if k.0 == from then (to, k.1) else k);
    }
  }

  lemma TableBack(x: Table, table: string, from: string, to: string, next: nat)
    requires TableOk(x, next) && Has(x.columns, from) && !Has(x.columns, to)
    requires RenamedForeignKeys(RenamedForeignKeys(x.foreignKeys, table, true, from, to), table, true, to, from)
          == x.foreignKeys
    ensures WithRenamed(WithRenamed(x, table, from, to), table, to, from) == x
  {
    hide Has, RenamedForeignKeys;
    var y := WithRenamed(WithRenamed(x, table, from, to), table, to, from);
    assert y.columns == x.columns by {
      forall i | 0 <= i < |x.columns| ensures x.columns[i].name != to { NameIsThere(x.columns, i); }
    }
    NamesBack(x.columns, x.checks, from, to);
    forall k | 0 <= k < |x.indexes| ensures y.indexes[k] == x.indexes[k] {
      NamesBack(x.columns, x.indexes[k].keyColumns, from, to);
      assert Has(x.columns, x.indexes[k].column);
    }
    assert y.indexes == x.indexes;
    SlotsBack(x.valueIndex, from, to);
  }

  lemma NameIsThere(columns: seq<Column>, i: nat)
    requires i < |columns|
    ensures Has(columns, columns[i].name)
  {
  }

  /** A column just added can be dropped, and that restores everything but the spent column id. */
  lemma AddThenDropRestores(c: Catalog, table: string, name: string, defaults: seq<int>)
    requires Inv(c) && CanAdd(c, table, name, Some(defaults))
    ensures var d := Added(c, table, name, defaults);
      && CanDrop(d, table, name) && WidthsMatch(d.tables[table].rows, |d.tables[table].columns|)
      && Dropped(d, table, name) == c.(nextColumnId := c.nextColumnId + 1)
  {
    hide IndexExact, Has, ShiftedComments, WithColumn, WithoutColumn, PositionOf, DependsOn;
    var d := Added(c, table, name, defaults);
    var x := c.tables[table];
    assert TableOk(x, c.nextColumnId);
    ColumnAddedAndDropped(x, c.nextColumnId, name, defaults);
    NothingNamesIt(c, d, table, name);
    CommentsStay(c, table);
    assert Dropped(d, table, name).tables == c.tables;
  }

  lemma ColumnAddedAndDropped(x: Table, next: nat, name: string, defaults: seq<int>)
    requires TableOk(x, next) && !Has(x.columns, name) && |defaults| == |x.rows|
    ensures var y := WithColumn(x, next, name, defaults);
      && Has(y.columns, name) && WidthsMatch(y.rows, |y.columns|)
      && y.columns[PositionOf(y.columns, name)].attnum == |x.columns| + 1
      && y.indexes == x.indexes && y.checks == x.checks && y.foreignKeys == x.foreignKeys
      && WithoutColumn(y, name) == x
  {
    hide IndexExact, Has, SlotsFor, WithoutSlots, Renumbered, Omit, Widened, Narrowed, PositionOf;
    LastColumn(x.columns, Column(next, |x.columns| + 1, name));
    NarrowedBack(x.rows, defaults, |x.columns|);
    NoSlots(x, name);
    SlotsGone(x.valueIndex, name, x.rows, defaults);
  }

  lemma NothingNamesIt(c: Catalog, d: Catalog, table: string, name: string)
    requires Inv(c) && table in c.tables && !Has(c.tables[table].columns, name) && d.tables.Keys == c.tables.Keys
    requires forall t :: t in c.tables ==>
      && d.tables[t].indexes == c.tables[t].indexes && d.tables[t].checks == c.tables[t].checks
      && d.tables[t].foreignKeys == c.tables[t].foreignKeys
    ensures !DependsOn(d, table, name)
  {
    hide IndexExact, Has;
    var x := c.tables[table];
    assert TableOk(x, c.nextColumnId);
    forall k | 0 <= k < |x.foreignKeys| ensures x.foreignKeys[k].column != name {
      assert ForeignKeyResolves(x.foreignKeys[k], x.columns, c.tables);
    }
    forall t | t in c.tables ensures !References(c.tables[t].foreignKeys, table, name) {
      forall k | 0 <= k < |c.tables[t].foreignKeys|
        ensures c.tables[t].foreignKeys[k].referencedTable == table ==>
          c.tables[t].foreignKeys[k].referencedColumn != name
      {
        assert ForeignKeyResolves(c.tables[t].foreignKeys[k], c.tables[t].columns, c.tables);
      }
    }
  }

  lemma LastColumn(columns: seq<Column>, last: Column)
    requires Numbered(columns) && !Has(columns, last.name)
    ensures Has(columns + [last], last.name) && PositionOf(columns + [last], last.name) == |columns|
    ensures Renumbered(Omit(columns + [last], |columns|)) == columns
  {
    var longer := columns + [last];
    assert longer[|columns|] == last;
    forall i | 0 <= i < |columns| ensures longer[i].name != last.name { NameIsThere(columns, i); }
    assert Omit(longer, |columns|) == columns;
  }

  lemma NarrowedBack(rows: seq<Row>, defaults: seq<int>, width: nat)
    requires |defaults| == |rows| && WidthsMatch(rows, width)
    ensures WidthsMatch(Widened(rows, defaults), width + 1) && Narrowed(Widened(rows, defaults), width) == rows
  {
    forall k | 0 <= k < |rows| ensures Omit(rows[k].values + [defaults[k]], width) == rows[k].values { }
  }

  lemma NoSlots(x: Table, name: string)
    requires WidthsMatch(x.rows, |x.columns|) && IndexExact(x.valueIndex, x.columns, x.rows) && !Has(x.columns, name)
    ensures forall k :: k in x.valueIndex ==> k.0 != name
  {
  }

  lemma {:induction false} SlotsGone(index: ValueIndex, name: string, rows: seq<Row>, defaults: seq<int>)
    requires |defaults| == |rows| && forall k :: k in index ==> k.0 != name
    ensures WithoutSlots(SlotsFor(index, name, rows, defaults), name) == index
  {
    if rows != [] {
      var n := |rows| - 1;
      SlotsGone(index, name, rows[..n], defaults[..n]);
      var before := SlotsFor(index, name, rows[..n], defaults[..n]);
      var after := SlotsFor(index, name, rows, defaults);
      assert WithoutSlots(after, name) == WithoutSlots(before, name);
    }
  }

  lemma CommentsStay(c: Catalog, table: string)
    requires CommentsResolve(c.comments, c.tables) && table in c.tables
    ensures ShiftedComments(c.comments, table, |c.tables[table].columns| + 1) == c.comments
  {
    hide ShiftedComments;
    var n := |c.tables[table].columns| + 1;
    var shifted := ShiftedComments(c.comments, table, n);
    forall t, a ensures Lookup(shifted, t, a) == Lookup(c.comments, t, a) {
      ShiftedLookup(c.comments, table, n, t, a);
      assert t == table && a >= n ==> (t, a) !in c.comments && (t, a + 1) !in c.comments;
    }
    SameLookups(shifted, c.comments);
  }

  lemma SameLookups(a: map<(string, int), string>, b: map<(string, int), string>)
    requires forall t, n :: Lookup(a, t, n) == Lookup(b, t, n)
    ensures a == b
  {
    forall k: (string, int) ensures (k in a <==> k in b) && (k in a ==> a[k] == b[k]) {
      assert Lookup(a, k.0, k.1) == Lookup(b, k.0, k.1) && k == (k.0, k.1);
    }
  }

  // ---------------------------------------------------------------- the statements as executed

  method RenameNames(names: seq<string>, from: string, to: string) returns (renamed: seq<string>)
    ensures renamed == RenamedNames(names, from, to)
  {
    renamed := [];
    for k := 0 to |names|
      invariant |renamed| == k && forall j :: 0 <= j < k ==> renamed[j] == RenamedTo(names[j], from, to)
    {
      renamed := renamed + [if names[k] == from then to else names[k]];
    }
  }

  method RenameIndexes(indexes: seq<Index>, from: string, to: string) returns (renamed: seq<Index>)
    ensures renamed == RenamedIndexes(indexes, from, to)
  {
    renamed := [];
    for k := 0 to |indexes|
      invariant |renamed| == k
      invariant forall j :: 0 <= j < k ==>
        renamed[j] == Index(RenamedTo(indexes[j].column, from, to), RenamedNames(indexes[j].keyColumns, from, to))
    {
      var keys := RenameNames(indexes[k].keyColumns, from, to);
      renamed := renamed + [Index(if indexes[k].column == from then to else indexes[k].column, keys)];
    }
  }

  method RenameForeignKeys(fks: seq<ForeignKey>, table: string, own: bool, from: string, to: string)
    returns (renamed: seq<ForeignKey>)
    ensures renamed == RenamedForeignKeys(fks, table, own, from, to)
  {
    renamed := fks;
    for k := 0 to |fks|
      invariant |renamed| == |fks|
      invariant forall j :: 0 <= j < k ==> renamed[j] == RenamedForeignKeys(fks, table, own, from, to)[j]
      invariant forall j :: k <= j < |fks| ==> renamed[j] == fks[j]
    {
      if own && renamed[k].column == from { renamed := renamed[k := renamed[k].(column := to)]; }
      if renamed[k].referencedTable == table && renamed[k].referencedColumn == from {
        renamed := renamed[k := renamed[k].(referencedColumn := to)];
      }
    }
  }

  class ColumnCatalog {
    var tables: map<string, Table>
    var otherRelations: set<string>
    var comments: map<(string, int), string>
    var nextColumnId: nat

    ghost function View(): Catalog
      reads this
    {
      Catalog(tables, otherRelations, comments, nextColumnId)
    }

    /** Rewrite every row with its default and index the new value. */
    method Backfill(t: Table, name: string, defaults: seq<int>) returns (rows: seq<Row>, index: ValueIndex)
      requires |defaults| == |t.rows|
      ensures rows == Widened(t.rows, defaults) && index == SlotsFor(t.valueIndex, name, t.rows, defaults)
    {
      rows, index := [], t.valueIndex;
      for k := 0 to |t.rows|
        invariant |rows| == k
        invariant forall j :: 0 <= j < k ==> rows[j] == Row(t.rows[j].key, t.rows[j].values + [defaults[j]])
        invariant index == SlotsFor(t.valueIndex, name, t.rows[..k], defaults[..k])
      {
        assert t.rows[..k + 1][..k] == t.rows[..k] && defaults[..k + 1][..k] == defaults[..k];
        rows := rows + [Row(t.rows[k].key, t.rows[k].values + [defaults[k]])];
        index := index[(name, defaults[k]) := Slot(index, name, defaults[k]) + [t.rows[k].key]];
      }
      assert t.rows[..|t.rows|] == t.rows && defaults[..|t.rows|] == defaults;
    }

    method ApplyAddColumn(table: string, name: string, backfill: Option<seq<int>>) returns (ok: bool)
      modifies this
      ensures ok <==> CanAdd(old(View()), table, name, backfill)
      ensures View() == if ok then Added(old(View()), table, name, backfill.value) else old(View())
    {
      if table in otherRelations || table !in tables { return false; }
      var t := tables[table];
      if Has(t.columns, name) { return false; }
      if backfill.None? || |backfill.value| != |t.rows| { return false; }
      if |t.columns| + 1 > I16_MAX || nextColumnId >= U32_MAX { return false; }
      var rows, index := Backfill(t, name, backfill.value);
      var column := Column(nextColumnId, |t.columns| + 1, name);
      tables := tables[table := t.(columns := t.columns + [column], rows := rows, valueIndex := index)];
      nextColumnId := nextColumnId + 1;
      ok := true;
    }

    method ApplyRenameColumn(table: string, from: string, to: string) returns (ok: bool)
      modifies this`tables
      ensures ok <==> CanRename(old(View()), table, from, to)
      ensures View() == if ok then Renamed(old(View()), table, from, to) else old(View())
    {
      if table in otherRelations || table !in tables { return false; }
      var t := tables[table];
      if !Has(t.columns, from) || Has(t.columns, to) { return false; }
      var slots := RenamedSlots(t.valueIndex, from, to);
      var indexes := RenameIndexes(t.indexes, from, to);
      var checks := RenameNames(t.checks, from, to);
      var fks := RenameForeignKeys(t.foreignKeys, table, true, from, to);
      var renamed := Table(RenamedColumns(t.columns, from, to), indexes, checks, fks, t.rows, slots);
      tables := map u | u in tables ::
        if u == table then renamed
        else tables[u].(foreignKeys := RenamedForeignKeys(tables[u].foreignKeys, table, false, from, to));
      ok := true;
    }

    method RemoveCells(rows: seq<Row>, p: nat) returns (narrowed: seq<Row>)
      requires forall k :: 0 <= k < |rows| ==> p < |rows[k].values|
      ensures narrowed == Narrowed(rows, p)
    {
      narrowed := [];
      for k := 0 to |rows|
        invariant |narrowed| == k
        invariant forall j :: 0 <= j < k ==> narrowed[j] == Row(rows[j].key, Omit(rows[j].values, p))
      {
        narrowed := narrowed + [Row(rows[k].key, Omit(rows[k].values, p))];
      }
    }

    method Renumber(columns: seq<Column>) returns (renumbered: seq<Column>)
      ensures renumbered == Renumbered(columns)
    {
      renumbered := columns;
      for k := 0 to |columns|
        invariant |renumbered| == |columns|
        invariant forall j :: 0 <= j < |columns| ==>
          renumbered[j] == if j < k then columns[j].(attnum := j + 1) else columns[j]
      {
        renumbered := renumbered[k := renumbered[k].(attnum := k + 1)];
      }
    }

    method ApplyDropColumn(table: string, name: string) returns (ok: bool)
      requires Inv(View())
      modifies this`tables, this`comments
      ensures ok <==> CanDrop(old(View()), table, name)
      ensures ok ==> WidthsMatch(old(tables)[table].rows, |old(tables)[table].columns|)
      ensures View() == if ok then Dropped(old(View()), table, name) else old(View())
    {
      hide IndexExact, IndexesResolve, ChecksResolve, ForeignKeysResolve, CommentsResolve,
           ShiftedComments, WithoutSlots;
      if table in otherRelations || table !in tables { return false; }
      var t := tables[table];
      WidthOfTable(t, nextColumnId);
      if !Has(t.columns, name) { return false; }
      if DependsOn(Catalog(tables, otherRelations, comments, nextColumnId), table, name) { return false; }
      var p := PositionOf(t.columns, name);
      var rows := RemoveCells(t.rows, p);
      var columns := Renumber(t.columns[..p] + t.columns[p + 1..]);
      tables := tables[table := t.(columns := columns, rows := rows, valueIndex := WithoutSlots(t.valueIndex, name))];
      comments := ShiftedComments(comments, table, t.columns[p].attnum);
      ok := true;
    }
  }
}
