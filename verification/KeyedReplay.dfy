/**
 Replaying binary row records: `apply_binary_wal_entry` of crates/engine/src/engine_commit.rs.

 Inserts carry their row identities; deletes and updates are resolved by primary key against the
 replayed state.  An update keeps the identity of the row it replaces and only consumes, without
 using it, the identity its record had reserved.
 */
module KeyedReplay {
  import opened Primitives

  type Table = string

  datatype Row = Row(key: int, cells: seq<int>)
  datatype Entity = Entity(id: U64, row: Row)

  /** Encoded row images are modelled by what they decode to; `None` does not decode. */
  datatype Record =
    | Insert(table: Table, rows: seq<(U64, Option<Row>)>)
    | DeleteByKey(table: Table, key: int)
    | UpdateByKey(table: Table, key: int, newRow: Option<Row>, newRowId: U64)

  datatype State = State(tables: map<Table, seq<Entity>>, nextRowId: U64)

  // ---------------------------------------------------------------- what a record means

  /** Every row image with its identity, in order, or nothing if one does not decode. */
  function Decoded(rows: seq<(U64, Option<Row>)>): (entities: Option<seq<Entity>>)
    ensures entities.Some? <==> forall k :: 0 <= k < |rows| ==> rows[k].1.Some?
    ensures entities.Some? ==> |entities.value| == |rows|
    ensures entities.Some? ==> forall k :: 0 <= k < |rows| ==>
      rows[k].1.Some? && entities.value[k] == Entity(rows[k].0, rows[k].1.value)
  {
    if exists k :: 0 <= k < |rows| && rows[k].1.None? then None
    else Some(seq(|rows|, k requires 0 <= k < |rows| && rows[k].1.Some? => Entity(rows[k].0, rows[k].1.value)))
  }

  function Without(entities: seq<Entity>, key: int): seq<Entity>
  {
    if entities == [] then []
    else
      var n := |entities| - 1;
      Without(entities[..n], key) + if entities[n].row.key == key then [] else [entities[n]]
  }

  function With(entities: seq<Entity>, key: int): seq<Entity>
  {
    if entities == [] then []
    else
      var n := |entities| - 1;
      With(entities[..n], key) + if entities[n].row.key == key then [entities[n]] else []
  }

  /** Row identities a record takes from the allocator. */
  function Consumed(r: Record): nat
  {
    match r
    case Insert(_, rows) => |rows|
    case DeleteByKey(_, _) => 0
    case UpdateByKey(_, _, _, _) => 1
  }

  predicate Accepts(s: State, r: Record)
  {
    && r.table in s.tables
    && s.nextRowId + Consumed(r) <= U64_MAX
    && (r.Insert? ==> Decoded(r.rows).Some?)
    && (r.UpdateByKey? ==> r.newRow.Some? && r.newRowId != 0 && |With(s.tables[r.table], r.key)| <= 1)
  }

  function Applied(s: State, r: Record): State
    requires Accepts(s, r)
  {
    var rows := s.tables[r.table];
    var after :=
      match r
      case Insert(_, inserted) => rows + Decoded(inserted).value
      case DeleteByKey(_, key) => Without(rows, key)
      case UpdateByKey(_, key, newRow, _) =>
        var replaced := With(rows, key);
        if replaced == [] then rows else Without(rows, key) + [Entity(replaced[0].id, newRow.value)];
    State(s.tables[r.table := after], s.nextRowId + Consumed(r))
  }

  /** Replay stops at the first record it cannot accept. */
  function Replay(s: State, log: seq<Record>): Option<State>
    decreases |log|
  {
    if log == [] then Some(s)
    else if Accepts(s, log[0]) then Replay(Applied(s, log[0]), log[1..])
    else None
  }

  // ---------------------------------------------------------------- the replayer

  class ReplayStore {
    var tables: map<Table, seq<Entity>>
    var nextRowId: U64

    ghost function View(): State
      reads this
    {
      State(tables, nextRowId)
    }

    method AdvanceRowId(n: nat) returns (ok: bool)
      modifies this`nextRowId
      ensures ok <==> old(nextRowId) + n <= U64_MAX
      ensures nextRowId == old(nextRowId) + if ok then n else 0
    {
      if nextRowId + n > U64_MAX { return false; }
      nextRowId := nextRowId + n;
      ok := true;
    }

    method DecodeRows(rows: seq<(U64, Option<Row>)>) returns (entities: Option<seq<Entity>>)
      ensures entities == Decoded(rows)
    {
      var decoded: seq<Entity> := [];
      var k := 0;
      while k < |rows|
        invariant 0 <= k <= |rows| && |decoded| == k
        invariant forall j :: 0 <= j < k ==> rows[j].1.Some? && decoded[j] == Entity(rows[j].0, rows[j].1.value)
      {
        if rows[k].1.None? { return None; }
        decoded := decoded + [Entity(rows[k].0, rows[k].1.value)];
        k := k + 1;
      }
      entities := Some(decoded);
      assert Decoded(rows).Some? && decoded == Decoded(rows).value;
    }

    /** Apply one record, or refuse it. */
    method ApplyRecord(r: Record) returns (ok: bool)
      modifies this
      ensures ok <==> Accepts(old(View()), r)
      ensures ok ==> View() == Applied(old(View()), r)
    {
      if r.table !in tables { return false; }
      match r
      case Insert(t, rows) =>
        var entities := DecodeRows(rows);
        if entities.None? { return false; }
        ok := AdvanceRowId(|rows|);
        if ok { tables := tables[t := tables[t] + entities.value]; }
      case DeleteByKey(t, key) =>
        tables := tables[t := Without(tables[t], key)];
        ok := true;
      case UpdateByKey(t, key, newRow, newRowId) =>
        if newRow.None? || newRowId == 0 { return false; }
        var found := With(tables[t], key);
        tables := tables[t := Without(tables[t], key)];
        if found == [] {
          NothingRemoved(old(tables)[t], key);
          ok := AdvanceRowId(1);
          return;
        }
        if |found| != 1 { return false; }
        ok := AdvanceRowId(1);
        if ok { tables := tables[t := tables[t] + [Entity(found[0].id, newRow.value)]]; }
    }
  }

  lemma {:induction false} NothingRemoved(entities: seq<Entity>, key: int)
    requires With(entities, key) == []
    ensures Without(entities, key) == entities
  {
    if entities != [] { NothingRemoved(entities[..|entities| - 1], key); }
  }

  // ---------------------------------------------------------------- the allocator

  /** The rows the log's inserts carry. */
  ghost function InsertedRows(log: seq<Record>): nat
    decreases |log|
  {
    if log == [] then 0
    else InsertedRows(log[1..]) + match log[0] case Insert(_, rows) => |rows| case _ => 0
  }

  /** How many update records the log holds. */
  ghost function UpdateRecords(log: seq<Record>): nat
    decreases |log|
  {
    if log == [] then 0 else UpdateRecords(log[1..]) + if log[0].UpdateByKey? then 1 else 0
  }

  /** The allocator advances by exactly the inserted rows plus the update records, whatever they match. */
  lemma {:induction false} AllocatorAdvancesByLog(s: State, log: seq<Record>)
    requires Replay(s, log).Some?
    ensures Replay(s, log).value.nextRowId == s.nextRowId + InsertedRows(log) + UpdateRecords(log)
    decreases |log|
  {
    if log != [] { AllocatorAdvancesByLog(Applied(s, log[0]), log[1..]); }
  }

  // ---------------------------------------------------------------- identities

  ghost function Ids(entities: seq<Entity>): multiset<U64>
  {
    if entities == [] then multiset{}
    else Ids(entities[..|entities| - 1]) + multiset{entities[|entities| - 1].id}
  }

  lemma {:induction false} IdsConcat(a: seq<Entity>, b: seq<Entity>)
    ensures Ids(a + b) == Ids(a) + Ids(b)
  {
    if b == [] {
      assert a + b == a;
    } else {
      assert (a + b)[..|a + b| - 1] == a + b[..|b| - 1];
      IdsConcat(a, b[..|b| - 1]);
    }
  }

  /** Filtering by key splits the identities. */
  lemma {:induction false} IdsSplit(entities: seq<Entity>, key: int)
    ensures Ids(entities) == Ids(Without(entities, key)) + Ids(With(entities, key))
  {
    hide Ids;
    if entities == [] {
      NoIds();
    } else {
      var n := |entities| - 1;
      IdsSplit(entities[..n], key);
      IdsLast(entities[..n], entities[n]);
      assert entities == entities[..n] + [entities[n]];
      IdsLast(Without(entities[..n], key), entities[n]);
      IdsLast(With(entities[..n], key), entities[n]);
      assert Without(entities[..n], key) + [] == Without(entities[..n], key);
      assert With(entities[..n], key) + [] == With(entities[..n], key);
    }
  }

  lemma NoIds()
    ensures Ids([]) == multiset{}
  {
  }

  lemma IdsLast(entities: seq<Entity>, last: Entity)
    ensures Ids(entities + [last]) == Ids(entities) + multiset{last.id}
  {
    assert (entities + [last])[..|entities|] == entities;
  }

  /** An update leaves every table's identities exactly as they were. */
  lemma UpdateKeepsIdentities(s: State, r: Record, t: Table)
    requires Accepts(s, r) && r.UpdateByKey? && t in s.tables
    ensures Ids(Applied(s, r).tables[t]) == Ids(s.tables[t])
  {
    hide Ids, With, Without;
    if t == r.table {
      var rows := s.tables[t];
      var replaced := With(rows, r.key);
      if replaced != [] {
        IdsSplit(rows, r.key);
        assert replaced == [] + [replaced[0]];
        NoIds();
        IdsLast([], replaced[0]);
        IdsLast(Without(rows, r.key), Entity(replaced[0].id, r.newRow.value));
      }
    }
  }

  /** Every live identity occurs once, over all tables. */
  ghost predicate IdsDistinct(s: State)
  {
    && (forall t, id :: t in s.tables ==> Ids(s.tables[t])[id] <= 1)
    && (forall t, u, id :: t in s.tables && u in s.tables && t != u ==>
          !(id in Ids(s.tables[t]) && id in Ids(s.tables[u])))
  }

  /** An insert's identities are pairwise distinct and live nowhere yet. */
  ghost predicate CarriesFreshIds(s: State, r: Record)
  {
    r.Insert? && Decoded(r.rows).Some? ==>
      var ids := Ids(Decoded(r.rows).value);
      && (forall id :: ids[id] <= 1)
      && (forall t, id :: t in s.tables && id in ids ==> id !in Ids(s.tables[t]))
  }

  ghost predicate CarriesFreshIdsThroughout(s: State, log: seq<Record>)
    decreases |log|
  {
    log == []
    || (CarriesFreshIds(s, log[0])
        && (Accepts(s, log[0]) ==> CarriesFreshIdsThroughout(Applied(s, log[0]), log[1..])))
  }

  /** One record changes one table's identities: adds the inserted ones, drops the deleted ones. */
  lemma IdsAfter(s: State, r: Record)
    requires Accepts(s, r)
    ensures var after := Ids(Applied(s, r).tables[r.table]);
      match r
      case Insert(_, rows) => after == Ids(s.tables[r.table]) + Ids(Decoded(rows).value)
      case DeleteByKey(_, key) => Ids(s.tables[r.table]) == after + Ids(With(s.tables[r.table], key))
      case UpdateByKey(_, _, _, _) => after == Ids(s.tables[r.table])
  {
    match r
    case Insert(_, rows) => IdsConcat(s.tables[r.table], Decoded(rows).value);
    case DeleteByKey(_, key) => IdsSplit(s.tables[r.table], key);
    case UpdateByKey(_, _, _, _) => UpdateKeepsIdentities(s, r, r.table);
  }

  lemma RecordKeepsIdsDistinct(s: State, r: Record)
    requires Accepts(s, r) && IdsDistinct(s) && CarriesFreshIds(s, r)
    ensures IdsDistinct(Applied(s, r))
  {
    hide Ids, With, Without, Decoded, Applied;
    var after := Applied(s, r);
    var added := Added(r);
    forall t | t in after.tables
      ensures t in s.tables && Ids(after.tables[t]) <= Ids(s.tables[t]) + (if t == r.table then added else multiset{})
    {
      AtMostAdded(s, r, t);
    }
    forall t, id | t in after.tables ensures Ids(after.tables[t])[id] <= 1 {
      assert Ids(after.tables[t])[id] <= Ids(s.tables[t])[id] + added[id];
      assert id in added ==> id !in Ids(s.tables[t]);
    }
    forall t, u, id | t in after.tables && u in after.tables && t != u
      ensures !(id in Ids(after.tables[t]) && id in Ids(after.tables[u]))
    {
      assert id in Ids(after.tables[t]) ==> id in Ids(s.tables[t]) || (t == r.table && id in added);
      assert id in Ids(after.tables[u]) ==> id in Ids(s.tables[u]) || (u == r.table && id in added);
    }
  }

  ghost function Added(r: Record): multiset<U64>
  {
    if r.Insert? && Decoded(r.rows).Some? then Ids(Decoded(r.rows).value) else multiset{}
  }

  lemma AtMostAdded(s: State, r: Record, t: Table)
    requires Accepts(s, r) && t in Applied(s, r).tables
    ensures t in s.tables
    ensures Ids(Applied(s, r).tables[t]) <= Ids(s.tables[t]) + (if t == r.table then Added(r) else multiset{})
  {
    hide Ids, With, Without, Decoded;
    IdsAfter(s, r);
  }

  /** Over any log whose inserts carry fresh identities, live identities stay distinct. */
  lemma {:induction false} ReplayKeepsIdsDistinct(s: State, log: seq<Record>)
    requires IdsDistinct(s) && CarriesFreshIdsThroughout(s, log) && Replay(s, log).Some?
    ensures IdsDistinct(Replay(s, log).value)
    decreases |log|
  {
    if log != [] {
      RecordKeepsIdsDistinct(s, log[0]);
      ReplayKeepsIdsDistinct(Applied(s, log[0]), log[1..]);
    }
  }

  // ---------------------------------------------------------------- conservation

  ghost function AddedTo(log: seq<Record>, t: Table): multiset<U64>
    decreases |log|
  {
    if log == [] then multiset{}
    else (if log[0].table == t then Added(log[0]) else multiset{}) + AddedTo(log[1..], t)
  }

  /** The identities the log's deletes take out of `t`; updates take out none. */
  ghost function RemovedFrom(s: State, log: seq<Record>, t: Table): multiset<U64>
    requires Replay(s, log).Some?
    decreases |log|
  {
    if log == [] then multiset{}
    else
      (if log[0].DeleteByKey? && log[0].table == t then Ids(With(s.tables[t], log[0].key)) else multiset{})
      + RemovedFrom(Applied(s, log[0]), log[1..], t)
  }

  /** Over any log each table's identities balance: what was live plus what was inserted is what is
      live plus what was deleted.  So an update never gives a surviving row another identity. */
  lemma {:induction false} IdentitiesBalance(s: State, log: seq<Record>, t: Table)
    requires Replay(s, log).Some? && t in s.tables
    ensures t in Replay(s, log).value.tables
    ensures Ids(Replay(s, log).value.tables[t]) + RemovedFrom(s, log, t) == Ids(s.tables[t]) + AddedTo(log, t)
    decreases |log|
  {
    hide Ids, With, Without, Decoded;
    if log != [] {
      var next := Applied(s, log[0]);
      IdsAfter(s, log[0]);
      IdentitiesBalance(next, log[1..], t);
      var removed :=
        if log[0].DeleteByKey? && log[0].table == t then Ids(With(s.tables[t], log[0].key)) else multiset{};
      var added := if log[0].table == t then Added(log[0]) else multiset{};
      assert Ids(next.tables[t]) + removed == Ids(s.tables[t]) + added;
      Balanced(Ids(s.tables[t]), Ids(next.tables[t]), Ids(Replay(s, log).value.tables[t]),
               added, removed, AddedTo(log[1..], t), RemovedFrom(next, log[1..], t));
    }
  }

  lemma Balanced(a: multiset<U64>, b: multiset<U64>, c: multiset<U64>,
                 add1: multiset<U64>, remove1: multiset<U64>, add2: multiset<U64>, remove2: multiset<U64>)
    requires b + remove1 == a + add1 && c + remove2 == b + add2
    ensures c + (remove1 + remove2) == a + (add1 + add2)
  {
    assert c + (remove1 + remove2) == (c + remove2) + remove1;
    assert a + (add1 + add2) == (a + add1) + add2;
    assert (b + add2) + remove1 == (b + remove1) + add2;
  }

  lemma {:induction false} EntitiesSplit(entities: seq<Entity>, key: int)
    ensures multiset(entities) == multiset(Without(entities, key)) + multiset(With(entities, key))
  {
    if entities != [] {
      var n := |entities| - 1;
      var prior, last := entities[..n], entities[n];
      EntitiesSplit(prior, key);
      assert entities == prior + [last];
      if last.row.key == key {
        assert Without(entities, key) == Without(prior, key) && With(entities, key) == With(prior, key) + [last];
      } else {
        assert With(entities, key) == With(prior, key) && Without(entities, key) == Without(prior, key) + [last];
      }
    }
  }

  lemma {:induction false} KeysSplit(entities: seq<Entity>, key: int)
    ensures forall x :: x in With(entities, key) ==> x.row.key == key
    ensures forall x :: x in Without(entities, key) ==> x.row.key != key
  {
    if entities != [] { KeysSplit(entities[..|entities| - 1], key); }
  }

  /** A delete takes out every row holding the key and no other, in order; an insert appends its rows. */
  lemma DeleteAndInsertMeaning(s: State, r: Record)
    requires Accepts(s, r) && !r.UpdateByKey?
    ensures var before, after := s.tables[r.table], Applied(s, r).tables[r.table];
      match r
      case Insert(_, rows) => after == before + Decoded(rows).value
      case _ =>
        && (forall x :: x in after <==> x in before && x.row.key != r.key)
        && (forall x: Entity :: x.row.key != r.key ==> multiset(after)[x] == multiset(before)[x])
  {
    if r.DeleteByKey? {
      var before := s.tables[r.table];
      EntitiesSplit(before, r.key);
      KeysSplit(before, r.key);
      forall x ensures x in Without(before, r.key) <==> x in before && x.row.key != r.key {
        assert multiset(before)[x] == multiset(Without(before, r.key))[x] + multiset(With(before, r.key))[x];
        assert x in before <==> x in multiset(before);
      }
    }
  }

  /** A row under a new key can be inserted and deleted again, which spends its identity; inserted and
      updated it carries the new image under its first identity, and the update spends one more. */
  lemma InsertThenDeleteOrUpdate(s: State, t: Table, id: U64, row: Row, newRow: Row, newRowId: U64)
    requires t in s.tables && s.nextRowId + 2 <= U64_MAX && newRowId != 0
    requires forall x :: x in s.tables[t] ==> x.row.key != row.key
    ensures var insert := Insert(t, [(id, Some(row))]);
      && Replay(s, [insert, DeleteByKey(t, row.key)]) == Some(State(s.tables, s.nextRowId + 1))
      && Replay(s, [insert, UpdateByKey(t, row.key, Some(newRow), newRowId)]) ==
           Some(State(s.tables[t := s.tables[t] + [Entity(id, newRow)]], s.nextRowId + 2))
  {
    hide Accepts, Applied, Replay, With, Without;
    var insert, rows, first := Insert(t, [(id, Some(row))]), s.tables[t], Entity(id, row);
    InsertOne(s, t, id, row);
    KeyAbsent(rows, row.key);
    LastHasKey(rows, first);
    OnlyHolder(Applied(s, insert), t, rows, first, newRow, newRowId);
    ReplayTwo(s, insert, DeleteByKey(t, row.key));
    ReplayTwo(s, insert, UpdateByKey(t, row.key, Some(newRow), newRowId));
    assert s.tables[t := rows + [first]][t := rows] == s.tables;
    var updated := rows + [Entity(id, newRow)];
    assert s.tables[t := rows + [first]][t := updated] == s.tables[t := updated];
  }

  lemma InsertOne(s: State, t: Table, id: U64, row: Row)
    requires t in s.tables && s.nextRowId + 1 <= U64_MAX
    ensures var insert := Insert(t, [(id, Some(row))]);
      && Accepts(s, insert)
      && Applied(s, insert) == State(s.tables[t := s.tables[t] + [Entity(id, row)]], s.nextRowId + 1)
  {
    var rows := [(id, Some(row))];
    assert Decoded(rows).Some? && Decoded(rows).value == [Entity(id, row)];
  }

  lemma OnlyHolder(m: State, t: Table, rows: seq<Entity>, last: Entity, newRow: Row, newRowId: U64)
    requires t in m.tables && m.tables[t] == rows + [last] && m.nextRowId + 1 <= U64_MAX && newRowId != 0
    requires With(rows + [last], last.row.key) == [last] && Without(rows + [last], last.row.key) == rows
    ensures var delete, update := DeleteByKey(t, last.row.key), UpdateByKey(t, last.row.key, Some(newRow), newRowId);
      && Accepts(m, delete) && Applied(m, delete) == State(m.tables[t := rows], m.nextRowId)
      && Accepts(m, update)
      && Applied(m, update) == State(m.tables[t := rows + [Entity(last.id, newRow)]], m.nextRowId + 1)
  {
    hide With, Without;
  }

  lemma ReplayTwo(s: State, a: Record, b: Record)
    requires Accepts(s, a) && Accepts(Applied(s, a), b)
    ensures Replay(s, [a, b]) == Some(Applied(Applied(s, a), b))
  {
    hide Accepts, Applied;
    assert [a, b][1..] == [b] && [b][1..] == [];
    assert Replay(Applied(s, a), [b]) == Replay(Applied(Applied(s, a), b), []);
  }

  lemma {:induction false} KeyAbsent(entities: seq<Entity>, key: int)
    requires forall k :: 0 <= k < |entities| ==> entities[k].row.key != key
    ensures With(entities, key) == [] && Without(entities, key) == entities
  {
    if entities != [] {
      var n := |entities| - 1;
      var prior, last := entities[..n], entities[n];
      KeyAbsent(prior, key);
      assert entities == prior + [last];
      assert Without(entities, key) == Without(prior, key) + [last] && With(entities, key) == With(prior, key) + [];
    }
  }

  lemma LastHasKey(entities: seq<Entity>, last: Entity)
    requires With(entities, last.row.key) == [] && Without(entities, last.row.key) == entities
    ensures With(entities + [last], last.row.key) == [last] && Without(entities + [last], last.row.key) == entities
  {
    assert (entities + [last])[..|entities|] == entities;
  }

  /** Every refusal has one of these reasons, and each of them is one. */
  lemma RefusedIff(s: State, r: Record)
    ensures !Accepts(s, r) <==>
      || r.table !in s.tables
      || (match r
          case Insert(_, rows) =>
            s.nextRowId + |rows| > U64_MAX || exists k :: 0 <= k < |rows| && rows[k].1.None?
          case DeleteByKey(_, _) => false
          case UpdateByKey(t, key, newRow, newRowId) =>
            s.nextRowId == U64_MAX || newRow.None? || newRowId == 0 || TwoHold(s.tables[t], key))
  {
    if r.UpdateByKey? && r.table in s.tables { TwoHoldIff(s.tables[r.table], r.key); }
  }

  /** Two rows hold the key. */
  ghost predicate TwoHold(entities: seq<Entity>, key: int)
  {
    exists i, j :: 0 <= i < j < |entities| && entities[i].row.key == key && entities[j].row.key == key
  }

  ghost predicate OneHolds(entities: seq<Entity>, key: int)
  {
    exists i :: 0 <= i < |entities| && entities[i].row.key == key
  }

  lemma {:induction false} TwoHoldIff(entities: seq<Entity>, key: int)
    ensures |With(entities, key)| >= 1 <==> OneHolds(entities, key)
    ensures |With(entities, key)| >= 2 <==> TwoHold(entities, key)
  {
    if entities != [] {
      var n := |entities| - 1;
      var prior := entities[..n];
      TwoHoldIff(prior, key);
      if i :| 0 <= i < |prior| && prior[i].row.key == key {
        assert entities[i].row.key == key;
        assert entities[n].row.key == key ==> TwoHold(entities, key);
      }
      if i, j :| 0 <= i < j < |prior| && prior[i].row.key == key && prior[j].row.key == key {
        assert entities[i].row.key == key && entities[j].row.key == key;
      }
      if i, j :| 0 <= i < j < |entities| && entities[i].row.key == key && entities[j].row.key == key {
        assert prior[i].row.key == key;
        assert j < n ==> prior[j].row.key == key;
      }
      if i :| 0 <= i < |entities| && entities[i].row.key == key { assert i < n ==> prior[i].row.key == key; }
    }
  }

  /** A record changes its own table only, and none appears or disappears. */
  lemma OtherTablesStay(s: State, r: Record, t: Table)
    requires Accepts(s, r)
    ensures Applied(s, r).tables.Keys == s.tables.Keys
    ensures t in s.tables && t != r.table ==> Applied(s, r).tables[t] == s.tables[t]
  {
  }

  /** A keyed update replaces the image of the one row holding the key and touches no other row. */
  lemma UpdateReplacesOneImage(s: State, r: Record)
    requires Accepts(s, r) && r.UpdateByKey?
    ensures var before, after := s.tables[r.table], Applied(s, r).tables[r.table];
      && ((forall x :: x in before ==> x.row.key != r.key) ==> after == before)
      && (forall x :: x in before && x.row.key == r.key ==>
            multiset(after) == multiset(before) - multiset{x} + multiset{Entity(x.id, r.newRow.value)})
  {
    hide With, Without;
    var before, after := s.tables[r.table], Applied(s, r).tables[r.table];
    var found, rest := With(before, r.key), Without(before, r.key);
    EntitiesSplit(before, r.key);
    KeysSplit(before, r.key);
    forall x | x in before && x.row.key == r.key
      ensures multiset(after) == multiset(before) - multiset{x} + multiset{Entity(x.id, r.newRow.value)}
    {
      assert x in multiset(before) && x !in multiset(rest);
      assert x in found && found == [x];
      assert multiset(before) == multiset(rest) + multiset{x};
      assert after == rest + [Entity(x.id, r.newRow.value)];
    }
    if found != [] { assert found[0] in multiset(before); }
  }
}
