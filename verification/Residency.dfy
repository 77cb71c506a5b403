/**
 Applying a durable multi-entry batch to the device generations:
 `apply_and_publish_committed_inner` of crates/engine/src/engine_commit.rs with the scoping rules of
 crates/engine/src/engine_commit_residency.rs.

 A device generation is a sequence of row versions stamped with the commit index that created them
 and, once superseded, the one that deleted them.  The host keeps a second representation that only
 repair-consuming DDL reads; row mutations never touch it, they make the device authoritative.
 */
module Residency {
  import opened Primitives

  type Table = string
  type Id = nat
  type Row = seq<int>
  type Content = map<Id, Row>
  type Logical = map<Table, Content>

  // ---------------------------------------------------------------- device generations

  datatype Version = Version(id: Id, row: Row, birth: nat, death: Option<nat>)

  predicate Visible(v: Version, boundary: nat)
  {
    v.birth <= boundary && (v.death.Some? ==> boundary < v.death.value)
  }

  /** What a reader at `boundary` sees. */
  function Shown(versions: seq<Version>, boundary: nat): Content
  {
    if versions == [] then map[]
    else
      var n := |versions| - 1;
      var before := Shown(versions[..n], boundary);
      if Visible(versions[n], boundary) then before[versions[n].id := versions[n].row] else before
  }

  /** Nothing in the generation happens after `boundary`. */
  ghost predicate Settled(versions: seq<Version>, boundary: nat)
  {
    forall k :: 0 <= k < |versions| ==>
      versions[k].birth <= boundary && (versions[k].death.Some? ==> versions[k].death.value <= boundary)
  }

  predicate IsLeast(x: Id, ids: set<Id>)
  {
    x in ids && forall y :: y in ids ==> x <= y
  }

  lemma SmallestExists(ids: set<Id>)
    requires ids != {}
    ensures exists x :: IsLeast(x, ids)
  {
    var some :| some in ids;
    var rest := ids - {some};
    assert forall y :: y in ids ==> y == some || y in rest;
    if rest == {} {
      assert IsLeast(some, ids);
    } else {
      SmallestExists(rest);
      var other :| IsLeast(other, rest);
      assert IsLeast(if other < some then other else some, ids);
    }
  }

  lemma LeastIsUnique(x: Id, y: Id, ids: set<Id>)
    requires IsLeast(x, ids) && IsLeast(y, ids)
    ensures x == y
  {
  }

  function Least(ids: set<Id>): (x: Id)
    requires ids != {}
    ensures x in ids
  {
    SmallestExists(ids);
    assert forall x, y :: IsLeast(x, ids) && IsLeast(y, ids) ==> x == y by {
      forall x, y | IsLeast(x, ids) && IsLeast(y, ids) ensures x == y { LeastIsUnique(x, y, ids); }
    }
    var x :| IsLeast(x, ids);
    x
  }

  /** Identities in ascending order. */
  function InOrder(ids: set<Id>): (order: seq<Id>)
    ensures forall x :: x in order <==> x in ids
  {
    if ids == {} then [] else [Least(ids)] + InOrder(ids - {Least(ids)})
  }

  function BornIn(order: seq<Id>, rows: Content, index: nat): (versions: seq<Version>)
    requires forall k :: 0 <= k < |order| ==> order[k] in rows
    ensures |versions| == |order|
    ensures forall k :: 0 <= k < |order| ==> versions[k] == Version(order[k], rows[order[k]], index, None)
  {
    seq(|order|, k requires 0 <= k < |order| => Version(order[k], rows[order[k]], index, None))
  }

  /** New row images stamped at one commit index, in identity order. */
  function Born(rows: Content, index: nat): seq<Version>
  {
    BornIn(InOrder(rows.Keys), rows, index)
  }

  /** Stamp the live versions of the given identities as deleted. */
  function Tombstoned(versions: seq<Version>, ids: set<Id>, index: nat): (after: seq<Version>)
    ensures |after| == |versions|
  {
    seq(|versions|, k requires 0 <= k < |versions| =>
      if versions[k].id in ids && versions[k].death.None? then versions[k].(death := Some(index)) else versions[k])
  }

  lemma {:induction false} ShownConcat(a: seq<Version>, b: seq<Version>, boundary: nat)
    ensures Shown(a + b, boundary) == Shown(a, boundary) + Shown(b, boundary)
  {
    if b == [] {
      assert a + b == a;
    } else {
      var n := |b| - 1;
      ShownConcat(a, b[..n], boundary);
      assert (a + b)[..|a + b| - 1] == a + b[..n];
    }
  }

  lemma {:induction false} BornInShown(order: seq<Id>, rows: Content, index: nat, boundary: nat)
    requires forall k :: 0 <= k < |order| ==> order[k] in rows
    ensures Shown(BornIn(order, rows, index), boundary)
         == if index <= boundary then (map id | id in order :: rows[id]) else map[]
  {
    if order != [] {
      var n := |order| - 1;
      BornInShown(order[..n], rows, index, boundary);
      assert BornIn(order, rows, index)[..n] == BornIn(order[..n], rows, index);
      assert order == order[..n] + [order[n]];
    }
  }

  lemma BornShown(rows: Content, index: nat, boundary: nat)
    ensures Shown(Born(rows, index), boundary) == if index <= boundary then rows else map[]
    ensures Settled(Born(rows, index), index)
  {
    hide InOrder;
    var order := InOrder(rows.Keys);
    BornInShown(order, rows, index, boundary);
    assert (map id | id in order :: rows[id]) == rows;
  }

  lemma {:induction false} SettledIsStable(versions: seq<Version>, from: nat, boundary: nat)
    requires Settled(versions, from) && from <= boundary
    ensures Shown(versions, boundary) == Shown(versions, from)
  {
    if versions != [] { SettledIsStable(versions[..|versions| - 1], from, boundary); }
  }

  lemma {:induction false} TombstonedShown(versions: seq<Version>, ids: set<Id>, index: nat, boundary: nat)
    requires index > 0 && Settled(versions, index - 1)
    ensures Shown(Tombstoned(versions, ids, index), boundary)
         == if boundary < index then Shown(versions, boundary) else Shown(versions, boundary) - ids
  {
    if versions != [] {
      var n := |versions| - 1;
      TombstonedShown(versions[..n], ids, index, boundary);
      assert Tombstoned(versions, ids, index)[..n] == Tombstoned(versions[..n], ids, index);
    }
  }

  /** What one entry does to one table's rows. */
  datatype Change = Change(gone: set<Id>, put: Content)

  /** Stamp all old versions, then append all new images. */
  function Maintained(versions: seq<Version>, change: Change, index: nat): seq<Version>
  {
    Tombstoned(versions, change.gone, index) + Born(change.put, index)
  }

  /** Maintenance shows the change from its own index on and nothing of it before. */
  lemma MaintainedShown(versions: seq<Version>, change: Change, index: nat, boundary: nat)
    requires index > 0 && Settled(versions, index - 1)
    ensures Settled(Maintained(versions, change, index), index)
    ensures Shown(Maintained(versions, change, index), boundary)
         == if boundary < index then Shown(versions, boundary) else Shown(versions, boundary) - change.gone + change.put
  {
    TombstonedShown(versions, change.gone, index, boundary);
    BornShown(change.put, index, boundary);
    ShownConcat(Tombstoned(versions, change.gone, index), Born(change.put, index), boundary);
  }

  // ---------------------------------------------------------------- entries, one at a time

  datatype Entry =
    | Insert(table: Table, rows: Content)
    | Delete(table: Table, matches: Row -> bool)
    | Update(table: Table, matches: Row -> bool, image: Row -> Row)
    | UpdateByKey(table: Table, hasKey: Row -> bool, newRow: Row)
    | Transaction(changes: map<Table, Change>)   // final images, already resolved to identities
    | Neutral                                    // control and catalog state only
    | CreateTable(table: Table)
    | Repair(scope: Option<set<Table>>, effect: Logical -> Logical)   // DDL over the host representation

  ghost function Rewritten(rows: Content, matches: Row -> bool, image: Row -> Row): Content
  {
    map id | id in rows :: if matches(rows[id]) then image(rows[id]) else rows[id]
  }

  ghost function Survivors(rows: Content, matches: Row -> bool): Content
  {
    map id | id in rows && !matches(rows[id]) :: rows[id]
  }

  /** The meaning of one entry. */
  ghost function ApplyOne(l: Logical, e: Entry): Logical
  {
    match e
    case Insert(t, rows) => if t in l then l[t := l[t] + rows] else l
    case Delete(t, matches) => if t in l then l[t := Survivors(l[t], matches)] else l
    case Update(t, matches, image) => if t in l then l[t := Rewritten(l[t], matches, image)] else l
    case UpdateByKey(t, hasKey, newRow) => if t in l then l[t := Rewritten(l[t], hasKey, _ => newRow)] else l
    case Transaction(changes) =>
      map t | t in l :: if t in changes then l[t] - changes[t].gone + changes[t].put else l[t]
    case Neutral => l
    case CreateTable(t) => if t in l then l else l[t := map[]]
    case Repair(_, effect) => effect(l)
  }

  ghost function Replay(l: Logical, entries: seq<Entry>): Logical
  {
    if entries == [] then l
    else ApplyOne(Replay(l, entries[..|entries| - 1]), entries[|entries| - 1])
  }

  // ---------------------------------------------------------------- scoping rules

  predicate RequiresRepair(e: Entry) { e.Repair? }

  /** Tables an entry may retire; `None` is the conservative global answer. */
  function InvalidationScope(e: Entry): Option<set<Table>>
  {
    match e
    case Insert(t, _) => Some({t})
    case Delete(t, _) => Some({t})
    case Update(t, _, _) => Some({t})
    case UpdateByKey(t, _, _) => Some({t})
    case Transaction(changes) => Some(changes.Keys)
    case Neutral => Some({})
    case CreateTable(t) => Some({t})
    case Repair(scope, _) => scope
  }

  /** A row entry or a new table is in its own scope, a transaction's tables are in its, DDL says its own. */
  lemma ScopeMeaning(e: Entry, t: Table)
    ensures InvalidationScope(e).None? <==> e.Repair? && e.scope.None?
    ensures InvalidationScope(e).Some? ==>
      (t in InvalidationScope(e).value <==>
        || ((e.Insert? || e.Delete? || e.Update? || e.UpdateByKey? || e.CreateTable?) && e.table == t)
        || (e.Transaction? && t in e.changes)
        || (e.Repair? && t in e.scope.value))
  {
  }

  ghost predicate InScope(entries: seq<Entry>, t: Table)
  {
    exists k :: 0 <= k < |entries| && InvalidationScope(entries[k]).Some? && t in InvalidationScope(entries[k]).value
  }

  /** The batch's scope is the union of its entries' scopes, unless one of them is global. */
  method ScopeOf(entries: seq<Entry>) returns (scope: Option<set<Table>>)
    ensures scope.None? <==> exists k :: 0 <= k < |entries| && InvalidationScope(entries[k]).None?
    ensures scope.Some? ==> forall t :: t in scope.value <==> InScope(entries, t)
  {
    var tables: set<Table> := {};
    var k := 0;
    while k < |entries|
      invariant 0 <= k <= |entries|
      invariant forall j :: 0 <= j < k ==> InvalidationScope(entries[j]).Some?
      invariant forall t :: t in tables <==> InScope(entries[..k], t)
    {
      var one := InvalidationScope(entries[k]);
      if one.None? { return None; }
      ghost var before := tables;
      tables := tables + one.value;
      forall t ensures t in tables <==> InScope(entries[..k + 1], t) {
        InScopeGrows(entries, k, t);
      }
      k := k + 1;
    }
    assert entries[..k] == entries;
    scope := Some(tables);
  }

  lemma InScopeGrows(entries: seq<Entry>, k: nat, t: Table)
    requires k < |entries| && InvalidationScope(entries[k]).Some?
    ensures InScope(entries[..k + 1], t) <==> InScope(entries[..k], t) || t in InvalidationScope(entries[k]).value
  {
    if InScope(entries[..k], t) {
      var j :| 0 <= j < k && InvalidationScope(entries[..k][j]).Some? && t in InvalidationScope(entries[..k][j]).value;
      assert entries[..k + 1][j] == entries[j];
    }
    if t in InvalidationScope(entries[k]).value { assert entries[..k + 1][k] == entries[k]; }
    if InScope(entries[..k + 1], t) {
      var longer := entries[..k + 1];
      var j :| 0 <= j < |longer| && InvalidationScope(longer[j]).Some? && t in InvalidationScope(longer[j]).value;
      if j < k { assert entries[..k][j] == entries[j]; }
    }
  }

  predicate OneTable(e: Entry) { e.Insert? || e.Delete? || e.Update? || e.UpdateByKey? }

  /** `t` is only ever inserted into by this batch of plain row statements. */
  ghost predicate InsertOnly(entries: seq<Entry>, t: Table)
  {
    && (forall k :: 0 <= k < |entries| ==> OneTable(entries[k]) && (entries[k].table == t ==> entries[k].Insert?))
    && exists k :: 0 <= k < |entries| && entries[k].table == t
  }

  method InsertOnlyTables(entries: seq<Entry>) returns (tables: set<Table>)
    ensures forall t :: t in tables <==> InsertOnly(entries, t)
  {
    var hasInsert: set<Table>, hasOther: set<Table> := {}, {};
    var k := 0;
    while k < |entries|
      invariant 0 <= k <= |entries|
      invariant forall j :: 0 <= j < k ==> OneTable(entries[j])
      invariant forall j :: 0 <= j < k && entries[j].Insert? ==> entries[j].table in hasInsert
      invariant forall j :: 0 <= j < k && !entries[j].Insert? ==> entries[j].table in hasOther
      invariant forall t :: t in hasInsert ==> exists j :: 0 <= j < k && entries[j].Insert? && entries[j].table == t
      invariant forall t :: t in hasOther ==> exists j :: 0 <= j < k && !entries[j].Insert? && entries[j].table == t
    {
      if !OneTable(entries[k]) { return {}; }
      if entries[k].Insert? {
        hasInsert := hasInsert + {entries[k].table};
      } else {
        hasOther := hasOther + {entries[k].table};
      }
      k := k + 1;
    }
    tables := hasInsert - hasOther;
  }

  // ---------------------------------------------------------------- the store

  datatype Store = Store(host: Logical, device: map<Table, seq<Version>>, authoritative: set<Table>)

  /** One table's copies against its logical rows: a device copy that is present is exact, it is
      present wherever the device is authoritative, and elsewhere the host copy is exact. */
  ghost predicate TableAgrees(s: Store, t: Table, rows: Content, boundary: nat)
    requires t in s.host
  {
    && (t in s.device ==> Settled(s.device[t], boundary) && Shown(s.device[t], boundary) == rows)
    && (t in s.authoritative ==> t in s.device)
    && (t !in s.authoritative ==> s.host[t] == rows)
  }

  ghost predicate SameTables(s: Store, l: Logical)
  {
    l.Keys == s.host.Keys && s.device.Keys <= s.host.Keys && s.authoritative <= s.host.Keys
  }

  ghost predicate Agrees(s: Store, l: Logical, boundary: nat, except: set<Table>)
  {
    && SameTables(s, l)
    && forall t :: t in s.host && t !in except ==> TableAgrees(s, t, l[t], boundary)
  }

  lemma BoundaryAdvances(s: Store, l: Logical, boundary: nat, except: set<Table>)
    requires Agrees(s, l, boundary, except)
    ensures Agrees(s, l, boundary + 1, except)
  {
    forall t | t in s.host && t !in except ensures TableAgrees(s, t, l[t], boundary + 1) {
      if t in s.device { SettledIsStable(s.device[t], boundary, boundary + 1); }
    }
  }

  function Matching(rows: Content, matches: Row -> bool): set<Id>
  {
    set id | id in rows && matches(rows[id])
  }

  /** Resolve a row statement against the rows it sees.  Statements yield a mutation even when they
      match nothing; a keyed update record that matches nothing yields none. */
  function Resolve(rows: Content, e: Entry): Option<Change>
    requires OneTable(e)
  {
    match e
    case Insert(_, inserted) => Some(Change({}, inserted))
    case Delete(_, matches) => Some(Change(Matching(rows, matches), map[]))
    case Update(_, matches, image) =>
      var ids := Matching(rows, matches);
      Some(Change(ids, map id | id in ids :: image(rows[id])))
    case UpdateByKey(_, hasKey, newRow) =>
      var ids := Matching(rows, hasKey);
      if ids == {} then None else Some(Change(ids, map id | id in ids :: newRow))
  }

  /** A keyed update record whose key no row holds. */
  ghost predicate Unmatched(rows: Content, e: Entry)
  {
    e.UpdateByKey? && forall id :: id in rows ==> !e.hasKey(rows[id])
  }

  /** A keyed update record finds at most one row. */
  ghost predicate AtMostOneHolder(rows: Content, e: Entry)
  {
    e.UpdateByKey? ==>
      forall i, j :: i in rows && j in rows && e.hasKey(rows[i]) && e.hasKey(rows[j]) ==> i == j
  }

  /** The resolver yields a mutation for everything but an unmatched keyed update, and it refuses a
      keyed update exactly when two rows hold the key. */
  lemma ResolveYields(rows: Content, e: Entry)
    requires OneTable(e)
    ensures Resolve(rows, e).None? <==> Unmatched(rows, e)
    ensures e.UpdateByKey? && Resolve(rows, e).Some? ==>
      (|Resolve(rows, e).value.gone| == 1 <==> AtMostOneHolder(rows, e))
  {
    if e.UpdateByKey? {
      var ids := Matching(rows, e.hasKey);
      assert forall id :: id in rows && e.hasKey(rows[id]) <==> id in ids;
      if ids != {} {
        var id :| id in ids;
        if AtMostOneHolder(rows, e) { assert ids == {id}; }
        if |ids| == 1 {
          forall i, j | i in ids && j in ids ensures i == j { Singleton(ids, i, j); }
        }
      }
    }
  }

  lemma OnlyKeysCount(rows: Content, e: Entry)
    requires !e.UpdateByKey?
    ensures AtMostOneHolder(rows, e) && !Unmatched(rows, e)
  {
  }

  lemma NobodyHolds(rows: Content, e: Entry)
    requires Unmatched(rows, e)
    ensures AtMostOneHolder(rows, e)
  {
  }

  lemma Singleton(ids: set<Id>, i: Id, j: Id)
    requires |ids| == 1 && i in ids && j in ids
    ensures i == j
  {
    assert |ids - {i}| == 0;
    assert j !in ids - {i};
  }

  // ---------------------------------------------------------------- which entries are accepted

  /** Which tables have a device generation, and for which of them it is the authority. */
  datatype Shape = Shape(device: set<Table>, authoritative: set<Table>)

  /** The entry can be applied: its tables are there, a key names at most one row, and the device does
      not decline a generation it would have to publish. */
  ghost predicate Accepts(shape: Shape, l: Logical, e: Entry, declines: bool)
  {
    if OneTable(e) then
      e.table in l && AtMostOneHolder(l[e.table], e) && (declines ==> Unmatched(l[e.table], e))
    else match e
      case Transaction(changes) => !declines && changes.Keys <= shape.device
      case CreateTable(t) => t !in l
      case _ => true
  }

  /** Row entries populate and entrust their tables; DDL over the host takes every authority back. */
  ghost function Reshaped(shape: Shape, l: Logical, e: Entry): Shape
  {
    if OneTable(e) then Shape(shape.device + {e.table}, shape.authoritative + {e.table})
    else match e
      case Transaction(changes) => shape.(authoritative := shape.authoritative + changes.Keys)
      case Repair(_, effect) => Shape(effect(l).Keys, {})
      case _ => shape
  }

  ghost function ShapeAfter(shape: Shape, l0: Logical, entries: seq<Entry>): Shape
  {
    if entries == [] then shape
    else
      var n := |entries| - 1;
      Reshaped(ShapeAfter(shape, l0, entries[..n]), Replay(l0, entries[..n]), entries[n])
  }

  lemma ShapeStep(shape: Shape, l0: Logical, entries: seq<Entry>, i: nat)
    requires i < |entries|
    ensures ShapeAfter(shape, l0, entries[..i + 1])
         == Reshaped(ShapeAfter(shape, l0, entries[..i]), Replay(l0, entries[..i]), entries[i])
  {
    assert entries[..i + 1][..i] == entries[..i];
  }

  /** Entry `i` is accepted at its turn; an insert into a coalesced table always is. */
  ghost predicate AcceptedAt(shape: Shape, l0: Logical, entries: seq<Entry>, coalesce: set<Table>,
                             declines: set<nat>, i: nat)
    requires i < |entries|
  {
    || (OneTable(entries[i]) && entries[i].table in coalesce)
    || Accepts(ShapeAfter(shape, l0, entries[..i]), Replay(l0, entries[..i]), entries[i], i in declines)
  }

  ghost predicate AllAccepted(shape: Shape, l0: Logical, entries: seq<Entry>, coalesce: set<Table>,
                              declines: set<nat>)
  {
    forall i :: 0 <= i < |entries| ==> AcceptedAt(shape, l0, entries, coalesce, declines, i)
  }

  /** Some coalesced table has rows to append. */
  ghost predicate AnythingCoalesced(entries: seq<Entry>, coalesce: set<Table>)
  {
    exists t :: t in coalesce && InsertsRows(entries, |entries|, t)
  }

  /** A whole batch is accepted: every entry at its turn, and the one append of the coalesced rows. */
  ghost predicate BatchAccepted(shape: Shape, l0: Logical, entries: seq<Entry>, declines: set<nat>,
                                appendDeclines: bool)
  {
    var coalesce := Coalescible(entries, shape.authoritative);
    && AllAccepted(shape, l0, entries, coalesce, declines)
    && !(appendDeclines && AnythingCoalesced(entries, coalesce))
  }

  lemma ResolvedIsApplied(l: Logical, e: Entry)
    requires OneTable(e) && e.table in l
    ensures var change := Resolve(l[e.table], e);
      ApplyOne(l, e)[e.table] == if change.Some? then l[e.table] - change.value.gone + change.value.put else l[e.table]
    ensures ApplyOne(l, e).Keys == l.Keys
    ensures forall t :: t in l && t != e.table ==> ApplyOne(l, e)[t] == l[t]
  {
    var rows := l[e.table];
    match e
    case Insert(_, inserted) => assert rows - {} + inserted == rows + inserted;
    case Delete(_, matches) => assert Survivors(rows, matches) == rows - Matching(rows, matches) + map[];
    case Update(_, matches, image) => RewrittenByChange(rows, matches, image);
    case UpdateByKey(_, hasKey, newRow) =>
      RewrittenByChange(rows, hasKey, _ => newRow);
      var ids := Matching(rows, hasKey);
      if ids == {} {
        assert forall id :: id in rows ==> id !in ids;
        assert Rewritten(rows, hasKey, _ => newRow) == rows;
      }
  }

  lemma RewrittenByChange(rows: Content, matches: Row -> bool, image: Row -> Row)
    ensures var ids := Matching(rows, matches);
      Rewritten(rows, matches, image) == rows - ids + (map id | id in ids :: image(rows[id]))
  {
  }

  class DeviceStore {
    var host: Logical
    var device: map<Table, seq<Version>>
    var authoritative: set<Table>

    ghost function ShapeNow(): Shape
      reads this
    {
      Shape(device.Keys, authoritative)
    }

    ghost function View(): Store
      reads this
    {
      Store(host, device, authoritative)
    }

    /** A statement's target gets a device generation first; an authoritative one must have it. */
    method EnsureGeneration(t: Table, boundary: nat, ghost l: Logical, ghost except: set<Table>) returns (ok: bool)
      requires t !in except && Agrees(View(), l, boundary, except)
      modifies this`device
      ensures ok <==> t in l
      ensures ok ==> t in device && Settled(device[t], boundary) && Shown(device[t], boundary) == l[t]
      ensures Agrees(View(), l, boundary, except) && SameElsewhere(old(View()), View(), t)
      ensures ok ==> device.Keys == old(device).Keys + {t}
    {
      hide Shown, Settled;
      if t !in host { return false; }
      ghost var before := View();
      assert TableAgrees(before, t, l[t], boundary);
      if t !in device {
        device := device[t := Born(host[t], boundary)];
        BornShown(host[t], boundary, boundary);
        Rebased(before, View(), l, boundary, except, t);
      }
      ok := true;
    }

    /** Stamp and append one table's change; from here on the device is that table's authority. */
    method PublishChange(t: Table, change: Change, index: nat, declines: bool,
                         ghost l: Logical, ghost next: Logical, ghost except: set<Table>) returns (ok: bool)
      requires index > 0 && t in device && t !in except && Agrees(View(), l, index - 1, except)
      requires t in l && next == l[t := l[t] - change.gone + change.put]
      modifies this`device, this`authoritative
      ensures ok == !declines
      ensures ok ==> Agrees(View(), next, index, except)
      ensures ok ==> ShapeNow() == Shape(old(device).Keys, old(authoritative) + {t})
      ensures SameElsewhere(old(View()), View(), t)
    {
      hide Shown, Settled, Maintained;
      ghost var before := View();
      authoritative := authoritative + {t};
      if declines { return false; }
      assert TableAgrees(before, t, l[t], index - 1);
      MaintainedShown(device[t], change, index, index);
      SettledIsStable(device[t], index - 1, index);
      device := device[t := Maintained(device[t], change, index)];
      Replaced(before, View(), l, next, index, except, t);
      ok := true;
    }

    /** A row statement publishes its own device generation at its own index. */
    method ApplyRow(e: Entry, index: nat, declines: bool, ghost l: Logical, ghost except: set<Table>)
      returns (ok: bool, touched: bool)
      requires OneTable(e) && e.table !in except && index > 0 && Agrees(View(), l, index - 1, except)
      modifies this`device, this`authoritative
      ensures ok <==> Accepts(old(ShapeNow()), l, e, declines)
      ensures ok ==> Agrees(View(), ApplyOne(l, e), index, except)
      ensures ok ==> ShapeNow() == Reshaped(old(ShapeNow()), l, e)
      ensures ok ==> (touched <==> !Unmatched(l[e.table], e))
      ensures SameElsewhere(old(View()), View(), e.table)
    {
      hide Shown, Settled, TableAgrees, Resolve, ApplyOne, Unmatched, AtMostOneHolder;
      touched := false;
      ok := EnsureGeneration(e.table, index - 1, l, except);
      if !ok { return; }
      ResolvedIsApplied(l, e);
      ResolveYields(l[e.table], e);
      if !e.UpdateByKey? { OnlyKeysCount(l[e.table], e); }
      var change := Resolve(Shown(device[e.table], index - 1), e);
      if change.None? {
        ghost var before := View();
        authoritative := authoritative + {e.table};
        Entrusted(before, View(), l, index - 1, except, e.table);
        BoundaryAdvances(View(), l, index - 1, except);
        Unchanged(l, e);
        NobodyHolds(l[e.table], e);
        return;
      }
      if e.UpdateByKey? && |change.value.gone| != 1 { return false, false; }
      ghost var next := l[e.table := l[e.table] - change.value.gone + change.value.put];
      assert next == ApplyOne(l, e);
      ok := PublishChange(e.table, change.value, index, declines, l, next, except);
      touched := ok;
    }

    /** A transaction record's final images, every table at once. */
    method ApplyTransaction(e: Entry, index: nat, declines: bool, ghost l: Logical) returns (ok: bool)
      requires e.Transaction? && index > 0 && Agrees(View(), l, index - 1, {})
      modifies this`device, this`authoritative
      ensures ok <==> Accepts(old(ShapeNow()), l, e, declines)
      ensures ok ==> Agrees(View(), ApplyOne(l, e), index, {}) && ShapeNow() == Reshaped(old(ShapeNow()), l, e)
    {
      hide Shown, Settled, Maintained, TableAgrees;
      if declines || !(e.changes.Keys <= device.Keys) { return false; }
      ghost var before := View();
      BoundaryAdvances(before, l, index - 1, {});
      authoritative := authoritative + e.changes.Keys;
      device := map t | t in device :: if t in e.changes then Maintained(device[t], e.changes[t], index) else device[t];
      ghost var after := View();
      forall t | t in host ensures TableAgrees(after, t, ApplyOne(l, e)[t], index) {
        TransactionTable(before, after, l, e, index, t);
      }
      ok := true;
    }

    /** Rebuild the host representation from the device, run the DDL on it, rebuild every generation. */
    method ApplyRepair(e: Entry, index: nat, ghost l: Logical)
      requires e.Repair? && index > 0 && Agrees(View(), l, index - 1, {})
      modifies this
      ensures Agrees(View(), ApplyOne(l, e), index, {}) && ShapeNow() == Reshaped(old(ShapeNow()), l, e)
    {
      hide Shown, Settled, Born;
      assert forall t :: t in host ==> TableAgrees(View(), t, l[t], index - 1);
      host := map t | t in host :: if t in authoritative then Shown(device[t], index - 1) else host[t];
      assert host == l;
      authoritative := {};
      host := e.effect(host);
      device := map t | t in host :: Born(host[t], index);
      forall t | t in host ensures TableAgrees(View(), t, host[t], index) { BornShown(host[t], index, index); }
    }

    /** Any entry whose target is not being coalesced. */
    method ApplyEntry(e: Entry, index: nat, declines: bool, ghost l: Logical, ghost except: set<Table>)
      returns (ok: bool, touched: set<Table>)
      requires index > 0 && Agrees(View(), l, index - 1, except)
      requires if OneTable(e) then e.table !in except else except == {}
      modifies this
      ensures ok <==> Accepts(old(ShapeNow()), l, e, declines)
      ensures ok ==> Agrees(View(), ApplyOne(l, e), index, except) && touched == Touched(l, e)
      ensures ok ==> ShapeNow() == Reshaped(old(ShapeNow()), l, e)
      ensures forall t :: t in except ==> SameTable(old(View()), View(), t)
      ensures ok && !OneTable(e) && !e.Transaction? && InvalidationScope(e).Some? ==>
        InvalidationScope(e).value !! authoritative
    {
      hide Shown, Settled, TableAgrees, Resolve, Unmatched, AtMostOneHolder;
      touched := {};
      match e
      case Transaction(changes) =>
        ok := ApplyTransaction(e, index, declines, l);
        touched := changes.Keys;
      case Neutral =>
        BoundaryAdvances(View(), l, index - 1, except);
        ok := true;
      case CreateTable(t) =>
        if t in host { return false, {}; }
        BoundaryAdvances(View(), l, index - 1, except);
        ghost var before := View();
        host := host[t := map[]];
        Created(before, View(), l, index, t);
        ok := true;
      case Repair(_, _) =>
        ApplyRepair(e, index, l);
        ok := true;
      case _ =>
        var applied;
        ghost var before := View();
        ok, applied := ApplyRow(e, index, declines, l, except);
        forall t | t in except ensures SameTable(before, View(), t) { OtherTableSame(before, View(), e.table, t); }
        touched := if applied then {e.table} else {};
    }

    /** One entry of the apply loop: coalesce it, or publish it at its own index. */
    method ApplyNext(entries: seq<Entry>, first: nat, i: nat, coalesce: set<Table>, declines: set<nat>,
                     maintained: set<Table>, pending: map<Table, seq<Version>>, ghost l0: Logical, ghost shape: Shape)
      returns (ok: bool, newMaintained: set<Table>, newPending: map<Table, seq<Version>>)
      requires first > 0 && i < |entries| && AllInsertOnly(entries, coalesce)
      requires Progress(View(), maintained, pending, l0, entries, first, i, coalesce)
      requires ShapeNow() == ShapeAfter(shape, l0, entries[..i])
      modifies this
      ensures ok <==> AcceptedAt(shape, l0, entries, coalesce, declines, i)
      ensures ok ==> Progress(View(), newMaintained, newPending, l0, entries, first, i + 1, coalesce)
      ensures ok ==> ShapeNow() == ShapeAfter(shape, l0, entries[..i + 1])
    {
      hide Progress, Agrees, ApplyOne, Touched, SameTable, Born, Replay, AllInsertOnly, Accepts, ShapeAfter;
      var e := entries[i];
      ShapeStep(shape, l0, entries, i);
      ProgressAgrees(View(), maintained, pending, l0, entries, first, i, coalesce);
      if OneTable(e) && e.table in coalesce {
        CoalescedEntryIsInsert(entries, i, coalesce);
        ok, newMaintained := true, maintained;
        newPending := pending[e.table := pending[e.table] + Born(e.rows, first + i)];
        CoalescedIsEntrusted(View(), maintained, pending, l0, entries, first, i, coalesce);
        ProgressInsert(View(), maintained, pending, l0, entries, first, i, coalesce);
      } else {
        ghost var before := View();
        MixedBatchIsPlain(entries, i, coalesce);
        var touched;
        ok, touched := ApplyEntry(e, first + i, i in declines, Replay(l0, entries[..i]), coalesce);
        newMaintained, newPending := maintained + touched, pending;
        if ok { ProgressEntry(before, View(), maintained, pending, l0, entries, first, i, coalesce); }
      }
    }

    /** The whole apply loop. */
    method ApplyLoop(entries: seq<Entry>, first: nat, coalesce: set<Table>, declines: set<nat>, ghost l0: Logical)
      returns (ok: bool, maintained: set<Table>, pending: map<Table, seq<Version>>)
      requires first > 0 && Agrees(View(), l0, first - 1, {})
      requires AllInsertOnly(entries, coalesce) && coalesce <= authoritative
      modifies this
      ensures ok <==> AllAccepted(old(ShapeNow()), l0, entries, coalesce, declines)
      ensures ok ==> Progress(View(), maintained, pending, l0, entries, first, |entries|, coalesce)
      ensures ok ==> ShapeNow() == ShapeAfter(old(ShapeNow()), l0, entries)
    {
      hide Progress, Agrees, AcceptedAt;
      ok, maintained, pending := true, {}, map t | t in coalesce :: [];
      ghost var shape := ShapeNow();
      ProgressStarts(View(), l0, entries, first, coalesce);
      var i := 0;
      while i < |entries|
        invariant 0 <= i <= |entries| && ok
        invariant Progress(View(), maintained, pending, l0, entries, first, i, coalesce)
        invariant ShapeNow() == ShapeAfter(shape, l0, entries[..i])
        invariant forall j :: 0 <= j < i ==> AcceptedAt(shape, l0, entries, coalesce, declines, j)
      {
        ok, maintained, pending := ApplyNext(entries, first, i, coalesce, declines, maintained, pending, l0, shape);
        if !ok { return; }
        i := i + 1;
      }
      assert entries[..i] == entries;
    }

    /** One stamped append per coalesced table that received rows. */
    method AppendCoalesced(entries: seq<Entry>, first: nat, coalesce: set<Table>, declines: bool,
                           maintained: set<Table>, pending: map<Table, seq<Version>>, ghost l0: Logical)
      returns (ok: bool, newMaintained: set<Table>)
      requires first > 0 && Progress(View(), maintained, pending, l0, entries, first, |entries|, coalesce)
      modifies this`device
      ensures ok <==> !(declines && AnythingCoalesced(entries, coalesce))
      ensures device.Keys == old(device).Keys
      ensures ok ==> Agrees(View(), Replay(l0, entries), first - 1 + |entries|, {})
      ensures ok ==> forall t :: t in newMaintained <==> MaintainedBy(l0, entries, coalesce, t)
      ensures ok ==> forall t :: t in coalesce ==>
        t in device && ExactThrough(device[t], l0, entries, first, t, |entries|)
    {
      hide Agrees, ExactThrough, MaintainedBy, Progress, InsertsRows;
      ProgressAgrees(View(), maintained, pending, l0, entries, first, |entries|, coalesce);
      PendingMeansRows(View(), maintained, pending, l0, entries, first, coalesce);
      var full := set t | t in coalesce && pending[t] != [];
      newMaintained := maintained + full;
      if declines && full != {} { return false, {}; }
      ghost var before := View();
      device := map t | t in device :: if t in full then device[t] + pending[t] else device[t];
      AppendedStore(before, View(), maintained, pending, l0, entries, first, coalesce);
      ok := true;
    }

    /** Retire every generation in the batch's scope that the batch did not itself maintain. */
    method InvalidateExcept(entries: seq<Entry>, maintained: set<Table>)
      modifies this`device
      ensures device.Keys ==
        set t | t in old(device) && (HasGlobalScope(entries) || !InScope(entries, t) || t in maintained)
      ensures forall t :: t in device ==> device[t] == old(device)[t]
    {
      var scope := ScopeOf(entries);
      if scope.None? {
        // Only repair-consuming DDL has a global scope, and it has rebuilt every table already.
        assert exists k :: 0 <= k < |entries| && RequiresRepair(entries[k]);
        return;
      }
      device := map t | t in device && (t !in scope.value || t in maintained) :: device[t];
    }

    /** Everything up to the retirement: coalesce, apply, append. */
    method ApplyEntries(entries: seq<Entry>, first: nat, declines: set<nat>, appendDeclines: bool, ghost l0: Logical)
      returns (ok: bool, maintained: set<Table>)
      requires first > 0 && Agrees(View(), l0, first - 1, {})
      modifies this
      ensures ok <==> BatchAccepted(old(ShapeNow()), l0, entries, declines, appendDeclines)
      ensures ok ==> ShapeNow() == ShapeAfter(old(ShapeNow()), l0, entries)
      ensures ok ==> Agrees(View(), Replay(l0, entries), first - 1 + |entries|, {})
      ensures ok ==> forall t :: t in maintained <==>
        MaintainedBy(l0, entries, Coalescible(entries, old(authoritative)), t)
      ensures ok ==> forall t :: t in Coalescible(entries, old(authoritative)) ==>
        t in device && ExactThrough(device[t], l0, entries, first, t, |entries|)
    {
      hide Agrees, InsertOnly, MaintainedBy, Progress, Replay, ExactThrough, AllAccepted, ShapeAfter, AnythingCoalesced;
      var insertOnly := InsertOnlyTables(entries);
      var coalesce := insertOnly * authoritative;
      assert coalesce == Coalescible(entries, authoritative);
      var pending;
      ok, maintained, pending := ApplyLoop(entries, first, coalesce, declines, l0);
      if !ok { return; }
      ok, maintained := AppendCoalesced(entries, first, coalesce, appendDeclines, maintained, pending, l0);
    }

    /** Apply a durable batch of several entries.

        It succeeds exactly when every entry is acceptable at its turn and the device does not decline
        the coalesced append.  Then every device generation that survives is exact at the final
        boundary; a coalesced table is exact at every boundary inside the batch; the host copy is exact
        wherever the device is not authoritative; and an authoritative table keeps its generation if
        and only if no entry names it or some entry maintained it.  So a DELETE or UPDATE never costs
        its table the copy, whatever it matches: only a keyed update record without a match and a
        coalesced insert without rows do. */
    method ApplyBatch(entries: seq<Entry>, first: nat, declines: set<nat>, appendDeclines: bool, ghost l0: Logical)
      returns (ok: bool)
      requires |entries| > 1 && first > 0 && Agrees(View(), l0, first - 1, {})
      modifies this
      ensures ok <==> BatchAccepted(old(ShapeNow()), l0, entries, declines, appendDeclines)
      ensures ok ==> authoritative == ShapeAfter(old(ShapeNow()), l0, entries).authoritative
      ensures ok ==> forall t :: t in device ==> ExactCopy(device[t], Replay(l0, entries), t, first - 1 + |entries|)
      ensures ok ==> forall t :: t in device && t in old(authoritative) && InsertOnly(entries, t) ==>
        forall c: nat :: c <= |entries| ==> ExactAt(device[t], l0, entries, first, t, c)
      ensures ok ==> host.Keys == Replay(l0, entries).Keys
      ensures ok ==> forall t :: t in host && t !in authoritative ==> host[t] == Replay(l0, entries)[t]
      ensures ok ==> device.Keys == KeptGenerations(old(ShapeNow()), l0, entries)
      ensures ok ==> (Agrees(View(), Replay(l0, entries), first - 1 + |entries|, {}) <==> authoritative <= device.Keys)
      ensures ok ==> StatementsKeepCopies(entries, authoritative, device.Keys)
      ensures ok ==> OnlyCostlyLoseCopies(l0, entries, old(authoritative), authoritative, device.Keys)
    {
      hide Shown, Settled, InScope, InsertOnly, MaintainedBy, Replay, ExactAt, BatchAccepted, ShapeAfter;
      hide StatementsKeepCopies, OnlyCostlyLoseCopies;
      var maintained;
      ok, maintained := ApplyEntries(entries, first, declines, appendDeclines, l0);
      if !ok { return; }
      ghost var before := View();
      assert forall t :: t in host ==> TableAgrees(before, t, Replay(l0, entries)[t], first - 1 + |entries|);
      InvalidateExcept(entries, maintained);
      ThinnedAgrees(before, View(), Replay(l0, entries), first - 1 + |entries|);
      AuthorityHasCopies(before, Replay(l0, entries), first - 1 + |entries|);
      RowEntriesKeepCopies(old(ShapeNow()), l0, entries, declines, appendDeclines, authoritative, device.Keys);
    }

    /** Apply a durable batch of one entry: a row record is always handled, even when it matches
        nothing, so only DDL retires generations and the store stays exact for every table. */
    method ApplySingle(e: Entry, index: nat, declines: bool, ghost l: Logical) returns (ok: bool)
      requires index > 0 && Agrees(View(), l, index - 1, {})
      modifies this
      ensures ok <==> Accepts(old(ShapeNow()), l, e, declines)
      ensures ok ==> Agrees(View(), ApplyOne(l, e), index, {})
      ensures ok ==> authoritative == Reshaped(old(ShapeNow()), l, e).authoritative
      ensures ok && OneTable(e) ==> e.table in device
    {
      hide Agrees, ApplyOne, Touched, Accepts;
      var touched;
      ok, touched := ApplyEntry(e, index, declines, l, {});
      if !ok { return; }
      var handled := OneTable(e) || e.Transaction?;
      if !handled {
        ghost var before := View();
        InvalidateExcept([e], {});
        ScopeOfOne(e);
        RetiredNothingAuthoritative(before, View(), ApplyOne(l, e), index);
      }
    }
  }

  /** Dropping generations keeps everything exact but the authority of what was dropped. */
  lemma ThinnedAgrees(s: Store, after: Store, l: Logical, boundary: nat)
    requires Agrees(s, l, boundary, {}) && after.host == s.host && after.authoritative == s.authoritative
    requires after.device.Keys <= s.device.Keys && forall t :: t in after.device ==> after.device[t] == s.device[t]
    ensures Agrees(after, l, boundary, {}) <==> after.authoritative <= after.device.Keys
  {
    hide Shown, Settled;
    forall t | t in after.host
      ensures TableAgrees(after, t, l[t], boundary) <==> (t in after.authoritative ==> t in after.device)
    {
      assert TableAgrees(s, t, l[t], boundary);
    }
  }

  lemma AuthorityHasCopies(s: Store, l: Logical, boundary: nat)
    requires Agrees(s, l, boundary, {})
    ensures s.authoritative <= s.device.Keys
  {
    forall t | t in s.authoritative ensures t in s.device { assert TableAgrees(s, t, l[t], boundary); }
  }

  lemma ScopeOfOne(e: Entry)
    ensures HasGlobalScope([e]) <==> InvalidationScope(e).None?
    ensures InvalidationScope(e).Some? ==> forall t :: InScope([e], t) <==> t in InvalidationScope(e).value
  {
    assert [e][0] == e;
  }

  lemma RetiredNothingAuthoritative(s: Store, after: Store, l: Logical, boundary: nat)
    requires Agrees(s, l, boundary, {}) && after.host == s.host && after.authoritative == s.authoritative
    requires after.device.Keys <= s.device.Keys && forall t :: t in after.device ==> after.device[t] == s.device[t]
    requires forall t :: t in s.device && t in s.authoritative ==> t in after.device
    ensures Agrees(after, l, boundary, {})
  {
    ThinnedAgrees(s, after, l, boundary);
    forall t | t in after.authoritative ensures t in after.device {
      assert TableAgrees(s, t, l[t], boundary);
    }
  }

  ghost predicate ExactCopy(versions: seq<Version>, l: Logical, t: Table, boundary: nat)
  {
    t in l && Settled(versions, boundary) && Shown(versions, boundary) == l[t]
  }

  ghost function Coalescible(entries: seq<Entry>, authoritative: set<Table>): set<Table>
  {
    set t | t in authoritative && InsertOnly(entries, t)
  }

  /** The generations a batch leaves: all there are but those in its scope that it did not maintain. */
  ghost function KeptGenerations(shape: Shape, l0: Logical, entries: seq<Entry>): set<Table>
  {
    set t | t in ShapeAfter(shape, l0, entries).device
            && (HasGlobalScope(entries) || !InScope(entries, t)
                || MaintainedBy(l0, entries, Coalescible(entries, shape.authoritative), t))
  }

  /** The two kinds of row entry that can leave their table in scope and unmaintained. */
  ghost predicate CostsItsTable(l0: Logical, entries: seq<Entry>, authoritative: set<Table>, k: nat)
    requires k < |entries| && OneTable(entries[k])
  {
    var e, rows := entries[k], Replay(l0, entries[..k]);
    || (e.UpdateByKey? && e.table in rows && Unmatched(rows[e.table], e))
    || (e.Insert? && e.rows == map[] && e.table in Coalescible(entries, authoritative))
  }

  /** A DELETE or UPDATE does not cost its table the copy, whatever it matches. */
  ghost predicate StatementsKeepCopies(entries: seq<Entry>, authoritative: set<Table>, device: set<Table>)
  {
    forall k :: 0 <= k < |entries| && (entries[k].Delete? || entries[k].Update?) ==>
      (entries[k].table in authoritative ==> entries[k].table in device)
  }

  ghost predicate OnlyCostlyLoseCopies(l0: Logical, entries: seq<Entry>, before: set<Table>,
                                       authoritative: set<Table>, device: set<Table>)
  {
    forall k :: 0 <= k < |entries| && OneTable(entries[k]) ==>
      (entries[k].table in authoritative && entries[k].table !in device ==> CostsItsTable(l0, entries, before, k))
  }

  lemma RowEntriesKeepCopies(shape: Shape, l0: Logical, entries: seq<Entry>, declines: set<nat>, appendDeclines: bool,
                             authoritative: set<Table>, device: set<Table>)
    requires BatchAccepted(shape, l0, entries, declines, appendDeclines)
    requires forall t :: t in authoritative ==>
      MaintainedBy(l0, entries, Coalescible(entries, shape.authoritative), t) ==> t in device
    ensures StatementsKeepCopies(entries, authoritative, device)
    ensures OnlyCostlyLoseCopies(l0, entries, shape.authoritative, authoritative, device)
  {
    hide AllAccepted, MaintainedBy, CostsItsTable, Coalescible;
    var before := shape.authoritative;
    forall k | 0 <= k < |entries| && OneTable(entries[k])
      ensures CostsItsTable(l0, entries, before, k)
           || MaintainedBy(l0, entries, Coalescible(entries, before), entries[k].table)
      ensures entries[k].Delete? || entries[k].Update? ==> !CostsItsTable(l0, entries, before, k)
    {
      RowEntryMaintains(shape, l0, entries, before, declines, k);
    }
  }

  lemma RowEntryMaintains(shape: Shape, l0: Logical, entries: seq<Entry>, authoritative: set<Table>,
                          declines: set<nat>, k: nat)
    requires k < |entries| && OneTable(entries[k])
    requires AllAccepted(shape, l0, entries, Coalescible(entries, authoritative), declines)
    ensures AcceptedAt(shape, l0, entries, Coalescible(entries, authoritative), declines, k)
    ensures CostsItsTable(l0, entries, authoritative, k)
         || MaintainedBy(l0, entries, Coalescible(entries, authoritative), entries[k].table)
    ensures entries[k].Delete? || entries[k].Update? ==> !CostsItsTable(l0, entries, authoritative, k)
  {
    hide Replay, ShapeAfter, InsertOnly, AtMostOneHolder;
    var coalesce := Coalescible(entries, authoritative);
    assert AcceptedAt(shape, l0, entries, coalesce, declines, k);
    var t := entries[k].table;
    if t in coalesce {
      CoalescedEntryIsInsert(entries, k, coalesce);
      if entries[k].rows != map[] { assert InsertsRows(entries, |entries|, t); }
    } else if !CostsItsTable(l0, entries, authoritative, k) {
      assert t in Touched(Replay(l0, entries[..k]), entries[k]);
      assert TouchedIn(l0, entries, |entries|, t);
    }
  }

  /** Some entry's scope is every table. */
  ghost predicate HasGlobalScope(entries: seq<Entry>)
  {
    exists k :: 0 <= k < |entries| && InvalidationScope(entries[k]).None?
  }

  /** The batch published a new generation of `t`: some entry really mutated it, or, if `t` is
      coalesced, some insert brought it rows. */
  ghost predicate MaintainedBy(l0: Logical, entries: seq<Entry>, coalesce: set<Table>, t: Table)
  {
    if t in coalesce then InsertsRows(entries, |entries|, t) else TouchedIn(l0, entries, |entries|, t)
  }

  lemma AppendedTable(s: Store, after: Store, pending: seq<Version>, l0: Logical, entries: seq<Entry>, first: nat,
                      t: Table)
    requires first > 0 && Coalesced(s, pending, l0, entries, first, |entries|, t)
    requires after.host == s.host && after.authoritative == s.authoritative && t in after.device
    requires after.device[t] == if pending != [] then s.device[t] + pending else s.device[t]
    ensures t in Replay(l0, entries) && TableAgrees(after, t, Replay(l0, entries)[t], first - 1 + |entries|)
    ensures ExactThrough(after.device[t], l0, entries, first, t, |entries|)
  {
    hide Shown, Settled, ExactThrough;
    assert s.device[t] + [] == s.device[t];
    LastIsExact(s.device[t] + pending, l0, entries, first, t);
  }

  /** Appending the coalesced rows completes the batch for every table. */
  lemma AppendedStore(s: Store, after: Store, maintained: set<Table>, pending: map<Table, seq<Version>>,
                      l0: Logical, entries: seq<Entry>, first: nat, coalesce: set<Table>)
    requires first > 0 && Progress(s, maintained, pending, l0, entries, first, |entries|, coalesce)
    requires after.host == s.host && after.authoritative == s.authoritative && after.device.Keys == s.device.Keys
    requires forall t :: t in s.device ==>
      after.device[t] == if t in pending && pending[t] != [] then s.device[t] + pending[t] else s.device[t]
    ensures Agrees(after, Replay(l0, entries), first - 1 + |entries|, {})
    ensures forall t :: t in coalesce ==>
      t in after.device && ExactThrough(after.device[t], l0, entries, first, t, |entries|)
    ensures forall t ::
      (t in maintained || (t in coalesce && pending[t] != [])) <==> MaintainedBy(l0, entries, coalesce, t)
  {
    hide Shown, Settled, ExactThrough, TouchedIn, InsertsRows;
    assert entries[..|entries|] == entries;
    forall t | t in coalesce
      ensures t in s.host && t in after.device && ExactThrough(after.device[t], l0, entries, first, t, |entries|)
      ensures TableAgrees(after, t, Replay(l0, entries)[t], first - 1 + |entries|)
    {
      assert Coalesced(s, pending[t], l0, entries, first, |entries|, t);
      AppendedTable(s, after, pending[t], l0, entries, first, t);
    }
    forall t | t in after.host && t !in coalesce
      ensures TableAgrees(after, t, Replay(l0, entries)[t], first - 1 + |entries|)
    {
      assert TableAgrees(s, t, Replay(l0, entries)[t], first - 1 + |entries|);
    }
  }

  lemma LastIsExact(versions: seq<Version>, l0: Logical, entries: seq<Entry>, first: nat, t: Table)
    requires first > 0 && ExactThrough(versions, l0, entries, first, t, |entries|)
    ensures t in Replay(l0, entries) && Shown(versions, first - 1 + |entries|) == Replay(l0, entries)[t]
  {
    assert ExactAt(versions, l0, entries, first, t, |entries|);
    assert entries[..|entries|] == entries;
  }

  ghost predicate AllInsertOnly(entries: seq<Entry>, coalesce: set<Table>)
  {
    forall t :: t in coalesce ==> InsertOnly(entries, t)
  }

  /** The loop invariant of the apply loop. */
  ghost predicate Progress(s: Store, maintained: set<Table>, pending: map<Table, seq<Version>>,
                           l0: Logical, entries: seq<Entry>, first: nat, i: nat, coalesce: set<Table>)
    requires first > 0 && i <= |entries|
  {
    && Agrees(s, Replay(l0, entries[..i]), first - 1 + i, coalesce)
    && (forall t :: t in maintained <==> t !in coalesce && TouchedIn(l0, entries, i, t))
    && pending.Keys == coalesce
    && (forall t :: t in coalesce ==> Coalesced(s, pending[t], l0, entries, first, i, t))
    && (forall t :: t in coalesce ==> (pending[t] != [] <==> InsertsRows(entries, i, t)))
  }

  lemma ProgressAgrees(s: Store, maintained: set<Table>, pending: map<Table, seq<Version>>,
                       l0: Logical, entries: seq<Entry>, first: nat, i: nat, coalesce: set<Table>)
    requires first > 0 && i <= |entries| && Progress(s, maintained, pending, l0, entries, first, i, coalesce)
    ensures Agrees(s, Replay(l0, entries[..i]), first - 1 + i, coalesce) && pending.Keys == coalesce
  {
    hide Agrees, Coalesced, TouchedIn, InsertsRows;
  }

  lemma PendingMeansRows(s: Store, maintained: set<Table>, pending: map<Table, seq<Version>>,
                         l0: Logical, entries: seq<Entry>, first: nat, coalesce: set<Table>)
    requires first > 0 && Progress(s, maintained, pending, l0, entries, first, |entries|, coalesce)
    ensures pending.Keys == coalesce
    ensures forall t :: t in coalesce ==> (pending[t] != [] <==> InsertsRows(entries, |entries|, t))
  {
    hide Agrees, Coalesced, TouchedIn, InsertsRows;
  }

  lemma CoalescedIsEntrusted(s: Store, maintained: set<Table>, pending: map<Table, seq<Version>>,
                             l0: Logical, entries: seq<Entry>, first: nat, i: nat, coalesce: set<Table>)
    requires first > 0 && i <= |entries| && Progress(s, maintained, pending, l0, entries, first, i, coalesce)
    ensures coalesce <= s.device.Keys && coalesce <= s.authoritative
  {
    hide Agrees, TouchedIn, InsertsRows, Settled, ExactThrough;
    forall t | t in coalesce ensures t in s.device && t in s.authoritative {
      assert Coalesced(s, pending[t], l0, entries, first, i, t);
    }
  }

  lemma CoalescedEntryIsInsert(entries: seq<Entry>, i: nat, coalesce: set<Table>)
    requires AllInsertOnly(entries, coalesce) && i < |entries| && OneTable(entries[i]) && entries[i].table in coalesce
    ensures entries[i].Insert?
  {
    assert InsertOnly(entries, entries[i].table);
  }

  lemma MixedBatchIsPlain(entries: seq<Entry>, i: nat, coalesce: set<Table>)
    requires AllInsertOnly(entries, coalesce) && i < |entries|
    ensures coalesce == {} || OneTable(entries[i])
  {
    if coalesce != {} {
      var t :| t in coalesce;
      assert InsertOnly(entries, t);
    }
  }

  lemma ProgressStarts(s: Store, l0: Logical, entries: seq<Entry>, first: nat, coalesce: set<Table>)
    requires first > 0 && Agrees(s, l0, first - 1, {}) && coalesce <= s.authoritative
    ensures Progress(s, {}, map t | t in coalesce :: [], l0, entries, first, 0, coalesce)
  {
    hide Coalesced, TableAgrees;
    assert entries[..0] == [];
    StartCoalescing(s, l0, entries, first, coalesce);
  }

  lemma ProgressInsert(s: Store, maintained: set<Table>, pending: map<Table, seq<Version>>,
                       l0: Logical, entries: seq<Entry>, first: nat, i: nat, coalesce: set<Table>)
    requires first > 0 && i < |entries| && Progress(s, maintained, pending, l0, entries, first, i, coalesce)
    requires AllInsertOnly(entries, coalesce) && entries[i].Insert? && entries[i].table in coalesce
    ensures var u := entries[i].table;
      Progress(s, maintained, pending[u := pending[u] + Born(entries[i].rows, first + i)],
               l0, entries, first, i + 1, coalesce)
  {
    hide Coalesced, TableAgrees, ApplyOne, InsertsRows, TouchedIn, Born, Resolve, InsertOnly;
    ReplayStep(l0, entries, i);
    CoalescedInsert(s, pending, l0, entries, first, i);
    CoalescedAgrees(s, Replay(l0, entries[..i]), entries[i], first - 1 + i, coalesce);
    forall t ensures t in maintained <==> t !in coalesce && TouchedIn(l0, entries, i + 1, t) {
      TouchedInGrows(l0, entries, i, t);
    }
  }

  lemma ProgressEntry(s: Store, after: Store, maintained: set<Table>, pending: map<Table, seq<Version>>,
                      l0: Logical, entries: seq<Entry>, first: nat, i: nat, coalesce: set<Table>)
    requires first > 0 && i < |entries| && Progress(s, maintained, pending, l0, entries, first, i, coalesce)
    requires AllInsertOnly(entries, coalesce) && (OneTable(entries[i]) ==> entries[i].table !in coalesce)
    requires coalesce == {} || OneTable(entries[i])
    requires Agrees(after, ApplyOne(Replay(l0, entries[..i]), entries[i]), first + i, coalesce)
    requires forall t :: t in coalesce ==> SameTable(s, after, t)
    ensures Progress(after, maintained + Touched(Replay(l0, entries[..i]), entries[i]), pending,
                     l0, entries, first, i + 1, coalesce)
  {
    hide Coalesced, TableAgrees, ApplyOne, InsertsRows, TouchedIn, Resolve, InsertOnly, SameTable;
    ReplayStep(l0, entries, i);
    CoalescedIdle(s, after, pending, l0, entries, first, i, coalesce);
    forall t ensures t in maintained + Touched(Replay(l0, entries[..i]), entries[i])
                     <==> t !in coalesce && TouchedIn(l0, entries, i + 1, t) {
      TouchedInGrows(l0, entries, i, t);
    }
  }

  /** Some entry before `i` yielded an applied mutation for `t`. */
  ghost predicate TouchedIn(l0: Logical, entries: seq<Entry>, i: nat, t: Table)
    requires i <= |entries|
  {
    exists k :: 0 <= k < i && t in Touched(Replay(l0, entries[..k]), entries[k])
  }

  lemma TouchedInGrows(l0: Logical, entries: seq<Entry>, i: nat, t: Table)
    requires i < |entries|
    ensures TouchedIn(l0, entries, i + 1, t) <==>
      TouchedIn(l0, entries, i, t) || t in Touched(Replay(l0, entries[..i]), entries[i])
  {
    if TouchedIn(l0, entries, i, t) {
      var k :| 0 <= k < i && t in Touched(Replay(l0, entries[..k]), entries[k]);
      assert k < i + 1;
    }
  }

  /** Some insert before `i` brought `t` at least one row. */
  ghost predicate InsertsRows(entries: seq<Entry>, i: nat, t: Table)
    requires i <= |entries|
  {
    exists k :: 0 <= k < i && entries[k].Insert? && entries[k].table == t && entries[k].rows != map[]
  }

  lemma ReplayStep(l0: Logical, entries: seq<Entry>, i: nat)
    requires i < |entries|
    ensures Replay(l0, entries[..i + 1]) == ApplyOne(Replay(l0, entries[..i]), entries[i])
  {
    assert entries[..i + 1][..i] == entries[..i];
  }

  /** At the boundary after `c` entries the versions show exactly what those entries produce. */
  ghost predicate ExactAt(versions: seq<Version>, l0: Logical, entries: seq<Entry>, first: nat, t: Table, c: nat)
    requires first > 0 && c <= |entries|
  {
    t in Replay(l0, entries[..c]) && Shown(versions, first - 1 + c) == Replay(l0, entries[..c])[t]
  }

  ghost predicate ExactThrough(versions: seq<Version>, l0: Logical, entries: seq<Entry>, first: nat, t: Table, i: nat)
    requires first > 0 && i <= |entries|
  {
    forall c: nat :: c <= i ==> ExactAt(versions, l0, entries, first, t, c)
  }

  /** A table being coalesced: device plus pending rows are exact at every boundary so far. */
  ghost predicate Coalesced(s: Store, pending: seq<Version>, l0: Logical, entries: seq<Entry>, first: nat, i: nat,
                            t: Table)
    requires first > 0 && i <= |entries|
  {
    && t in s.host && t in s.device && t in s.authoritative
    && Settled(s.device[t] + pending, first - 1 + i)
    && ExactThrough(s.device[t] + pending, l0, entries, first, t, i)
  }

  lemma ExactIdle(versions: seq<Version>, l0: Logical, entries: seq<Entry>, first: nat, t: Table, i: nat)
    requires first > 0 && i < |entries| && Settled(versions, first - 1 + i)
    requires ExactThrough(versions, l0, entries, first, t, i)
    requires OneTable(entries[i]) && entries[i].table != t
    ensures Settled(versions, first + i) && ExactThrough(versions, l0, entries, first, t, i + 1)
  {
    hide Shown;
    assert ExactAt(versions, l0, entries, first, t, i);
    ReplayStep(l0, entries, i);
    var l := Replay(l0, entries[..i]);
    if entries[i].table in l { ResolvedIsApplied(l, entries[i]); }
    SettledIsStable(versions, first - 1 + i, first + i);
  }

  lemma ExactInsert(versions: seq<Version>, l0: Logical, entries: seq<Entry>, first: nat, t: Table, i: nat)
    requires first > 0 && i < |entries| && Settled(versions, first - 1 + i)
    requires ExactThrough(versions, l0, entries, first, t, i)
    requires entries[i].Insert? && entries[i].table == t
    ensures var after := versions + Born(entries[i].rows, first + i);
      Settled(after, first + i) && ExactThrough(after, l0, entries, first, t, i + 1)
  {
    hide Shown, Born;
    var born := Born(entries[i].rows, first + i);
    ReplayStep(l0, entries, i);
    BornShown(entries[i].rows, first + i, first + i);
    forall c: nat | c <= i + 1 ensures ExactAt(versions + born, l0, entries, first, t, c) {
      ShownConcat(versions, born, first - 1 + c);
      BornShown(entries[i].rows, first + i, first - 1 + c);
      if c <= i {
        assert ExactAt(versions, l0, entries, first, t, c);
        assert Shown(versions, first - 1 + c) + map[] == Shown(versions, first - 1 + c);
      } else {
        assert ExactAt(versions, l0, entries, first, t, i);
        SettledIsStable(versions, first - 1 + i, first + i);
      }
    }
  }

  lemma StartCoalescing(s: Store, l0: Logical, entries: seq<Entry>, first: nat, coalesce: set<Table>)
    requires first > 0 && Agrees(s, l0, first - 1, {}) && coalesce <= s.authoritative
    ensures forall t :: t in coalesce ==> Coalesced(s, [], l0, entries, first, 0, t)
  {
    hide Shown;
    forall t | t in coalesce ensures Coalesced(s, [], l0, entries, first, 0, t) {
      assert TableAgrees(s, t, l0[t], first - 1);
      assert s.device[t] + [] == s.device[t] && entries[..0] == [];
      assert ExactAt(s.device[t], l0, entries, first, t, 0);
    }
  }

  lemma CoalescedInsert(s: Store, pending: map<Table, seq<Version>>, l0: Logical, entries: seq<Entry>, first: nat,
                        i: nat)
    requires first > 0 && i < |entries|
    requires forall t :: t in pending ==> InsertOnly(entries, t) && Coalesced(s, pending[t], l0, entries, first, i, t)
    requires OneTable(entries[i]) && entries[i].table in pending
    requires forall t :: t in pending ==> (pending[t] != [] <==> InsertsRows(entries, i, t))
    ensures entries[i].Insert?
    ensures var u := entries[i].table; var after := pending[u := pending[u] + Born(entries[i].rows, first + i)];
      && (forall t :: t in pending ==> Coalesced(s, after[t], l0, entries, first, i + 1, t))
      && (forall t :: t in pending ==> (after[t] != [] <==> InsertsRows(entries, i + 1, t)))
  {
    hide Shown, Settled, ExactThrough, Born;
    var u := entries[i].table;
    assert InsertOnly(entries, u);
    var born := Born(entries[i].rows, first + i);
    var after := pending[u := pending[u] + born];
    BornNonEmpty(entries[i].rows, first + i);
    forall t | t in pending
      ensures Coalesced(s, after[t], l0, entries, first, i + 1, t)
      ensures after[t] != [] <==> InsertsRows(entries, i + 1, t)
    {
      assert Coalesced(s, pending[t], l0, entries, first, i, t);
      InsertsRowsGrows(entries, i, t);
      if t == u {
        ExactInsert(s.device[t] + pending[t], l0, entries, first, t, i);
        assert s.device[t] + pending[t] + born == s.device[t] + after[t];
      } else {
        ExactIdle(s.device[t] + pending[t], l0, entries, first, t, i);
      }
    }
  }

  lemma BornNonEmpty(rows: Content, index: nat)
    ensures Born(rows, index) == [] <==> rows == map[]
  {
    if rows != map[] {
      var id :| id in rows.Keys;
      assert id in InOrder(rows.Keys);
    }
  }

  lemma InsertsRowsGrows(entries: seq<Entry>, i: nat, t: Table)
    requires i < |entries|
    ensures InsertsRows(entries, i + 1, t) <==>
      InsertsRows(entries, i, t) || (entries[i].Insert? && entries[i].table == t && entries[i].rows != map[])
  {
    if InsertsRows(entries, i, t) {
      var k :| 0 <= k < i && entries[k].Insert? && entries[k].table == t && entries[k].rows != map[];
      assert k < i + 1;
    }
  }

  lemma CoalescedIdle(s: Store, after: Store, pending: map<Table, seq<Version>>, l0: Logical, entries: seq<Entry>,
                      first: nat, i: nat, coalesce: set<Table>)
    requires first > 0 && i < |entries| && pending.Keys == coalesce
    requires forall t :: t in coalesce ==> InsertOnly(entries, t) && Coalesced(s, pending[t], l0, entries, first, i, t)
    requires forall t :: t in coalesce ==> SameTable(s, after, t)
    requires !(OneTable(entries[i]) && entries[i].table in coalesce)
    requires forall t :: t in coalesce ==> (pending[t] != [] <==> InsertsRows(entries, i, t))
    ensures forall t :: t in coalesce ==> Coalesced(after, pending[t], l0, entries, first, i + 1, t)
    ensures forall t :: t in coalesce ==> (pending[t] != [] <==> InsertsRows(entries, i + 1, t))
  {
    hide Shown, Settled, ExactThrough;
    forall t | t in coalesce
      ensures Coalesced(after, pending[t], l0, entries, first, i + 1, t)
      ensures pending[t] != [] <==> InsertsRows(entries, i + 1, t)
    {
      assert Coalesced(s, pending[t], l0, entries, first, i, t) && InsertOnly(entries, t) && SameTable(s, after, t);
      InsertsRowsGrows(entries, i, t);
      ExactIdle(s.device[t] + pending[t], l0, entries, first, t, i);
    }
  }

  /** A coalesced insert does not concern the other tables. */
  lemma CoalescedAgrees(s: Store, l: Logical, e: Entry, boundary: nat, coalesce: set<Table>)
    requires Agrees(s, l, boundary, coalesce) && e.Insert? && e.table in coalesce
    ensures Agrees(s, ApplyOne(l, e), boundary + 1, coalesce)
  {
    hide Shown, Settled;
    BoundaryAdvances(s, l, boundary, coalesce);
    forall t | t in s.host && t !in coalesce ensures TableAgrees(s, t, ApplyOne(l, e)[t], boundary + 1) {
      assert TableAgrees(s, t, l[t], boundary + 1);
    }
  }

  lemma TransactionTable(s: Store, after: Store, l: Logical, e: Entry, index: nat, t: Table)
    requires e.Transaction? && index > 0 && e.changes.Keys <= s.device.Keys && SameTables(s, l) && t in s.host
    requires TableAgrees(s, t, l[t], index - 1) && TableAgrees(s, t, l[t], index)
    requires after.host == s.host && after.authoritative == s.authoritative + e.changes.Keys
    requires t in after.device <==> t in s.device
    requires t in s.device ==>
      after.device[t] == if t in e.changes then Maintained(s.device[t], e.changes[t], index) else s.device[t]
    ensures TableAgrees(after, t, ApplyOne(l, e)[t], index)
  {
    hide Shown, Settled, Maintained;
    if t in e.changes { MaintainedShown(s.device[t], e.changes[t], index, index); }
  }

  /** The tables for which an entry yields an applied mutation. */
  ghost function Touched(l: Logical, e: Entry): set<Table>
  {
    if e.Transaction? then e.changes.Keys
    else if OneTable(e) && e.table in l && !Unmatched(l[e.table], e) then {e.table}
    else {}
  }

  ghost predicate SameTable(s: Store, after: Store, t: Table)
  {
    && (t in after.host <==> t in s.host) && (t in s.host ==> after.host[t] == s.host[t])
    && (t in after.device <==> t in s.device) && (t in s.device ==> after.device[t] == s.device[t])
    && (t in after.authoritative <==> t in s.authoritative)
  }

  lemma OtherTableSame(s: Store, after: Store, t: Table, u: Table)
    requires SameElsewhere(s, after, t) && u != t
    ensures SameTable(s, after, u)
  {
    assert u in after.device.Keys - {t} <==> u in s.device.Keys - {t};
    assert u in after.authoritative - {t} <==> u in s.authoritative - {t};
  }

  lemma Created(s: Store, after: Store, l: Logical, boundary: nat, t: Table)
    requires Agrees(s, l, boundary, {}) && t !in s.host && after == s.(host := s.host[t := map[]])
    ensures Agrees(after, l[t := map[]], boundary, {})
  {
    hide Shown, Settled;
    forall u | u in after.host ensures TableAgrees(after, u, l[t := map[]][u], boundary) {
      if u != t { assert TableAgrees(s, u, l[u], boundary); }
    }
  }

  /** Only table `t`'s device copy and authority may differ. */
  ghost predicate SameElsewhere(s: Store, after: Store, t: Table)
  {
    && after.host == s.host
    && after.device.Keys - {t} == s.device.Keys - {t} && after.authoritative - {t} == s.authoritative - {t}
    && s.device.Keys <= after.device.Keys && s.authoritative <= after.authoritative
    && forall u :: u in s.device && u != t ==> u in after.device && after.device[u] == s.device[u]
  }

  lemma Unchanged(l: Logical, e: Entry)
    requires OneTable(e) && e.table in l && Unmatched(l[e.table], e)
    ensures ApplyOne(l, e) == l
  {
    ResolveYields(l[e.table], e);
    ResolvedIsApplied(l, e);
  }

  /** A table with an exact generation may become authoritative. */
  lemma Entrusted(s: Store, after: Store, l: Logical, boundary: nat, except: set<Table>, t: Table)
    requires Agrees(s, l, boundary, except) && t in s.device && t !in except
    requires after == s.(authoritative := s.authoritative + {t})
    ensures Agrees(after, l, boundary, except)
  {
    hide Shown, Settled;
    forall u | u in after.host && u !in except ensures TableAgrees(after, u, l[u], boundary) {
      assert TableAgrees(s, u, l[u], boundary);
    }
  }

  /** Populating one table's missing generation from an exact host copy. */
  lemma Rebased(s: Store, after: Store, l: Logical, boundary: nat, except: set<Table>, t: Table)
    requires Agrees(s, l, boundary, except) && t in s.host && t !in except
    requires after.host == s.host && after.authoritative == s.authoritative && t in after.device
    requires Settled(after.device[t], boundary) && Shown(after.device[t], boundary) == l[t]
    requires after.device.Keys == s.device.Keys + {t}
    requires forall u :: u in s.device && u != t ==> after.device[u] == s.device[u]
    ensures Agrees(after, l, boundary, except)
  {
    hide Shown, Settled;
    forall u | u in after.host && u !in except ensures TableAgrees(after, u, l[u], boundary) {
      assert TableAgrees(s, u, l[u], boundary);
    }
  }

  /** Publishing a new exact generation for one table at the next index. */
  lemma Replaced(s: Store, after: Store, l: Logical, next: Logical, index: nat, except: set<Table>, t: Table)
    requires index > 0 && Agrees(s, l, index - 1, except) && t in s.host && t !in except
    requires next.Keys == l.Keys && forall u :: u in l && u != t ==> next[u] == l[u]
    requires after.host == s.host && after.authoritative == s.authoritative + {t}
    requires after.device.Keys == s.device.Keys + {t}
    requires forall u :: u in s.device && u != t ==> after.device[u] == s.device[u]
    requires Settled(after.device[t], index) && Shown(after.device[t], index) == next[t]
    ensures Agrees(after, next, index, except)
  {
    hide Shown, Settled;
    BoundaryAdvances(s, l, index - 1, except);
    forall u | u in after.host && u !in except ensures TableAgrees(after, u, next[u], index) {
      assert TableAgrees(s, u, l[u], index);
    }
  }

  /** A keyed update record that matches nothing changes no rows, yet inside a batch of several entries
      it puts its table in the retirement scope without maintaining it: the batch is accepted, and by
      the contract of `ApplyBatch` the table, which the record has just made authoritative, loses its
      only copy. */
  lemma UnmatchedKeyedUpdateRetiresItsTable(l0: Logical, t: Table, hasKey: Row -> bool, newRow: Row, shape: Shape)
    requires t in l0 && forall id :: id in l0[t] ==> !hasKey(l0[t][id])
    ensures var entries := [UpdateByKey(t, hasKey, newRow), Neutral];
      && Replay(l0, entries) == l0
      && BatchAccepted(shape, l0, entries, {}, false)
      && t in ShapeAfter(shape, l0, entries).authoritative
      && InScope(entries, t) && !HasGlobalScope(entries)
      && !MaintainedBy(l0, entries, Coalescible(entries, shape.authoritative), t)
  {
    var update := UpdateByKey(t, hasKey, newRow);
    var entries := [update, Neutral];
    assert entries[0] == update && InvalidationScope(entries[0]) == Some({t});
    Unchanged(l0, update);
    assert entries[..1] == [update] && entries[..0] == [] && [update][..0] == [];
    assert Replay(l0, entries[..1]) == l0;
    assert !InsertOnly(entries, t) by { assert !OneTable(entries[1]); }
    forall k | 0 <= k < 2 ensures t !in Touched(Replay(l0, entries[..k]), entries[k]) {
      if k == 0 { assert Replay(l0, entries[..0]) == l0; }
    }
    ShapeStep(shape, l0, entries, 0);
    ShapeStep(shape, l0, entries, 1);
    assert entries[..2] == entries;
    forall i | 0 <= i < 2 ensures AcceptedAt(shape, l0, entries, Coalescible(entries, shape.authoritative), {}, i) { }
  }
}
