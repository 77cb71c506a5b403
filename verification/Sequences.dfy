/**
 Sequence names, their stable OIDs and the column defaults that name them:
 `apply_rename_sequence` and the drop preflight of crates/engine/src/engine_ddl_pubsub_role.rs and
 crates/engine/src/engine_ddl_acl.rs, and the private sequence publications of
 crates/engine/src/engine_commit.rs.
 */
module Sequences {
  import opened Primitives

  datatype Sequence = Sequence(oid: nat, lastValue: int, isCalled: bool)

  datatype Catalog = Catalog(
    sequences: map<string, Sequence>,
    otherRelations: set<string>,              // every other name in the relation namespace
    defaults: map<(string, string), string>,  // nextval defaults by table and column
    comments: map<string, string>)

  /** The final name and scalar state a transaction publishes for one of its private sequences. */
  datatype Publication = Publication(oid: nat, name: string, lastValue: int, isCalled: bool)

  ghost predicate OidsDistinct(sequences: map<string, Sequence>)
  {
    forall m, n :: m in sequences && n in sequences && m != n ==> sequences[m].oid != sequences[n].oid
  }

  ghost predicate DefaultsResolve(c: Catalog)
  {
    forall k :: k in c.defaults ==> c.defaults[k] in c.sequences
  }

  ghost predicate Inv(c: Catalog)
  {
    && OidsDistinct(c.sequences) && DefaultsResolve(c)
    && c.sequences.Keys !! c.otherRelations && c.comments.Keys <= c.sequences.Keys
  }

  // ---------------------------------------------------------------- renaming and dropping

  predicate CanRename(c: Catalog, from: string, to: string)
  {
    && from !in c.otherRelations && from in c.sequences
    && to !in c.otherRelations && to !in c.sequences
  }

  function Rebound<T>(m: map<string, T>, from: string, to: string): map<string, T>
  {
    if from in m then (m - {from})[to := m[from]] else m
  }

  /** Replaying a historical record leaves column defaults as they were written. */
  function Renamed(c: Catalog, from: string, to: string, historical: bool): Catalog
    requires CanRename(c, from, to)
  {
    Catalog(Rebound(c.sequences, from, to), c.otherRelations,
            if historical then c.defaults
            else map k | k in c.defaults :: if c.defaults[k] == from then to else c.defaults[k],
            Rebound(c.comments, from, to))
  }

  predicate IsDefault(c: Catalog, name: string)
  {
    exists k :: k in c.defaults && c.defaults[k] == name
  }

  predicate CanDrop(c: Catalog, names: seq<string>, ifExists: bool, historical: bool)
  {
    && (forall i, j :: 0 <= i < j < |names| ==> names[i] != names[j])
    && forall i :: 0 <= i < |names| ==>
         && names[i] !in c.otherRelations
         && (names[i] in c.sequences || ifExists)
         && (historical || !IsDefault(c, names[i]))
  }

  function Dropped(c: Catalog, names: seq<string>): Catalog
  {
    var gone := set n | n in names && n in c.sequences;
    c.(sequences := c.sequences - gone, comments := c.comments - gone)
  }

  // ---------------------------------------------------------------- private publications

  ghost predicate Names(c: Catalog, oid: nat, name: string)
  {
    name in c.sequences && c.sequences[name].oid == oid
  }

  ghost predicate HasOid(c: Catalog, oid: nat)
  {
    exists n :: Names(c, oid, n)
  }

  /** The name a stable OID is bound under. */
  ghost function NameOf(c: Catalog, oid: nat): (n: string)
    requires HasOid(c, oid)
    ensures Names(c, oid, n)
  {
    var n :| Names(c, oid, n);
    n
  }

  ghost predicate CanPublish(c: Catalog, p: Publication)
  {
    p.oid != 0 && HasOid(c, p.oid) && (NameOf(c, p.oid) == p.name || CanRename(c, NameOf(c, p.oid), p.name))
  }

  ghost function Bound(c: Catalog, p: Publication): (d: Catalog)
    requires CanPublish(c, p)
    ensures p.name in d.sequences
  {
    var current := NameOf(c, p.oid);
    if current == p.name then c else Renamed(c, current, p.name, false)
  }

  ghost function Published(c: Catalog, p: Publication): Catalog
    requires CanPublish(c, p)
  {
    var d := Bound(c, p);
    d.(sequences := d.sequences[p.name := Sequence(p.oid, p.lastValue, p.isCalled)])
  }

  /** Publish a list in strictly increasing OID order, or refuse. */
  ghost function PublishAll(c: Catalog, list: seq<Publication>, prior: nat): Option<Catalog>
    decreases |list|
  {
    if list == [] then Some(c)
    else if list[0].oid <= prior || !CanPublish(c, list[0]) then None
    else PublishAll(Published(c, list[0]), list[1..], list[0].oid)
  }

  ghost predicate Listed(list: seq<Publication>, oid: nat)
  {
    exists i :: 0 <= i < |list| && list[i].oid == oid
  }

  // ---------------------------------------------------------------- renames keep identities

  /** The OID a default's sequence has. */
  ghost function DefaultOid(c: Catalog, k: (string, string)): nat
    requires k in c.defaults && c.defaults[k] in c.sequences
  {
    c.sequences[c.defaults[k]].oid
  }

  /** Every default still resolves, to the same sequence by identity. */
  ghost predicate DefaultsFollow(c: Catalog, d: Catalog)
  {
    && d.defaults.Keys == c.defaults.Keys
    && forall k :: k in c.defaults && c.defaults[k] in c.sequences ==>
         d.defaults[k] in d.sequences && DefaultOid(d, k) == DefaultOid(c, k)
  }

  lemma LiveRenameKeepsInv(c: Catalog, from: string, to: string)
    requires Inv(c) && CanRename(c, from, to)
    ensures Inv(Renamed(c, from, to, false)) && DefaultsFollow(c, Renamed(c, from, to, false))
  {
  }

  /** A rename binds the sequence, with its state and comment, to the new name and leaves every other
      sequence and comment alone. */
  lemma RenameMoves(c: Catalog, from: string, to: string, historical: bool)
    requires Inv(c) && CanRename(c, from, to)
    ensures var d := Renamed(c, from, to, historical);
      && from !in d.sequences && to in d.sequences && d.sequences[to] == c.sequences[from]
      && (forall n :: n != from && n != to ==>
            && (n in d.sequences <==> n in c.sequences) && (n in c.sequences ==> d.sequences[n] == c.sequences[n])
            && CommentOn(d, n) == CommentOn(c, n))
      && CommentOn(d, to) == CommentOn(c, from) && d.otherRelations == c.otherRelations
      && (historical ==> d.defaults == c.defaults)
  {
  }

  /** Renaming there and back restores the catalog. */
  lemma RenameBackRestores(c: Catalog, from: string, to: string, historical: bool)
    requires Inv(c) && CanRename(c, from, to)
    ensures var d := Renamed(c, from, to, historical);
      CanRename(d, to, from) && Renamed(d, to, from, historical) == c
  {
    hide Rebound, OidsDistinct;
    ReboundBack(c.sequences, from, to);
    ReboundBack(c.comments, from, to);
    var d := Renamed(c, from, to, historical);
    assert Renamed(d, to, from, historical).defaults == c.defaults;
  }

  lemma ReboundBack<T>(m: map<string, T>, from: string, to: string)
    requires to !in m && from != to
    ensures var there := Rebound(m, from, to);
      && Rebound(there, to, from) == m && from !in there && (from in m ==> to in there)
  {
  }

  function CommentOn(c: Catalog, name: string): Option<string>
  {
    if name in c.comments then Some(c.comments[name]) else None
  }

  /** A drop takes out the listed sequences with their comments and nothing else. */
  lemma DropRemovesListed(c: Catalog, names: seq<string>, n: string)
    requires Inv(c)
    ensures var d := Dropped(c, names);
      && (n in names ==> n !in d.sequences && CommentOn(d, n) == None)
      && (n !in names ==>
            && (n in d.sequences <==> n in c.sequences) && (n in c.sequences ==> d.sequences[n] == c.sequences[n])
            && CommentOn(d, n) == CommentOn(c, n))
      && d.defaults == c.defaults && d.otherRelations == c.otherRelations
  {
  }

  /** Every refusal of a rename or a drop has one of these reasons, and each of them is one. */
  lemma RefusedIff(c: Catalog, from: string, to: string, names: seq<string>, ifExists: bool, historical: bool)
    ensures !CanRename(c, from, to) <==>
      from in c.otherRelations || from !in c.sequences || to in c.otherRelations || to in c.sequences
    ensures !CanDrop(c, names, ifExists, historical) <==>
      || (exists i, j :: 0 <= i < j < |names| && names[i] == names[j])
      || (exists i :: 0 <= i < |names| && names[i] in c.otherRelations)
      || (!ifExists && exists i :: 0 <= i < |names| && names[i] !in c.sequences)
      || (!historical && exists k :: k in c.defaults && c.defaults[k] in names)
  {
    if k :| k in c.defaults && c.defaults[k] in names {
      var i :| 0 <= i < |names| && names[i] == c.defaults[k];
      assert IsDefault(c, names[i]);
    }
    if i :| 0 <= i < |names| && IsDefault(c, names[i]) {
      var k :| k in c.defaults && c.defaults[k] == names[i];
    }
  }

  /** A replayed historical rename keeps every default resolvable exactly when none named the sequence. */
  lemma HistoricalRenameKeepsDefaultsIff(c: Catalog, from: string, to: string)
    requires Inv(c) && CanRename(c, from, to)
    ensures DefaultsResolve(Renamed(c, from, to, true)) <==> !IsDefault(c, from)
  {
    var d := Renamed(c, from, to, true);
    if IsDefault(c, from) {
      var k :| k in c.defaults && c.defaults[k] == from;
      assert k in d.defaults && d.defaults[k] !in d.sequences;
    }
  }

  lemma LiveDropKeepsInv(c: Catalog, names: seq<string>, ifExists: bool)
    requires Inv(c) && CanDrop(c, names, ifExists, false)
    ensures Inv(Dropped(c, names)) && DefaultsFollow(c, Dropped(c, names))
  {
    forall k | k in c.defaults ensures c.defaults[k] !in names {
      assert IsDefault(c, c.defaults[k]);
    }
  }

  lemma HistoricalDropKeepsDefaultsIff(c: Catalog, names: seq<string>, ifExists: bool)
    requires Inv(c) && CanDrop(c, names, ifExists, true)
    ensures DefaultsResolve(Dropped(c, names)) <==> forall i :: 0 <= i < |names| ==> !IsDefault(c, names[i])
  {
    var d := Dropped(c, names);
    if i :| 0 <= i < |names| && IsDefault(c, names[i]) {
      var k :| k in c.defaults && c.defaults[k] == names[i];
      assert k in d.defaults && d.defaults[k] !in d.sequences;
    } else {
      forall k | k in d.defaults ensures d.defaults[k] in d.sequences {
        assert IsDefault(c, c.defaults[k]);
      }
    }
  }

  /** One sequence behind one default: replaying a historical rename or drop of it leaves the default
      naming nothing, where the live rename carries it along and the live drop is refused. */
  lemma HistoricalReplayStrandsADefault()
    ensures var c := Catalog(map["s" := Sequence(1, 0, false)], {}, map[("t", "id") := "s"], map[]);
      && Inv(c) && CanRename(c, "s", "u")
      && !DefaultsResolve(Renamed(c, "s", "u", true)) && DefaultsResolve(Renamed(c, "s", "u", false))
      && CanDrop(c, ["s"], false, true) && !DefaultsResolve(Dropped(c, ["s"])) && !CanDrop(c, ["s"], false, false)
  {
    var c := Catalog(map["s" := Sequence(1, 0, false)], {}, map[("t", "id") := "s"], map[]);
    assert ("t", "id") in c.defaults && IsDefault(c, "s");
    assert ["s"][0] == "s";
    HistoricalRenameKeepsDefaultsIff(c, "s", "u");
    HistoricalDropKeepsDefaultsIff(c, ["s"], false);
    LiveRenameKeepsInv(c, "s", "u");
  }

  // ---------------------------------------------------------------- publications bind

  ghost predicate BoundTo(c: Catalog, p: Publication)
  {
    p.name in c.sequences && c.sequences[p.name] == Sequence(p.oid, p.lastValue, p.isCalled)
  }

  ghost predicate Kept(c: Catalog, d: Catalog, n: string)
    requires n in c.sequences
  {
    n in d.sequences && d.sequences[n] == c.sequences[n]
  }

  /** Every OID but one keeps its name and state, and no OID appears or disappears. */
  ghost predicate OnlyRebinds(c: Catalog, d: Catalog, oid: nat)
  {
    && (forall n :: n in c.sequences && c.sequences[n].oid != oid ==> Kept(c, d, n))
    && (forall o :: HasOid(c, o) <==> HasOid(d, o))
    && d.otherRelations == c.otherRelations
  }

  lemma RenameOnlyRebinds(c: Catalog, from: string, to: string)
    requires Inv(c) && CanRename(c, from, to)
    ensures OnlyRebinds(c, Renamed(c, from, to, false), c.sequences[from].oid)
  {
    var d, oid := Renamed(c, from, to, false), c.sequences[from].oid;
    assert Names(d, oid, to) && Names(c, oid, from);
    forall o ensures HasOid(c, o) <==> HasOid(d, o) {
      if HasOid(c, o) && o != oid { assert Names(d, o, NameOf(c, o)); }
      if HasOid(d, o) && o != oid { assert Names(c, o, NameOf(d, o)); }
    }
  }

  lemma InstallOnlyRebinds(c: Catalog, name: string, lastValue: int, isCalled: bool)
    requires Inv(c) && name in c.sequences
    ensures var oid := c.sequences[name].oid;
      var d := c.(sequences := c.sequences[name := Sequence(oid, lastValue, isCalled)]);
      Inv(d) && DefaultsFollow(c, d) && OnlyRebinds(c, d, oid)
  {
    var oid := c.sequences[name].oid;
    var d := c.(sequences := c.sequences[name := Sequence(oid, lastValue, isCalled)]);
    forall o ensures HasOid(c, o) <==> HasOid(d, o) {
      if HasOid(c, o) { assert Names(d, o, NameOf(c, o)); }
      if HasOid(d, o) { assert Names(c, o, NameOf(d, o)); }
    }
  }

  lemma FollowsOn(c: Catalog, d: Catalog, e: Catalog)
    requires DefaultsFollow(c, d) && DefaultsFollow(d, e)
    ensures DefaultsFollow(c, e)
  {
  }

  lemma NothingMoves(c: Catalog)
    ensures DefaultsFollow(c, c)
  {
  }

  /** Publishing one sequence rebinds that OID, keeps every other sequence and every default. */
  lemma PublishedBinds(c: Catalog, p: Publication)
    requires Inv(c) && CanPublish(c, p)
    ensures var d := Published(c, p); Inv(d) && DefaultsFollow(c, d) && BoundTo(d, p) && OnlyRebinds(c, d, p.oid)
  {
    hide Inv, DefaultsFollow, HasOid;
    var current := NameOf(c, p.oid);
    var m := Bound(c, p);
    if current == p.name {
      NothingMoves(c);
    } else {
      LiveRenameKeepsInv(c, current, p.name);
      RenameOnlyRebinds(c, current, p.name);
    }
    InstallOnlyRebinds(m, p.name, p.lastValue, p.isCalled);
    FollowsOn(c, m, Published(c, p));
  }

  lemma ListedSplits(list: seq<Publication>, oid: nat)
    requires list != []
    ensures Listed(list, oid) <==> list[0].oid == oid || Listed(list[1..], oid)
  {
    if Listed(list[1..], oid) {
      var i :| 0 <= i < |list[1..]| && list[1..][i].oid == oid;
      assert list[i + 1].oid == oid;
    }
    if Listed(list, oid) && list[0].oid != oid {
      var i :| 0 <= i < |list| && list[i].oid == oid;
      assert list[1..][i - 1].oid == oid;
    }
  }

  /** A list that is accepted ends with every listed OID bound under its final name and state, every
      other sequence untouched, and every default naming the sequence it named before. */
  lemma {:induction false} PublicationsBindFinalNames(c: Catalog, list: seq<Publication>, prior: nat)
    requires Inv(c) && PublishAll(c, list, prior).Some?
    ensures var d := PublishAll(c, list, prior).value;
      && Inv(d) && DefaultsFollow(c, d) && d.otherRelations == c.otherRelations
      && (forall i :: 0 <= i < |list| ==> prior < list[i].oid && BoundTo(d, list[i]))
      && (forall n :: n in c.sequences && !Listed(list, c.sequences[n].oid) ==> Kept(c, d, n))
      && (forall oid :: HasOid(c, oid) <==> HasOid(d, oid))
    decreases |list|
  {
    hide CanPublish, Published, HasOid, Inv, Listed, DefaultsFollow;
    if list == [] {
      NothingMoves(c);
    } else {
      var head, rest := list[0], list[1..];
      var m := Published(c, head);
      PublishedBinds(c, head);
      PublicationsBindFinalNames(m, rest, head.oid);
      var d := PublishAll(c, list, prior).value;
      FollowsOn(c, m, d);
      assert BoundTo(d, head) by {
        NotListedLater(rest, head.oid);
        assert Kept(m, d, head.name);
      }
      forall i | 0 <= i < |list| ensures prior < list[i].oid && BoundTo(d, list[i]) {
        if i > 0 { assert list[i] == rest[i - 1]; }
      }
      forall n | n in c.sequences && !Listed(list, c.sequences[n].oid) ensures Kept(c, d, n) {
        ListedSplits(list, c.sequences[n].oid);
        assert Kept(m, d, n);
      }
    }
  }

  lemma NotListedLater(rest: seq<Publication>, oid: nat)
    requires forall i :: 0 <= i < |rest| ==> oid < rest[i].oid
    ensures !Listed(rest, oid)
  {
  }

  // ---------------------------------------------------------------- when a list is accepted

  /** The final name is free for this publication: no other relation has it, no earlier publication
      took it, and whoever holds it is this sequence itself or one that has already moved on. */
  ghost predicate TargetFree(c: Catalog, list: seq<Publication>, i: nat)
    requires i < |list|
  {
    && list[i].name !in c.otherRelations
    && (forall j :: 0 <= j < i ==> list[j].name != list[i].name)
    && (list[i].name in c.sequences ==>
          c.sequences[list[i].name].oid == list[i].oid || Listed(list[..i], c.sequences[list[i].name].oid))
  }

  ghost predicate Acceptable(c: Catalog, list: seq<Publication>, prior: nat)
  {
    && (forall i :: 0 <= i < |list| ==> prior < list[i].oid && HasOid(c, list[i].oid) && TargetFree(c, list, i))
    && (forall i, j :: 0 <= i < j < |list| ==> list[i].oid < list[j].oid)
  }

  lemma NameOfIs(c: Catalog, oid: nat, n: string)
    requires Inv(c) && Names(c, oid, n)
    ensures HasOid(c, oid) && NameOf(c, oid) == n
  {
  }

  lemma CanPublishIff(c: Catalog, p: Publication)
    requires Inv(c) && p.oid != 0 && HasOid(c, p.oid)
    ensures CanPublish(c, p) <==>
      p.name !in c.otherRelations && (p.name in c.sequences ==> c.sequences[p.name].oid == p.oid)
  {
    if p.name in c.sequences && c.sequences[p.name].oid == p.oid { NameOfIs(c, p.oid, p.name); }
  }

  /** After the head is published, a later target is free exactly when it was free for the whole list. */
  lemma TargetFreeAfterHead(c: Catalog, list: seq<Publication>, i: nat)
    requires Inv(c) && list != [] && CanPublish(c, list[0]) && 0 < i < |list|
    requires forall j :: 0 < j < |list| ==> list[j].oid != list[0].oid
    ensures TargetFree(c, list, i) <==> TargetFree(Published(c, list[0]), list[1..], i - 1)
  {
    var head, rest := list[0], list[1..];
    var m := Published(c, head);
    var current := NameOf(c, head.oid);
    var name := list[i].name;
    assert list[..i][1..] == rest[..i - 1] && list[..i][0] == head;
    if name in c.sequences { ListedSplits(list[..i], c.sequences[name].oid); }
    assert forall j :: 0 <= j < i - 1 ==> rest[j] == list[j + 1];
    assert (forall j :: 0 <= j < i ==> list[j].name != name)
      <==> head.name != name && forall j :: 0 <= j < i - 1 ==> rest[j].name != name by {
      if (forall j :: 0 <= j < i ==> list[j].name != name) { assert list[0].name != name; }
      if head.name != name && forall j :: 0 <= j < i - 1 ==> rest[j].name != name {
        forall j | 0 <= j < i ensures list[j].name != name { if j > 0 { assert rest[j - 1].name != name; } }
      }
    }
    if name != head.name {
      assert name in m.sequences <==> name in c.sequences && name != current;
    } else {
      assert m.sequences[name].oid == head.oid;
      assert !Listed(rest[..i - 1], head.oid);
    }
  }

  lemma NothingBefore(list: seq<Publication>)
    requires list != []
    ensures list[..0] == [] && forall oid :: !Listed(list[..0], oid)
  {
  }

  /** A list is accepted exactly when its OIDs are live and strictly increasing above the prior one and
      every final name is free at its turn, which can be read off the catalog before the first step. */
  lemma {:induction false} PublicationsAcceptedIff(c: Catalog, list: seq<Publication>, prior: nat)
    requires Inv(c)
    ensures PublishAll(c, list, prior).Some? <==> Acceptable(c, list, prior)
    decreases |list|
  {
    hide CanPublish, Published, HasOid, Inv, Listed, TargetFree, DefaultsFollow;
    if list != [] {
      var head, rest := list[0], list[1..];
      assert forall i :: 0 < i < |list| ==> list[i] == rest[i - 1];
      if prior < head.oid && CanPublish(c, head) {
        var m := Published(c, head);
        PublishedBinds(c, head);
        PublicationsAcceptedIff(m, rest, head.oid);
        HeadIsFree(c, list);
        if Acceptable(c, list, prior) { RestAcceptable(c, list, prior); }
        if Acceptable(m, rest, head.oid) { WholeAcceptable(c, list, prior); }
      } else if prior < head.oid {
        HeadIsFree(c, list);
      }
    }
  }

  lemma HeadIsFree(c: Catalog, list: seq<Publication>)
    requires Inv(c) && list != [] && list[0].oid != 0
    ensures CanPublish(c, list[0]) <==> HasOid(c, list[0].oid) && TargetFree(c, list, 0)
  {
    NothingBefore(list);
    if HasOid(c, list[0].oid) { CanPublishIff(c, list[0]); }
  }

  lemma RestAcceptable(c: Catalog, list: seq<Publication>, prior: nat)
    requires Inv(c) && list != [] && CanPublish(c, list[0]) && Acceptable(c, list, prior)
    ensures Acceptable(Published(c, list[0]), list[1..], list[0].oid)
  {
    hide CanPublish, Published, HasOid, Inv, Listed, TargetFree, DefaultsFollow;
    PublishedBinds(c, list[0]);
    forall i | 0 <= i < |list[1..]| ensures TargetFree(Published(c, list[0]), list[1..], i) {
      TargetFreeAfterHead(c, list, i + 1);
    }
  }

  lemma WholeAcceptable(c: Catalog, list: seq<Publication>, prior: nat)
    requires Inv(c) && list != [] && prior < list[0].oid && CanPublish(c, list[0])
    requires HasOid(c, list[0].oid) && TargetFree(c, list, 0)
    requires Acceptable(Published(c, list[0]), list[1..], list[0].oid)
    ensures Acceptable(c, list, prior)
  {
    hide CanPublish, Published, HasOid, Inv, Listed, TargetFree, DefaultsFollow;
    PublishedBinds(c, list[0]);
    var rest := list[1..];
    assert forall i :: 0 < i < |list| ==> list[i] == rest[i - 1];
    forall i | 0 <= i < |list| ensures prior < list[i].oid && HasOid(c, list[i].oid) && TargetFree(c, list, i) {
      if i > 0 { TargetFreeAfterHead(c, list, i); }
    }
  }

  /** So names cannot be exchanged this way: the first of two publications that swap names is refused. */
  lemma SwapIsRefused(c: Catalog, x: Publication, y: Publication, prior: nat)
    requires Inv(c) && HasOid(c, x.oid) && HasOid(c, y.oid) && x.oid != y.oid
    requires x.name == NameOf(c, y.oid) && y.name == NameOf(c, x.oid)
    ensures PublishAll(c, [x, y], prior).None?
  {
    var list := [x, y];
    PublicationsAcceptedIff(c, list, prior);
    NothingBefore(list);
    assert !TargetFree(c, list, 0);
  }

  // ---------------------------------------------------------------- live runs

  datatype Statement =
    | Rename(from: string, to: string)
    | Drop(names: seq<string>, ifExists: bool)
    | Publish(list: seq<Publication>)
    | SetValue(name: string, lastValue: int, isCalled: bool)

  ghost function Step(c: Catalog, s: Statement): Catalog
  {
    match s
    case Rename(from, to) => if CanRename(c, from, to) then Renamed(c, from, to, false) else c
    case Drop(names, ifExists) => if CanDrop(c, names, ifExists, false) then Dropped(c, names) else c
    case Publish(list) => (match PublishAll(c, list, 0) case Some(d) => d case None => c)
    case SetValue(name, lastValue, isCalled) =>
      if name in c.sequences then
        c.(sequences := c.sequences[name := Sequence(c.sequences[name].oid, lastValue, isCalled)])
      else c
  }

  ghost function Run(c: Catalog, statements: seq<Statement>): Catalog
    decreases |statements|
  {
    if statements == [] then c else Run(Step(c, statements[0]), statements[1..])
  }

  /** Setting a value installs exactly the given state under the same OID. */
  lemma SetValueMeaning(c: Catalog, name: string, lastValue: int, isCalled: bool)
    ensures var d := Step(c, SetValue(name, lastValue, isCalled));
      if name !in c.sequences then d == c
      else
        && d == c.(sequences := d.sequences) && d.sequences.Keys == c.sequences.Keys
        && d.sequences[name].oid == c.sequences[name].oid
        && d.sequences[name].lastValue == lastValue && d.sequences[name].isCalled == isCalled
        && forall n :: n in c.sequences && n != name ==> d.sequences[n] == c.sequences[n]
  {
  }

  lemma StepKeepsDefaults(c: Catalog, s: Statement)
    requires Inv(c)
    ensures Inv(Step(c, s)) && DefaultsFollow(c, Step(c, s))
  {
    match s
    case Rename(from, to) => if CanRename(c, from, to) { LiveRenameKeepsInv(c, from, to); }
    case Drop(names, ifExists) => if CanDrop(c, names, ifExists, false) { LiveDropKeepsInv(c, names, ifExists); }
    case Publish(list) => if PublishAll(c, list, 0).Some? { PublicationsBindFinalNames(c, list, 0); }
    case SetValue(_, _, _) =>
  }

  /** Over any run of live statements every nextval default names an existing sequence, and always the
      one it named at the start. */
  lemma {:induction false} LiveRunsKeepDefaults(c: Catalog, statements: seq<Statement>)
    requires Inv(c)
    ensures Inv(Run(c, statements)) && DefaultsFollow(c, Run(c, statements))
    decreases |statements|
  {
    hide Inv, DefaultsFollow, Step;
    if statements == [] {
      NothingMoves(c);
    } else {
      StepKeepsDefaults(c, statements[0]);
      LiveRunsKeepDefaults(Step(c, statements[0]), statements[1..]);
      FollowsOn(c, Step(c, statements[0]), Run(c, statements));
    }
  }

  // ---------------------------------------------------------------- the statements as executed

  class SequenceCatalog {
    var sequences: map<string, Sequence>
    var otherRelations: set<string>
    var defaults: map<(string, string), string>
    var comments: map<string, string>

    function View(): Catalog
      reads this
    {
      Catalog(sequences, otherRelations, defaults, comments)
    }

    method ApplyRename(from: string, to: string, historical: bool) returns (ok: bool)
      modifies this
      ensures ok <==> CanRename(old(View()), from, to)
      ensures View() == if ok then Renamed(old(View()), from, to, historical) else old(View())
    {
      if from in otherRelations || from !in sequences { return false; }
      if to in otherRelations || to in sequences { return false; }
      var sequence := sequences[from];
      sequences := (sequences - {from})[to := sequence];
      if !historical {
        defaults := map k | k in defaults :: if defaults[k] == from then to else defaults[k];
      }
      if from in comments { comments := (comments - {from})[to := comments[from]]; }
      ok := true;
    }

    method PreflightDrop(names: seq<string>, ifExists: bool, historical: bool) returns (ok: bool)
      ensures ok <==> CanDrop(View(), names, ifExists, historical)
    {
      for i := 0 to |names|
        invariant CanDrop(View(), names[..i], ifExists, historical)
      {
        assert names[..i + 1] == names[..i] + [names[i]];
        if names[i] in names[..i] {
          var j :| 0 <= j < i && names[..i][j] == names[i];
          assert names[j] == names[i];
          return false;
        }
        if names[i] in otherRelations || (names[i] !in sequences && !ifExists) { return false; }
        if !historical && IsDefault(View(), names[i]) { return false; }
      }
      assert names[..|names|] == names;
      ok := true;
    }

    /** All names are checked before the first sequence goes. */
    method ApplyDrop(names: seq<string>, ifExists: bool, historical: bool) returns (ok: bool)
      modifies this`sequences, this`comments
      ensures ok <==> CanDrop(old(View()), names, ifExists, historical)
      ensures View() == if ok then Dropped(old(View()), names) else old(View())
    {
      hide CanDrop;
      ok := PreflightDrop(names, ifExists, historical);
      if !ok { return; }
      ghost var before := View();
      for i := 0 to |names|
        invariant sequences == before.sequences - (set n | n in names[..i] && n in before.sequences)
        invariant comments == before.comments - (set n | n in names[..i] && n in before.sequences)
      {
        assert names[..i + 1] == names[..i] + [names[i]];
        if names[i] in sequences {
          sequences := sequences - {names[i]};
          comments := comments - {names[i]};
        }
      }
      assert names[..|names|] == names;
    }

    /** Bind one stable OID to its final name and install its state. */
    method PublishOne(p: Publication) returns (ok: bool)
      requires Inv(View())
      modifies this
      ensures ok <==> CanPublish(old(View()), p)
      ensures ok ==> View() == Published(old(View()), p)
    {
      if p.oid == 0 { return false; }
      if !exists n :: n in sequences && sequences[n].oid == p.oid {
        assert !HasOid(View(), p.oid);
        return false;
      }
      var current :| current in sequences && sequences[current].oid == p.oid;
      NameOfIs(View(), p.oid, current);
      if current != p.name {
        ok := ApplyRename(current, p.name, false);
        if !ok { return; }
      }
      sequences := sequences[p.name := Sequence(p.oid, p.lastValue, p.isCalled)];
      ok := true;
    }

    /** Publish a transaction's private sequences; any refusal refuses the rest. */
    method PublishPrivateSequences(list: seq<Publication>) returns (ok: bool)
      requires Inv(View())
      modifies this
      ensures ok <==> PublishAll(old(View()), list, 0).Some?
      ensures ok ==> View() == PublishAll(old(View()), list, 0).value
    {
      hide CanPublish, Published;
      var prior := 0;
      var i := 0;
      assert list[0..] == list;
      while i < |list|
        invariant 0 <= i <= |list| && Inv(View())
        invariant PublishAll(old(View()), list, 0) == PublishAll(View(), list[i..], prior)
      {
        assert list[i..][1..] == list[i + 1..];
        if list[i].oid == 0 || list[i].oid <= prior { return false; }
        ghost var before := View();
        ok := PublishOne(list[i]);
        if !ok { return; }
        PublishedBinds(before, list[i]);
        prior := list[i].oid;
        i := i + 1;
      }
      ok := true;
    }
  }
}
