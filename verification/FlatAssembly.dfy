/**
 Two assemblies of the same kernel output in crates/engine/examples/result_materialization_probe.rs:
 the boxed one groups rows by needle and stable-sorts each group; the flat one counts, builds ranges,
 scatters row numbers through per-needle cursors, stable-sorts each range in place and flattens.
 */
module FlatAssembly {
  const U32_LIMIT: nat := 0x1_0000_0000

  type U32 = x: int | 0 <= x < U32_LIMIT

  datatype Cell = Int4(value: int)

  // ---------------------------------------------------------------- the stable sort

  /** Insert before the first strictly larger key. */
  function Insert<T>(x: (nat, T), s: seq<(nat, T)>): (r: seq<(nat, T)>)
    ensures |r| == |s| + 1
  {
    if s == [] then [x]
    else if s[|s| - 1].0 <= x.0 then s + [x]
    else Insert(x, s[..|s| - 1]) + [s[|s| - 1]]
  }

  /** The library's `sort_by_key` on key/payload pairs. */
  function StableSort<T>(s: seq<(nat, T)>): (r: seq<(nat, T)>)
    ensures |r| == |s|
  {
    if s == [] then [] else Insert(s[|s| - 1], StableSort(s[..|s| - 1]))
  }

  ghost predicate SortedByKey<T>(s: seq<(nat, T)>)
  {
    forall i, j :: 0 <= i < j < |s| ==> s[i].0 <= s[j].0
  }

  /** The payloads carrying one key, in order. */
  ghost function WithKey<T>(s: seq<(nat, T)>, key: nat): seq<T>
  {
    if s == [] then []
    else WithKey(s[..|s| - 1], key) + if s[|s| - 1].0 == key then [s[|s| - 1].1] else []
  }

  ghost predicate AllAtMost<T>(s: seq<(nat, T)>, bound: nat)
  {
    forall i :: 0 <= i < |s| ==> s[i].0 <= bound
  }

  lemma {:induction false} InsertStaysBelow<T>(x: (nat, T), s: seq<(nat, T)>, bound: nat)
    requires AllAtMost(s, bound) && x.0 <= bound
    ensures AllAtMost(Insert(x, s), bound)
  {
    if s != [] && s[|s| - 1].0 > x.0 { InsertStaysBelow(x, s[..|s| - 1], bound); }
  }

  lemma {:induction false} InsertSorts<T>(x: (nat, T), s: seq<(nat, T)>)
    requires SortedByKey(s)
    ensures SortedByKey(Insert(x, s))
  {
    if s != [] && s[|s| - 1].0 > x.0 {
      InsertSorts(x, s[..|s| - 1]);
      InsertStaysBelow(x, s[..|s| - 1], s[|s| - 1].0);
    }
  }

  lemma {:induction false} InsertKeepsOrderPerKey<T>(x: (nat, T), s: seq<(nat, T)>, key: nat)
    ensures WithKey(Insert(x, s), key) == WithKey(s + [x], key)
  {
    if s != [] && s[|s| - 1].0 > x.0 {
      var front, last := s[..|s| - 1], s[|s| - 1];
      InsertKeepsOrderPerKey(x, front, key);
      var r := Insert(x, front) + [last];
      assert r[..|r| - 1] == Insert(x, front);
      assert (s + [x])[..|s|] == s && (front + [x])[..|front|] == front;
    }
  }

  /** Sorted by key, and every key keeps its payloads in arrival order. */
  lemma {:induction false} StableSortIsStable<T>(s: seq<(nat, T)>)
    ensures SortedByKey(StableSort(s))
    ensures forall key :: WithKey(StableSort(s), key) == WithKey(s, key)
  {
    if s != [] {
      var front, last := s[..|s| - 1], s[|s| - 1];
      StableSortIsStable(front);
      var sorted := StableSort(front);
      InsertSorts(last, sorted);
      forall key ensures WithKey(StableSort(s), key) == WithKey(s, key) {
        InsertKeepsOrderPerKey(last, sorted, key);
        assert (sorted + [last])[..|sorted|] == sorted;
      }
    }
  }

  lemma {:induction false} LargestIsLast<T>(s: seq<(nat, T)>, key: nat)
    requires SortedByKey(s) && WithKey(s, key) != []
    ensures s[|s| - 1].0 >= key
  {
    KeyMustOccur(s, key);
    var i :| 0 <= i < |s| && s[i].0 == key;
    assert i == |s| - 1 || s[i].0 <= s[|s| - 1].0;
  }

  lemma {:induction false} KeyMustOccur<T>(s: seq<(nat, T)>, key: nat)
    requires WithKey(s, key) != []
    ensures exists i :: 0 <= i < |s| && s[i].0 == key
  {
    if s[|s| - 1].0 != key {
      KeyMustOccur(s[..|s| - 1], key);
      var i :| 0 <= i < |s| - 1 && s[..|s| - 1][i].0 == key;
      assert s[i].0 == key;
    }
  }

  /** There is only one way to sort stably, so nothing depends on how the library does it. */
  lemma {:induction false} StableSortUnique<T>(a: seq<(nat, T)>, b: seq<(nat, T)>)
    requires SortedByKey(a) && SortedByKey(b) && forall key :: WithKey(a, key) == WithKey(b, key)
    ensures a == b
  {
    if a == [] {
      if b != [] { LastKeyOccurs(b); }
    } else {
      var x := a[|a| - 1];
      assert WithKey(b, x.0) == WithKey(a, x.0) != [];
      var y := b[|b| - 1];
      assert WithKey(a, y.0) == WithKey(b, y.0) != [];
      LargestIsLast(a, y.0);
      LargestIsLast(b, x.0);
      assert x.0 == y.0;
      var pa, pb := WithKey(a, x.0), WithKey(b, x.0);
      assert x.1 == pa[|pa| - 1] == pb[|pb| - 1] == y.1;
      var fa, fb := a[..|a| - 1], b[..|b| - 1];
      forall key ensures WithKey(fa, key) == WithKey(fb, key) {
        DropLast(a, b, key);
      }
      StableSortUnique(fa, fb);
      assert a == fa + [x] && b == fb + [y];
    }
  }

  lemma DropLast<T>(a: seq<(nat, T)>, b: seq<(nat, T)>, key: nat)
    requires a != [] && b != [] && a[|a| - 1] == b[|b| - 1] && WithKey(a, key) == WithKey(b, key)
    ensures WithKey(a[..|a| - 1], key) == WithKey(b[..|b| - 1], key)
  {
    hide WithKey;
    var x := a[|a| - 1];
    WithKeySplits(a, key);
    WithKeySplits(b, key);
    if x.0 == key { Cancel(WithKey(a[..|a| - 1], key), WithKey(b[..|b| - 1], key), x.1); }
  }

  lemma WithKeySplits<T>(s: seq<(nat, T)>, key: nat)
    requires s != []
    ensures var front, last := s[..|s| - 1], s[|s| - 1];
      WithKey(s, key) == if last.0 == key then WithKey(front, key) + [last.1] else WithKey(front, key)
  {
  }

  lemma LastKeyOccurs<T>(s: seq<(nat, T)>)
    requires s != []
    ensures WithKey(s, s[|s| - 1].0) != []
  {
  }

  lemma Cancel<T>(p: seq<T>, q: seq<T>, x: T)
    requires p + [x] == q + [x]
    ensures p == q
  {
    assert p == (p + [x])[..|p + [x]| - 1];
    assert q == (q + [x])[..|q + [x]| - 1];
  }

  lemma {:induction false} InsertAdds<T>(x: (nat, T), s: seq<(nat, T)>)
    ensures multiset(Insert(x, s)) == multiset(s) + multiset{x}
  {
    if s != [] && s[|s| - 1].0 > x.0 {
      InsertAdds(x, s[..|s| - 1]);
      assert s == s[..|s| - 1] + [s[|s| - 1]];
    }
  }

  lemma {:induction false} SortPermutes<T>(s: seq<(nat, T)>)
    ensures multiset(StableSort(s)) == multiset(s)
  {
    if s != [] {
      SortPermutes(s[..|s| - 1]);
      InsertAdds(s[|s| - 1], StableSort(s[..|s| - 1]));
      assert s == s[..|s| - 1] + [s[|s| - 1]];
    }
  }

  lemma SortedComeFrom<T>(s: seq<(nat, T)>, k: nat)
    requires k < |s|
    ensures StableSort(s)[k] in s
  {
    SortPermutes(s);
    assert StableSort(s)[k] in multiset(StableSort(s));
  }

  /** Relabel the payloads. */
  function Relabel<S, T>(s: seq<(nat, S)>, f: S -> T): (r: seq<(nat, T)>)
    ensures |r| == |s| && forall k :: 0 <= k < |s| ==> r[k] == (s[k].0, f(s[k].1))
  {
    seq(|s|, k requires 0 <= k < |s| => (s[k].0, f(s[k].1)))
  }

  lemma {:induction false} InsertRelabels<S, T>(x: (nat, S), s: seq<(nat, S)>, f: S -> T)
    ensures Insert((x.0, f(x.1)), Relabel(s, f)) == Relabel(Insert(x, s), f)
  {
    if s != [] && s[|s| - 1].0 > x.0 {
      InsertRelabels(x, s[..|s| - 1], f);
      assert Relabel(s, f)[..|s| - 1] == Relabel(s[..|s| - 1], f);
    }
  }

  /** Sorting looks at keys only: it commutes with relabelling the payloads. */
  lemma {:induction false} SortRelabels<S, T>(s: seq<(nat, S)>, f: S -> T)
    ensures StableSort(Relabel(s, f)) == Relabel(StableSort(s), f)
  {
    if s != [] {
      var front := s[..|s| - 1];
      SortRelabels(front, f);
      assert Relabel(s, f)[..|s| - 1] == Relabel(front, f);
      InsertRelabels(s[|s| - 1], StableSort(front), f);
    }
  }

  // ---------------------------------------------------------------- kernel output and its groups

  /** Rows in schedule order: which needle each matched, its row index, and its `ncols` values. */
  datatype Output = Output(m: nat, ncols: nat, needles: seq<nat>, rowIndices: seq<nat>, rowValues: seq<int>)

  ghost predicate WellFormed(o: Output)
  {
    && |o.rowIndices| == |o.needles| < U32_LIMIT
    && |o.rowValues| == |o.needles| * o.ncols
    && forall i :: 0 <= i < |o.needles| ==> o.needles[i] < o.m
  }

  lemma RowInBounds(i: nat, n: nat, ncols: nat)
    requires i < n
    ensures i * ncols <= (i + 1) * ncols <= n * ncols
    ensures (i + 1) * ncols == i * ncols + ncols
  {
    assert (i + 1) * ncols <= n * ncols;
  }

  function Row(values: seq<int>, ncols: nat, i: nat): (r: seq<int>)
    requires (i + 1) * ncols <= |values|
    ensures |r| == ncols
  {
    assert i * ncols <= (i + 1) * ncols == i * ncols + ncols;
    values[i * ncols..(i + 1) * ncols]
  }

  function Cells(row: seq<int>): seq<Cell>
  {
    seq(|row|, c requires 0 <= c < |row| => Int4(row[c]))
  }

  /** The positions at which needle `j` occurs, in order. */
  function Positions(needles: seq<nat>, j: nat): (ps: seq<nat>)
    ensures |ps| <= |needles| && forall k :: 0 <= k < |ps| ==> ps[k] < |needles| && needles[ps[k]] == j
  {
    if needles == [] then []
    else
      var n := |needles| - 1;
      Positions(needles[..n], j) + if needles[n] == j then [n] else []
  }

  /** Where needle `j`'s range starts: everything of smaller needles comes first. */
  function Begin(needles: seq<nat>, j: nat): nat
  {
    if j == 0 then 0 else Begin(needles, j - 1) + |Positions(needles, j - 1)|
  }

  lemma {:induction false} BeginCountsSmaller(needles: seq<nat>, j: nat)
    requires needles != []
    ensures var n := |needles| - 1; Begin(needles, j) == Begin(needles[..n], j) + if needles[n] < j then 1 else 0
  {
    hide Positions;
    if j > 0 {
      BeginCountsSmaller(needles, j - 1);
      OneMorePosition(needles, j - 1);
    }
  }

  lemma OneMorePosition(needles: seq<nat>, j: nat)
    requires needles != []
    ensures var n := |needles| - 1;
      |Positions(needles, j)| == |Positions(needles[..n], j)| + if needles[n] == j then 1 else 0
  {
  }

  /** The ranges tile the rows. */
  lemma {:induction false} RangesTile(needles: seq<nat>, j: nat)
    ensures Begin(needles, j) <= |needles|
    ensures (forall i :: 0 <= i < |needles| ==> needles[i] < j) ==> Begin(needles, j) == |needles|
  {
    if needles == [] {
      EmptyBegin(j);
    } else {
      BeginCountsSmaller(needles, j);
      RangesTile(needles[..|needles| - 1], j);
    }
  }

  lemma {:induction false} EmptyBegin(j: nat)
    ensures Begin([], j) == 0
  {
    if j > 0 { EmptyBegin(j - 1); }
  }

  lemma {:induction false} RangesAreOrdered(needles: seq<nat>, j: nat, k: nat)
    requires j < k
    ensures Begin(needles, j) + |Positions(needles, j)| <= Begin(needles, k)
  {
    if j < k - 1 { RangesAreOrdered(needles, j, k - 1); }
  }

  lemma {:induction false} PositionsGrow(needles: seq<nat>, i: nat, j: nat)
    requires i <= |needles|
    ensures |Positions(needles[..i], j)| <= |Positions(needles, j)|
    decreases |needles| - i
  {
    if i < |needles| {
      PositionsGrow(needles, i + 1, j);
      assert needles[..i + 1][..i] == needles[..i];
    } else {
      assert needles[..i] == needles;
    }
  }

  /** A needle's rows tagged with their row index, in arrival order. */
  function Keyed(positions: seq<nat>, rowIndices: seq<nat>): (r: seq<(nat, nat)>)
    requires forall k :: 0 <= k < |positions| ==> positions[k] < |rowIndices|
    ensures |r| == |positions|
  {
    seq(|positions|, k requires 0 <= k < |positions| => (rowIndices[positions[k]], positions[k]))
  }

  function Payloads<T>(s: seq<(nat, T)>): (r: seq<T>)
    ensures |r| == |s| && forall k :: 0 <= k < |s| ==> r[k] == s[k].1
  {
    seq(|s|, k requires 0 <= k < |s| => s[k].1)
  }

  function SortedPositions(positions: seq<nat>, rowIndices: seq<nat>): (r: seq<nat>)
    requires forall k :: 0 <= k < |positions| ==> positions[k] < |rowIndices|
    ensures |r| == |positions|
    ensures forall k :: 0 <= k < |r| ==> r[k] in positions
  {
    var pairs := Keyed(positions, rowIndices);
    assert forall k :: 0 <= k < |pairs| ==> StableSort<nat>(pairs)[k] in pairs by {
      forall k | 0 <= k < |pairs| ensures StableSort<nat>(pairs)[k] in pairs { SortedComeFrom<nat>(pairs, k); }
    }
    Payloads(StableSort<nat>(pairs))
  }

  /** The positions of needle `j` in the order its rows are returned. */
  function Sorted(o: Output, j: nat): (r: seq<nat>)
    requires WellFormed(o)
    ensures |r| == |Positions(o.needles, j)|
  {
    SortedPositions(Positions(o.needles, j), o.rowIndices)
  }

  // ---------------------------------------------------------------- the boxed assembly

  /** The boxed group of needle `j` over the first `i` rows. */
  ghost function Group(o: Output, i: nat, j: nat): seq<(nat, seq<Cell>)>
    requires WellFormed(o) && i <= |o.needles|
  {
    if i == 0 then []
    else
      RowInBounds(i - 1, |o.needles|, o.ncols);
      Group(o, i - 1, j)
      + if o.needles[i - 1] == j then [(o.rowIndices[i - 1], Cells(Row(o.rowValues, o.ncols, i - 1)))] else []
  }

  lemma GroupGrows(o: Output, i: nat, j: nat)
    requires WellFormed(o) && i <= |o.needles|
    ensures Group(o, 0, j) == []
    ensures i < |o.needles| ==>
      && 0 <= i * o.ncols && (i + 1) * o.ncols <= |o.rowValues|
      && Group(o, i + 1, j) == Group(o, i, j)
           + if o.needles[i] == j then [(o.rowIndices[i], Cells(Row(o.rowValues, o.ncols, i)))] else []
  {
    if i < |o.needles| { RowInBounds(i, |o.needles|, o.ncols); }
  }

  /** The specification of both assemblies: group by needle, sort stably by row index, drop the index. */
  ghost function Boxed(o: Output, j: nat): seq<seq<Cell>>
    requires WellFormed(o)
  {
    Payloads(StableSort(Group(o, |o.needles|, j)))
  }

  method AssembleBoxed(o: Output) returns (assembled: seq<seq<seq<Cell>>>)
    requires WellFormed(o)
    ensures |assembled| == o.m && forall j :: 0 <= j < o.m ==> assembled[j] == Boxed(o, j)
  {
    hide Group, StableSort, Payloads, Cells;
    var groups: seq<seq<(nat, seq<Cell>)>> := seq(o.m, j => []);
    var i := 0;
    forall j: nat ensures Group(o, 0, j) == [] { GroupGrows(o, 0, j); }
    while i < |o.needles|
      invariant 0 <= i <= |o.needles| && |groups| == o.m
      invariant forall j :: 0 <= j < o.m ==> groups[j] == Group(o, i, j)
    {
      RowInBounds(i, |o.needles|, o.ncols);
      forall j: nat ensures Group(o, i + 1, j) == Group(o, i, j)
        + if o.needles[i] == j then [(o.rowIndices[i], Cells(Row(o.rowValues, o.ncols, i)))] else []
      {
        GroupGrows(o, i, j);
      }
      var row := Cells(Row(o.rowValues, o.ncols, i));
      var ni := o.needles[i];
      groups := groups[ni := groups[ni] + [(o.rowIndices[i], row)]];
      i := i + 1;
    }
    assembled := [];
    var j := 0;
    while j < o.m
      invariant 0 <= j <= o.m && |assembled| == j
      invariant forall k :: 0 <= k < j ==> assembled[k] == Boxed(o, k)
    {
      assembled := assembled + [Payloads(StableSort(groups[j]))];
      j := j + 1;
    }
  }

  // ---------------------------------------------------------------- the flat assembly

  method CountNeedles(o: Output) returns (counts: array<U32>)
    requires WellFormed(o)
    ensures fresh(counts) && counts.Length == o.m
    ensures forall j :: 0 <= j < o.m ==> counts[j] == |Positions(o.needles, j)|
  {
    counts := new U32[o.m](_ => 0);
    var i := 0;
    while i < |o.needles|
      invariant 0 <= i <= |o.needles|
      invariant forall j :: 0 <= j < o.m ==> counts[j] == |Positions(o.needles[..i], j)|
    {
      assert o.needles[..i + 1][..i] == o.needles[..i];
      counts[o.needles[i]] := counts[o.needles[i]] + 1;
      i := i + 1;
    }
    assert o.needles[..i] == o.needles;
  }

  method BuildRanges(o: Output, counts: array<U32>) returns (ranges: seq<(U32, U32)>, total: U32)
    requires WellFormed(o) && counts.Length == o.m
    requires forall j :: 0 <= j < o.m ==> counts[j] == |Positions(o.needles, j)|
    ensures total == |o.needles| && |ranges| == o.m
    ensures forall j :: 0 <= j < o.m ==> ranges[j] == (Begin(o.needles, j), |Positions(o.needles, j)|)
  {
    hide Positions, Begin;
    ranges, total := [], 0;
    NoRangeYet(o.needles);
    var j := 0;
    while j < counts.Length
      invariant 0 <= j <= o.m && |ranges| == j && total == Begin(o.needles, j)
      invariant forall k :: 0 <= k < j ==> ranges[k] == (Begin(o.needles, k), |Positions(o.needles, k)|)
    {
      RangesTile(o.needles, j + 1);
      NextRange(o.needles, j);
      ranges := ranges + [(total, counts[j])];
      total := total + counts[j];
      j := j + 1;
    }
    RangesTile(o.needles, o.m);
  }

  /** The first `|ps|` slots of needle `j`'s range hold `ps`. */
  ghost predicate Holds(slot: seq<U32>, needles: seq<nat>, j: nat, ps: seq<nat>)
  {
    && Begin(needles, j) + |ps| <= |slot|
    && forall r :: 0 <= r < |ps| ==> slot[Begin(needles, j) + r] == ps[r]
  }

  /** Writing inside one needle's range leaves the others alone. */
  lemma OtherRangesKeep(slot: seq<U32>, needles: seq<nat>, ni: nat, r: nat, value: U32, j: nat, ps: seq<nat>)
    requires Holds(slot, needles, j, ps) && |ps| <= |Positions(needles, j)|
    requires j != ni && r < |Positions(needles, ni)| && Begin(needles, ni) + r < |slot|
    ensures Holds(slot[Begin(needles, ni) + r := value], needles, j, ps)
  {
    if j < ni { RangesAreOrdered(needles, j, ni); } else { RangesAreOrdered(needles, ni, j); }
  }

  method Scatter(o: Output, ranges: seq<(U32, U32)>, total: U32) returns (slot: array<U32>)
    requires WellFormed(o) && total == |o.needles| && |ranges| == o.m
    requires forall j :: 0 <= j < o.m ==> ranges[j] == (Begin(o.needles, j), |Positions(o.needles, j)|)
    ensures fresh(slot) && slot.Length == |o.needles|
    ensures forall j :: 0 <= j < o.m ==> Holds(slot[..], o.needles, j, Positions(o.needles, j))
  {
    slot := new U32[total](_ => 0);
    var cursor := new U32[o.m](j requires 0 <= j < o.m => ranges[j].0);
    forall j | 0 <= j < o.m ensures Begin(o.needles, j) <= total { RangesTile(o.needles, j); }
    assert forall j :: 0 <= j < o.m ==> Positions(o.needles[..0], j) == [];
    var i := 0;
    while i < |o.needles|
      invariant 0 <= i <= |o.needles|
      invariant forall j :: 0 <= j < o.m ==> cursor[j] == Begin(o.needles, j) + |Positions(o.needles[..i], j)|
      invariant forall j :: 0 <= j < o.m ==> Holds(slot[..], o.needles, j, Positions(o.needles[..i], j))
    {
      ScatterOne(o, i, slot, cursor, o.needles[..i], o.needles[..i + 1]);
      i := i + 1;
    }
    assert o.needles[..i] == o.needles;
  }

  method ScatterOne(o: Output, i: U32, slot: array<U32>, cursor: array<U32>, ghost done: seq<nat>, ghost next: seq<nat>)
    requires WellFormed(o) && i < |o.needles| && slot.Length == |o.needles| && cursor.Length == o.m && slot != cursor
    requires done == o.needles[..i] && next == o.needles[..i + 1]
    requires forall j :: 0 <= j < o.m ==> cursor[j] == Begin(o.needles, j) + |Positions(done, j)|
    requires forall j :: 0 <= j < o.m ==> Holds(slot[..], o.needles, j, Positions(done, j))
    modifies slot, cursor
    ensures forall j :: 0 <= j < o.m ==> cursor[j] == Begin(o.needles, j) + |Positions(next, j)|
    ensures forall j :: 0 <= j < o.m ==> Holds(slot[..], o.needles, j, Positions(next, j))
  {
    hide Begin, Holds, Positions;
    var ni := o.needles[i];
    ghost var before := slot[..];
    ghost var r := |Positions(done, ni)|;
    assert next[..i] == done && next[i] == ni;
    forall j: nat ensures Positions(next, j) == Positions(done, j) + if j == ni then [i] else [] {
      PositionsNext(next, j);
    }
    PositionsGrow(o.needles, i + 1, ni);
    RangesTile(o.needles, ni + 1);
    NextRange(o.needles, ni);
    slot[cursor[ni]] := i;
    cursor[ni] := cursor[ni] + 1;
    assert slot[..] == before[Begin(o.needles, ni) + r := i];
    forall j | 0 <= j < o.m ensures Holds(slot[..], o.needles, j, Positions(next, j)) {
      ScatterStep(before, o.needles, i, done, j);
    }
  }

  lemma ScatterStep(slot: seq<U32>, needles: seq<nat>, i: U32, done: seq<nat>, j: nat)
    requires i < |needles| && done == needles[..i] && |slot| == |needles|
    requires Begin(needles, needles[i]) + |Positions(done, needles[i])| < |slot|
    requires Holds(slot, needles, j, Positions(done, j))
    ensures Holds(slot[Begin(needles, needles[i]) + |Positions(done, needles[i])| := i], needles, j,
                  Positions(done, j) + if j == needles[i] then [i] else [])
  {
    hide Begin, Holds, Positions;
    var ni := needles[i];
    if j == ni {
      HoldsOneMore(slot, needles, j, Positions(done, j), i);
    } else {
      PositionsGrow(needles, i, j);
      PositionsGrow(needles, i + 1, ni);
      assert needles[..i + 1][..i] == done;
      PositionsNext(needles[..i + 1], ni);
      OtherRangesKeep(slot, needles, ni, |Positions(done, ni)|, i, j, Positions(done, j));
      assert Positions(done, j) + [] == Positions(done, j);
    }
  }

  lemma PositionsNext(needles: seq<nat>, j: nat)
    requires needles != []
    ensures var n := |needles| - 1;
      Positions(needles, j) == if j == needles[n] then Positions(needles[..n], j) + [n] else Positions(needles[..n], j)
  {
  }

  lemma NoRangeYet(needles: seq<nat>)
    ensures Begin(needles, 0) == 0
  {
  }

  lemma NextRange(needles: seq<nat>, j: nat)
    ensures Begin(needles, j + 1) == Begin(needles, j) + |Positions(needles, j)|
  {
  }

  lemma HoldsOneMore(slot: seq<U32>, needles: seq<nat>, j: nat, ps: seq<nat>, value: U32)
    requires Holds(slot, needles, j, ps) && Begin(needles, j) + |ps| < |slot|
    ensures Holds(slot[Begin(needles, j) + |ps| := value], needles, j, ps + [value])
  {
  }

  /** The library's stable `sort_by_key` on one sub-slice. */
  method SortRange(slot: array<U32>, start: nat, count: nat, rowIndices: seq<nat>)
    requires start + count <= slot.Length
    requires forall k :: start <= k < start + count ==> slot[k] < |rowIndices|
    modifies slot
    ensures slot[start..start + count] == SortedPositions(old(slot[start..start + count]), rowIndices)
    ensures forall k :: 0 <= k < slot.Length && !(start <= k < start + count) ==> slot[k] == old(slot[k])
  {
    hide SortedPositions;
    var sorted := SortedPositions(slot[start..start + count], rowIndices);
    assert forall k :: 0 <= k < count ==> sorted[k] in slot[start..start + count];
    forall k | start <= k < start + count { slot[k] := sorted[k - start]; }
    assert slot[start..start + count] == sorted;
  }

  method SortRanges(o: Output, ranges: seq<(U32, U32)>, slot: array<U32>)
    requires WellFormed(o) && slot.Length == |o.needles| && |ranges| == o.m
    requires forall j :: 0 <= j < o.m ==> ranges[j] == (Begin(o.needles, j), |Positions(o.needles, j)|)
    requires forall j :: 0 <= j < o.m ==> Holds(slot[..], o.needles, j, Positions(o.needles, j))
    modifies slot
    ensures forall j :: 0 <= j < o.m ==> Holds(slot[..], o.needles, j, Sorted(o, j))
  {
    hide Begin, SortedPositions, Holds, Positions, Sorted;
    var j := 0;
    while j < o.m
      invariant 0 <= j <= o.m
      invariant forall k :: 0 <= k < j ==> Holds(slot[..], o.needles, k, Sorted(o, k))
      invariant forall k :: j <= k < o.m ==> Holds(slot[..], o.needles, k, Positions(o.needles, k))
    {
      ghost var before := slot[..];
      SortOneRange(o, ranges[j].0, ranges[j].1, slot, j);
      forall k | 0 <= k < j ensures Holds(slot[..], o.needles, k, Sorted(o, k)) {
        assert Holds(before, o.needles, k, Sorted(o, k));
        OtherRangeKept(before, slot[..], o.needles, j, k, Sorted(o, k));
      }
      forall k | j < k < o.m ensures Holds(slot[..], o.needles, k, Positions(o.needles, k)) {
        assert Holds(before, o.needles, k, Positions(o.needles, k));
        OtherRangeKept(before, slot[..], o.needles, j, k, Positions(o.needles, k));
      }
      j := j + 1;
    }
  }

  method SortOneRange(o: Output, start: U32, count: U32, slot: array<U32>, ghost j: nat)
    requires WellFormed(o) && slot.Length == |o.needles|
    requires start == Begin(o.needles, j) && count == |Positions(o.needles, j)|
    requires Holds(slot[..], o.needles, j, Positions(o.needles, j))
    modifies slot
    ensures Holds(slot[..], o.needles, j, Sorted(o, j))
    ensures SameOutside(old(slot[..]), slot[..], start, count)
  {
    hide Begin, SortedPositions, Positions;
    if count > 1 {
      assert slot[start..start + count] == Positions(o.needles, j);
      SortRange(slot, start, count, o.rowIndices);
      assert Sorted(o, j) == slot[start..start + count];
    } else {
      ShortIsSorted(o, j);
    }
  }

  ghost predicate SameOutside(before: seq<U32>, after: seq<U32>, start: nat, count: nat)
  {
    |after| == |before| && forall k :: 0 <= k < |before| && !(start <= k < start + count) ==> after[k] == before[k]
  }

  lemma OtherRangeKept(before: seq<U32>, after: seq<U32>, needles: seq<nat>, j: nat, k: nat, ps: seq<nat>)
    requires j != k && |ps| <= |Positions(needles, k)| && Holds(before, needles, k, ps)
    requires SameOutside(before, after, Begin(needles, j), |Positions(needles, j)|)
    ensures Holds(after, needles, k, ps)
  {
    hide Begin, Positions;
    if k < j { RangesAreOrdered(needles, k, j); } else { RangesAreOrdered(needles, j, k); }
  }

  lemma ShortIsSorted(o: Output, j: nat)
    requires WellFormed(o) && |Positions(o.needles, j)| <= 1
    ensures Sorted(o, j) == Positions(o.needles, j)
  {
    var ps := Positions(o.needles, j);
    if |ps| == 1 { assert StableSort<nat>(Keyed(ps, o.rowIndices)) == Keyed(ps, o.rowIndices); }
  }

  /** Row-major copy of the selected rows. */
  method Flatten(o: Output, slot: array<U32>) returns (values: seq<int>)
    requires WellFormed(o) && forall k :: 0 <= k < slot.Length ==> slot[k] < |o.needles|
    ensures |values| == slot.Length * o.ncols
    ensures forall r :: 0 <= r < slot.Length ==> FlatRowIs(values, o, r, slot[r])
  {
    hide Row, Positions;
    values := [];
    var k := 0;
    while k < slot.Length
      invariant 0 <= k <= slot.Length && |values| == k * o.ncols
      invariant forall r :: 0 <= r < k ==> FlatRowIs(values, o, r, slot[r])
    {
      RowInBounds(slot[k], |o.needles|, o.ncols);
      var row := Row(o.rowValues, o.ncols, slot[k]);
      AppendRow(values, row, o.ncols, k);
      ghost var before := values;
      values := values + row;
      forall r | 0 <= r <= k ensures FlatRowIs(values, o, r, slot[r]) {
        if r < k { assert FlatRowIs(before, o, r, slot[r]); }
      }
      k := k + 1;
    }
  }

  lemma AppendRow(values: seq<int>, row: seq<int>, ncols: nat, k: nat)
    requires |values| == k * ncols && |row| == ncols
    ensures |values + row| == (k + 1) * ncols
    ensures Row(values + row, ncols, k) == row
    ensures forall r :: 0 <= r < k ==>
      (r + 1) * ncols <= |values| && Row(values + row, ncols, r) == Row(values, ncols, r)
  {
    RowInBounds(k, k + 1, ncols);
    forall r | 0 <= r < k
      ensures (r + 1) * ncols <= |values| && Row(values + row, ncols, r) == Row(values, ncols, r)
    {
      RowInBounds(r, k, ncols);
    }
  }

  ghost predicate FlatRowIs(values: seq<int>, o: Output, r: nat, i: nat)
  {
    && (r + 1) * o.ncols <= |values| && (i + 1) * o.ncols <= |o.rowValues|
    && Row(values, o.ncols, r) == Row(o.rowValues, o.ncols, i)
  }

  // ---------------------------------------------------------------- the two agree

  ghost function CellsAt(o: Output, i: nat): seq<Cell>
    requires WellFormed(o)
  {
    if i < |o.needles| then
      RowInBounds(i, |o.needles|, o.ncols);
      Cells(Row(o.rowValues, o.ncols, i))
    else []
  }

  lemma {:induction false} GroupIsRelabelled(o: Output, i: nat, j: nat, f: nat -> seq<Cell>)
    requires WellFormed(o) && i <= |o.needles| && forall k: nat :: f(k) == CellsAt(o, k)
    ensures Group(o, i, j) == Relabel(Keyed(Positions(o.needles[..i], j), o.rowIndices), f)
  {
    if i > 0 {
      GroupIsRelabelled(o, i - 1, j, f);
      assert o.needles[..i][..i - 1] == o.needles[..i - 1];
    }
  }

  /** The boxed rows are the rows at the sorted positions. */
  lemma BoxedRows(o: Output, j: nat)
    requires WellFormed(o)
    ensures |Boxed(o, j)| == |Sorted(o, j)|
    ensures forall r :: 0 <= r < |Boxed(o, j)| ==> Boxed(o, j)[r] == CellsAt(o, Sorted(o, j)[r])
  {
    hide StableSort, Positions, Group, CellsAt;
    var f: nat -> seq<Cell> := (k: nat) => CellsAt(o, k);
    var keyed := Keyed(Positions(o.needles, j), o.rowIndices);
    GroupIsRelabelled(o, |o.needles|, j, f);
    assert o.needles[..|o.needles|] == o.needles;
    SortRelabels<nat, seq<Cell>>(keyed, f);
  }

  lemma {:induction false} RangeOf(needles: seq<nat>, m: nat, k: nat) returns (j: nat)
    requires k < Begin(needles, m)
    ensures j < m && Begin(needles, j) <= k < Begin(needles, j) + |Positions(needles, j)|
  {
    if Begin(needles, m - 1) <= k { j := m - 1; } else { j := RangeOf(needles, m - 1, k); }
  }

  /** After sorting, every slot still names a row. */
  lemma SlotsNameRows(o: Output, slot: seq<U32>)
    requires WellFormed(o) && |slot| == |o.needles|
    requires forall j :: 0 <= j < o.m ==> Holds(slot, o.needles, j, Sorted(o, j))
    ensures forall k :: 0 <= k < |slot| ==> slot[k] < |o.needles|
  {
    hide Begin, Positions, SortedPositions;
    RangesTile(o.needles, o.m);
    forall k: nat | k < |slot| ensures slot[k] < |o.needles| {
      var j := RangeOf(o.needles, o.m, k);
      var r := k - Begin(o.needles, j);
      assert Holds(slot, o.needles, j, Sorted(o, j));
      assert slot[k] == Sorted(o, j)[r];
      assert Sorted(o, j)[r] in Positions(o.needles, j);
    }
  }

  /** The flat rows of one range are exactly the boxed rows of its needle, in the same order. */
  ghost predicate CutEquals(values: seq<int>, ncols: nat, start: nat, count: nat, rows: seq<seq<Cell>>)
  {
    |rows| == count && forall r :: 0 <= r < count ==> RowAt(values, ncols, start + r, rows[r])
  }

  ghost predicate RowAt(values: seq<int>, ncols: nat, position: nat, row: seq<Cell>)
  {
    (position + 1) * ncols <= |values| && Cells(Row(values, ncols, position)) == row
  }

  lemma CutIsBoxed(o: Output, slot: seq<U32>, values: seq<int>, j: nat)
    requires WellFormed(o) && Holds(slot, o.needles, j, Sorted(o, j))
    requires forall r :: 0 <= r < |slot| ==> slot[r] < |o.needles| && FlatRowIs(values, o, r, slot[r])
    ensures CutEquals(values, o.ncols, Begin(o.needles, j), |Positions(o.needles, j)|, Boxed(o, j))
  {
    hide Begin, Positions, Sorted, Boxed, Row;
    BoxedRows(o, j);
    var start := Begin(o.needles, j);
    forall r | 0 <= r < |Sorted(o, j)| ensures RowAt(values, o.ncols, start + r, Boxed(o, j)[r]) {
      assert slot[start + r] == Sorted(o, j)[r] && FlatRowIs(values, o, start + r, slot[start + r]);
    }
  }

  /** Flat assembly: cut by its ranges it is the boxed result, needle for needle and row for row,
      ties included, and the ranges tile the output. */
  method AssembleFlat(o: Output) returns (values: seq<int>, ranges: seq<(U32, U32)>)
    requires WellFormed(o)
    ensures |ranges| == o.m && |values| == |o.needles| * o.ncols
    ensures forall j :: 0 <= j < o.m ==> CutEquals(values, o.ncols, ranges[j].0, ranges[j].1, Boxed(o, j))
    ensures forall j :: 0 <= j < o.m ==> ranges[j].0 == Begin(o.needles, j) && ranges[j].1 == |Positions(o.needles, j)|
  {
    hide Begin, Positions, Sorted, Boxed, Row, Holds;
    var counts := CountNeedles(o);
    var total;
    ranges, total := BuildRanges(o, counts);
    var slot := Scatter(o, ranges, total);
    SortRanges(o, ranges, slot);
    SlotsNameRows(o, slot[..]);
    values := Flatten(o, slot);
    forall j | 0 <= j < o.m ensures CutEquals(values, o.ncols, ranges[j].0, ranges[j].1, Boxed(o, j)) {
      CutIsBoxed(o, slot[..], values, j);
    }
  }
}
