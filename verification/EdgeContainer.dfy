/**
 The edges of up to eight contracted graphs in one list, each with one bit for every graph
 that it belongs to.
 */
module EdgeContainer {
  import opened Walks
  import Permutation
  import Sorting

  type EdgeDistance = real

  datatype QueryEdge = QueryEdge(source: NodeID, target: NodeID, turnId: nat, shortcut: bool, weight: int,
                                 duration: int, forward: bool, backward: bool, distance: EdgeDistance)

  // The comparison of edges: lexicographic, over everything but the distance

  type Key = seq<int>

  function Digit(b: bool): int {
    if b then 1 else 0
  }

  function KeyOf(e: QueryEdge): (key: Key)
    ensures |key| == 8
  {
    [e.source, e.target, Digit(e.shortcut), e.turnId, e.weight, e.duration, Digit(e.forward), Digit(e.backward)]
  }

  predicate LexLess(a: Key, b: Key)
    requires |a| == |b|
  {
    a != [] && (a[0] < b[0] || (a[0] == b[0] && LexLess(a[1..], b[1..])))
  }

  lemma {:induction false} LexIsTotal(a: Key, b: Key)
    requires |a| == |b|
    ensures LexLess(a, b) || LexLess(b, a) || a == b
    ensures !(LexLess(a, b) && LexLess(b, a)) && !LexLess(a, a)
  {
    if a != [] {
      LexIsTotal(a[1..], b[1..]);
      LexIsTotal(a[1..], a[1..]);
      assert a == [a[0]] + a[1..] && b == [b[0]] + b[1..];
    }
  }

  lemma {:induction false} LexIsTransitive(a: Key, b: Key, c: Key)
    requires |a| == |b| == |c|
    ensures LexLess(a, b) && LexLess(b, c) ==> LexLess(a, c)
  {
    if a != [] {
      LexIsTransitive(a[1..], b[1..], c[1..]);
    }
  }

  predicate MergeCompare(lhs: QueryEdge, rhs: QueryEdge) {
    LexLess(KeyOf(lhs), KeyOf(rhs))
  }

  predicate Mergable(lhs: QueryEdge, rhs: QueryEdge) {
    !MergeCompare(lhs, rhs) && !MergeCompare(rhs, lhs)
  }

  /** Edges are mergable exactly if they agree in everything but the distance. */
  lemma MergableIsSameKey(lhs: QueryEdge, rhs: QueryEdge)
    ensures Mergable(lhs, rhs) <==> KeyOf(lhs) == KeyOf(rhs)
    ensures Mergable(lhs, rhs) <==> lhs == rhs.(distance := lhs.distance)
  {
    LexIsTotal(KeyOf(lhs), KeyOf(rhs));
    var k, k' := KeyOf(lhs), KeyOf(rhs);
    if k == k' {
      assert forall i :: 0 <= i < 8 ==> k[i] == k'[i];
      assert k[2] == k'[2] && k[6] == k'[6] && k[7] == k'[7] && k[0] == k'[0] && k[1] == k'[1];
    }
  }

  /** The order of the fields that count, one after the other; `false` comes before `true`. */
  lemma {:induction false} ComparesByFields(a: QueryEdge, b: QueryEdge)
    ensures MergeCompare(a, b) <==>
            if a.source != b.source then a.source < b.source
            else if a.target != b.target then a.target < b.target
            else if a.shortcut != b.shortcut then b.shortcut
            else if a.turnId != b.turnId then a.turnId < b.turnId
            else if a.weight != b.weight then a.weight < b.weight
            else if a.duration != b.duration then a.duration < b.duration
            else if a.forward != b.forward then b.forward
            else !a.backward && b.backward
  {
    LessInSteps(KeyOf(a), KeyOf(b));
  }

  lemma {:induction false} LessInSteps(a: Key, b: Key)
    requires |a| == |b| == 8
    ensures LexLess(a, b) <==>
            if a[0] != b[0] then a[0] < b[0] else if a[1] != b[1] then a[1] < b[1]
            else if a[2] != b[2] then a[2] < b[2] else if a[3] != b[3] then a[3] < b[3]
            else if a[4] != b[4] then a[4] < b[4] else if a[5] != b[5] then a[5] < b[5]
            else if a[6] != b[6] then a[6] < b[6] else a[7] < b[7]
  {
    LessFrom(a, b, 0);
    LessFrom(a, b, 1);
    LessFrom(a, b, 2);
    LessFrom(a, b, 3);
    LessFrom(a, b, 4);
    LessFrom(a, b, 5);
    LessFrom(a, b, 6);
    LessFrom(a, b, 7);
    hide LexLess;
    assert a[0..] == a && b[0..] == b;
  }

  lemma {:induction false} LessFrom(a: Key, b: Key, k: nat)
    requires k < |a| == |b|
    ensures LexLess(a[k..], b[k..]) <==>
            if a[k] != b[k] then a[k] < b[k] else k + 1 < |a| && LexLess(a[k + 1..], b[k + 1..])
  {
    assert a[k..][1..] == a[k + 1..] && b[k..][1..] == b[k + 1..];
  }

  /** By source, and then by target. */
  ghost predicate IsOrderedByEnds(edges: seq<QueryEdge>) {
    forall i, j :: 0 <= i < j < |edges| ==>
      edges[i].source < edges[j].source || (edges[i].source == edges[j].source && edges[i].target <= edges[j].target)
  }

  lemma SortedIsOrdered(edges: seq<QueryEdge>)
    requires IsSorted(edges)
    ensures IsOrderedByEnds(edges)
  {
    forall i, j | 0 <= i < j < |edges|
      ensures edges[i].source < edges[j].source
              || (edges[i].source == edges[j].source && edges[i].target <= edges[j].target)
    {
      ComparesByFields(edges[j], edges[i]);
    }
  }

  ghost predicate IsStrict(edges: seq<QueryEdge>) {
    forall i, j :: 0 <= i < j < |edges| ==> MergeCompare(edges[i], edges[j])
  }

  // One bit for each graph

  type Flags = bv8

  const ALL_FLAGS: Flags := 0xFF
  const MAX_INDEX := 8

  function Bit(i: nat): Flags
    requires i < MAX_INDEX
  {
    if i == 0 then 0x01 else if i == 1 then 0x02 else if i == 2 then 0x04 else if i == 3 then 0x08
    else if i == 4 then 0x10 else if i == 5 then 0x20 else if i == 6 then 0x40 else 0x80
  }

  predicate Has(flags: Flags, i: nat)
    requires i < MAX_INDEX
  {
    flags & Bit(i) != 0
  }

  lemma BitIsSet(flags: Flags, i: nat, j: nat)
    requires i < MAX_INDEX && j < MAX_INDEX
    ensures Has(flags | Bit(i), j) <==> Has(flags, j) || i == j
  {}

  lemma BitIsCleared(flags: Flags, i: nat, j: nat)
    requires i < MAX_INDEX && j < MAX_INDEX
    ensures Has(flags & !Bit(i), j) <==> Has(flags, j) && i != j
  {}

  /** The bit of a graph is that of its number. */
  lemma BitOfIndex(i: nat)
    requires i < MAX_INDEX
    ensures Bit(i) == (1 as Flags) << i && ALL_FLAGS == !(0 as Flags)
  {}

  lemma BitsAreSeparate(flags: Flags, i: nat, j: nat)
    requires i < MAX_INDEX && j < MAX_INDEX
    ensures Has(flags | Bit(i), j) <==> Has(flags, j) || i == j
    ensures Has(flags & !Bit(i), j) <==> Has(flags, j) && i != j
    ensures Has(Bit(i), j) <==> i == j
    ensures Has(ALL_FLAGS, j)
  {
    BitIsSet(flags, i, j);
    BitIsCleared(flags, i, j);
  }

  // What a graph consists of

  ghost predicate HasKey(edges: seq<QueryEdge>, key: Key) {
    exists k :: 0 <= k < |edges| && KeyOf(edges[k]) == key
  }

  ghost function Keys(edges: seq<QueryEdge>): iset<Key> {
    iset key: Key | HasKey(edges, key)
  }

  ghost predicate ExposesKey(edges: seq<QueryEdge>, flags: seq<Flags>, i: nat, key: Key)
    requires |edges| == |flags| && i < MAX_INDEX
  {
    exists k :: 0 <= k < |edges| && Has(flags[k], i) && KeyOf(edges[k]) == key
  }

  /** The edges of graph `i`. */
  ghost function Exposed(edges: seq<QueryEdge>, flags: seq<Flags>, i: nat): iset<Key>
    requires |edges| == |flags| && i < MAX_INDEX
  {
    iset key: Key | ExposesKey(edges, flags, i, key)
  }

  // Merging: a simultaneous scan of the old and the new edges

  datatype Scan = Scan(at: nat, flags: seq<Flags>, kept: seq<QueryEdge>)

  /** The first old edge from `at` on that is not less than `e`. */
  function Advance(edges: seq<QueryEdge>, at: nat, e: QueryEdge): (next: nat)
    requires at <= |edges|
    ensures at <= next <= |edges|
    ensures forall k :: at <= k < next ==> MergeCompare(edges[k], e)
    ensures next < |edges| ==> !MergeCompare(edges[next], e)
    decreases |edges| - at
  {
    if at < |edges| && MergeCompare(edges[at], e) then Advance(edges, at + 1, e) else at
  }

  /** One new edge: either it marks an equal old edge, or it is kept. */
  function Visit(edges: seq<QueryEdge>, scan: Scan, e: QueryEdge, flag: Flags): (next: Scan)
    requires scan.at <= |edges| == |scan.flags|
    ensures next.at <= |edges| == |next.flags|
  {
    if scan.at == |edges| || MergeCompare(e, edges[scan.at]) then
      scan.(kept := scan.kept + [e])
    else
      var at := Advance(edges, scan.at, e);
      if at == |edges| || !Mergable(e, edges[at]) then
        scan.(at := at, kept := scan.kept + [e])
      else
        scan.(at := at, flags := scan.flags[at := scan.flags[at] | flag])
  }

  function ScanOf(edges: seq<QueryEdge>, flags: seq<Flags>, newEdges: seq<QueryEdge>, n: nat, flag: Flags): (scan: Scan)
    requires n <= |newEdges| && |flags| == |edges|
    ensures scan.at <= |edges| == |scan.flags|
  {
    if n == 0 then Scan(0, flags, [])
    else Visit(edges, ScanOf(edges, flags, newEdges, n - 1, flag), newEdges[n - 1], flag)
  }

  function Fill(flag: Flags, n: nat): (s: seq<Flags>)
    ensures |s| == n && forall k :: 0 <= k < n ==> s[k] == flag
  {
    seq(n, _ => flag)
  }

  class ContractedEdgeContainer {
    var index: nat
    var flags: seq<Flags>
    var edges: seq<QueryEdge>

    ghost predicate Valid()
      reads this
    {
      |flags| == |edges| && index <= MAX_INDEX
    }

    constructor ()
      ensures Valid() && edges == [] && flags == [] && index == 0
    {
      index, flags, edges := 0, [], [];
    }

    /** The first edges belong to every graph. */
    method Insert(newEdges: seq<QueryEdge>)
      requires Valid() && edges == [] && flags == []
      modifies this`flags, this`edges
      ensures Valid() && edges == newEdges
      ensures forall i :: 0 <= i < MAX_INDEX ==> Exposed(edges, flags, i) == Keys(newEdges)
    {
      edges := newEdges;
      flags := Fill(ALL_FLAGS, |edges|);
      forall i | 0 <= i < MAX_INDEX
        ensures Exposed(edges, flags, i) == Keys(newEdges)
      {
        FilledIsExposed(edges, i);
      }
    }

    /** Of the edges present, exactly those with both ends allowed remain in graph `i`. */
    method Filter(filter: seq<bool>, i: nat)
      requires Valid() && i < MAX_INDEX
      requires forall e :: e in edges ==> e.source < |filter| && e.target < |filter|
      modifies this`flags
      ensures Valid()
      ensures forall k :: 0 <= k < |edges| ==> (Has(flags[k], i) <==> IsAllowed(filter, edges[k]))
      ensures forall k, j :: 0 <= k < |edges| && 0 <= j < MAX_INDEX && j != i ==>
                Has(flags[k], j) == Has(old(flags)[k], j)
    {
      hide Has, Filtered;
      for k := 0 to |edges|
        invariant |flags| == |edges|
        invariant forall m :: 0 <= m < k ==> flags[m] == Filtered(old(flags)[m], IsAllowed(filter, edges[m]), i)
        invariant forall m :: k <= m < |edges| ==> flags[m] == old(flags)[m]
      {
        assert edges[k] in edges;
        var allowed := filter[edges[k].source] && filter[edges[k].target];
        if allowed {
          SetFlag(k, i);
        } else {
          ClearFlag(k, i);
        }
      }
      AllFiltered(edges, old(flags), flags, filter, i);
    }

    method SetFlag(k: nat, i: nat)
      requires k < |flags| && i < MAX_INDEX
      modifies this`flags
      ensures flags == old(flags)[k := Filtered(old(flags)[k], true, i)]
    {
      flags := flags[k := flags[k] | Bit(i)];
    }

    method ClearFlag(k: nat, i: nat)
      requires k < |flags| && i < MAX_INDEX
      modifies this`flags
      ensures flags == old(flags)[k := Filtered(old(flags)[k], false, i)]
    {
      flags := flags[k := flags[k] & !Bit(i)];
    }

    /** Marks the new edges that are there already, and returns the others. */
    method MarkContained(newEdges: seq<QueryEdge>, flag: Flags) returns (kept: seq<QueryEdge>)
      requires Valid()
      modifies this`flags
      ensures var scan := ScanOf(edges, old(flags), newEdges, |newEdges|, flag);
              flags == scan.flags && kept == scan.kept
    {
      kept := [];
      var edgeIter := 0;
      for n := 0 to |newEdges|
        invariant |flags| == |edges|
        invariant ScanOf(edges, old(flags), newEdges, n, flag) == Scan(edgeIter, flags, kept)
      {
        var edge := newEdges[n];
        if edgeIter == |edges| || MergeCompare(edge, edges[edgeIter]) {
          kept := kept + [edge];
          continue;
        }
        ghost var start := edgeIter;
        while edgeIter < |edges| && MergeCompare(edges[edgeIter], edge)
          invariant start <= edgeIter <= |edges|
          invariant Advance(edges, edgeIter, edge) == Advance(edges, start, edge)
        {
          edgeIter := edgeIter + 1;
        }
        if edgeIter == |edges| {
          kept := kept + [edge];
          continue;
        }
        if Mergable(edge, edges[edgeIter]) {
          flags := flags[edgeIter := flags[edgeIter] | flag];
        } else {
          kept := kept + [edge];
        }
      }
    }

    /** Sorts the edges, and their flags with them. */
    method EnforceSorting() returns (ghost ordering: seq<nat>)
      requires Valid()
      modifies this`flags, this`edges
      ensures Valid() && Permutation.IsPermutation(ordering) && |ordering| == |old(edges)|
      ensures edges == Permutation.Reordered(old(edges), ordering)
      ensures flags == Permutation.Reordered(old(flags), ordering)
      ensures IsSorted(edges)
    {
      var size := |edges|;
      var indices := new nat[size](i => i);
      assert indices[..] == Permutation.Iota(size);
      var unsorted := edges;
      IndicesAreOrdered(unsorted);
      Sorting.Sort((i, j) => IndexAtMost(unsorted, i, j), indices);
      var order := indices[..];
      ordering := order;
      Permutation.OrderingIsPermutation(order, size);
      var permutation := Permutation.OrderingToPermutation(order);
      edges := InOrder(edges, ordering, permutation);
      flags := InOrder(flags, ordering, permutation);
      OrderSorts(old(edges), ordering);
    }

    /** Adds the edges of the next graph. */
    method Merge(newEdges: seq<QueryEdge>)
      requires Valid() && index < MAX_INDEX
      modifies this
      ensures Valid() && index == old(index) + 1 && IsSorted(edges) && IsOrderedByEnds(edges)
      ensures Exposed(edges, flags, old(index)) == old(Exposed(edges, flags, index)) + Keys(newEdges)
      ensures forall i :: 0 <= i < MAX_INDEX && i != old(index) ==>
                Exposed(edges, flags, i) == Exposed(old(edges), old(flags), i)
      ensures old(IsStrict(edges) || (AreDistinct(edges) && AreApart(edges, newEdges))) ==>
                (IsStrict(edges) <==> MergesCleanly(old(edges), newEdges))
      ensures forall e :: e in old(edges) ==> e in edges
      ensures forall e :: e in edges ==> e in old(edges) || e in newEdges
    {
      var flag := Bit(index);
      ghost var i := index;
      index := index + 1;
      var kept := MarkContained(newEdges, flag);
      edges := edges + kept;
      flags := flags + Fill(flag, |kept|);
      ghost var ordering := EnforceSorting();
      MergeExposes(old(edges), old(flags), newEdges, i, ordering);
      hide Exposed, Keys, MergesCleanly, IsStrict, AreDistinct, AreApart, IsSorted, ScanOf;
      if old(IsStrict(edges) || (AreDistinct(edges) && AreApart(edges, newEdges))) {
        MergeIsStrict(old(edges), old(flags), newEdges, flag, ordering);
      }
      KeptIsNew(old(edges), old(flags), newEdges, |newEdges|, flag);
      SortedIsOrdered(edges);
      ReorderedHas(old(edges) + kept, ordering);
    }

    /** For each graph, which of the edges it consists of. */
    method MakeEdgeFilters() returns (filters: seq<seq<bool>>)
      requires Valid()
      ensures |filters| == index
      ensures forall i :: 0 <= i < index ==> IsFilterOf(filters[i], flags, i)
    {
      filters := [];
      for flagIndex := 0 to index
        invariant |filters| == flagIndex
        invariant forall i :: 0 <= i < flagIndex ==> IsFilterOf(filters[i], flags, i)
      {
        var filter := [];
        for k := 0 to |flags|
          invariant |filter| == k && forall m :: 0 <= m < k ==> (filter[m] <==> Has(flags[m], flagIndex))
        {
          filter := filter + [flags[k] & Bit(flagIndex) != 0];
        }
        filters := filters + [filter];
      }
    }
  }

  function Filtered(flags: Flags, allowed: bool, i: nat): Flags
    requires i < MAX_INDEX
  {
    if allowed then flags | Bit(i) else flags & !Bit(i)
  }

  lemma FilteredHas(flags: Flags, allowed: bool, i: nat, j: nat)
    requires i < MAX_INDEX && j < MAX_INDEX
    ensures Has(Filtered(flags, allowed, i), j) <==> if i == j then allowed else Has(flags, j)
  {
    BitsAreSeparate(flags, i, j);
  }

  lemma AllFiltered(edges: seq<QueryEdge>, flags: seq<Flags>, flags': seq<Flags>, filter: seq<bool>, i: nat)
    requires |edges| == |flags| == |flags'| && i < MAX_INDEX
    requires forall k :: 0 <= k < |edges| ==> edges[k].source < |filter| && edges[k].target < |filter|
    requires forall k :: 0 <= k < |edges| ==> flags'[k] == Filtered(flags[k], IsAllowed(filter, edges[k]), i)
    ensures forall k :: 0 <= k < |edges| ==> (Has(flags'[k], i) <==> IsAllowed(filter, edges[k]))
    ensures forall k, j :: 0 <= k < |edges| && 0 <= j < MAX_INDEX && j != i ==> Has(flags'[k], j) == Has(flags[k], j)
  {
    hide Has, Filtered, IsAllowed;
    forall k, j | 0 <= k < |edges| && 0 <= j < MAX_INDEX
      ensures Has(flags'[k], j) <==> if i == j then IsAllowed(filter, edges[k]) else Has(flags[k], j)
    {
      FilteredHas(flags[k], IsAllowed(filter, edges[k]), i, j);
    }
  }

  predicate IsAllowed(filter: seq<bool>, e: QueryEdge)
    requires e.source < |filter| && e.target < |filter|
  {
    filter[e.source] && filter[e.target]
  }

  ghost predicate IsFilterOf(filter: seq<bool>, flags: seq<Flags>, i: nat)
    requires i < MAX_INDEX
  {
    |filter| == |flags| && forall k :: 0 <= k < |flags| ==> (filter[k] <==> Has(flags[k], i))
  }

  ghost predicate IsSorted(edges: seq<QueryEdge>) {
    forall i, j :: 0 <= i < j < |edges| ==> !MergeCompare(edges[j], edges[i])
  }

  lemma FilledIsExposed(edges: seq<QueryEdge>, i: nat)
    requires i < MAX_INDEX
    ensures Exposed(edges, Fill(ALL_FLAGS, |edges|), i) == Keys(edges)
  {
    BitsAreSeparate(0, i, i);
  }

  // Sorting by index

  /** Compares edges by their indices; numbers that are no index come last. */
  predicate IndexAtMost(edges: seq<QueryEdge>, i: nat, j: nat) {
    if i >= |edges| then j >= |edges| else j >= |edges| || !MergeCompare(edges[j], edges[i])
  }

  lemma IndicesAreOrdered(edges: seq<QueryEdge>)
    ensures Sorting.IsOrder((i, j) => IndexAtMost(edges, i, j))
  {
    forall i: nat, j: nat
      ensures IndexAtMost(edges, i, j) || IndexAtMost(edges, j, i)
    {
      if i < |edges| && j < |edges| {
        LexIsTotal(KeyOf(edges[i]), KeyOf(edges[j]));
      }
    }
    forall i: nat, j: nat, k: nat | IndexAtMost(edges, i, j) && IndexAtMost(edges, j, k)
      ensures IndexAtMost(edges, i, k)
    {
      if i < |edges| && j < |edges| && k < |edges| {
        NotLessIsTransitive(edges[i], edges[j], edges[k]);
      }
    }
  }

  lemma NotLessIsTransitive(a: QueryEdge, b: QueryEdge, c: QueryEdge)
    requires !MergeCompare(b, a) && !MergeCompare(c, b)
    ensures !MergeCompare(c, a)
  {
    hide LexLess, KeyOf;
    LexIsTotal(KeyOf(a), KeyOf(b));
    LexIsTotal(KeyOf(b), KeyOf(c));
    LexIsTotal(KeyOf(a), KeyOf(c));
    LexIsTransitive(KeyOf(a), KeyOf(b), KeyOf(c));
  }

  lemma OrderSorts(edges: seq<QueryEdge>, ordering: seq<nat>)
    requires Permutation.IsPermutation(ordering) && |ordering| == |edges|
    requires Sorting.IsSorted((i, j) => IndexAtMost(edges, i, j), ordering)
    ensures IsSorted(Permutation.Reordered(edges, ordering))
  {
    var le := (i, j) => IndexAtMost(edges, i, j);
    forall i, j | 0 <= i < j < |ordering|
      ensures !MergeCompare(edges[ordering[j]], edges[ordering[i]])
    {
      assert le(ordering[i], ordering[j]);
    }
  }

  /** `s` in sorted order, by the permutation that belongs to the ordering. */
  method InOrder<T>(s: seq<T>, ghost ordering: seq<nat>, permutation: seq<nat>) returns (r: seq<T>)
    requires Permutation.IsPermutation(ordering) && Permutation.IsInverse(ordering, permutation)
    requires |s| == |ordering|
    ensures r == Permutation.Reordered(s, ordering)
  {
    var a := new T[|s|](i requires 0 <= i < |s| => s[i]);
    assert a[..] == s;
    Permutation.InplacePermutation(a, permutation);
    r := a[..];
    Permutation.ReorderedByInverse(s, r, ordering, permutation);
  }

  // Exposure through a merge

  lemma ReorderedExposes(edges: seq<QueryEdge>, flags: seq<Flags>, ordering: seq<nat>, i: nat)
    requires |edges| == |flags| == |ordering| && Permutation.IsPermutation(ordering) && i < MAX_INDEX
    ensures Exposed(Permutation.Reordered(edges, ordering), Permutation.Reordered(flags, ordering), i)
         == Exposed(edges, flags, i)
  {
    var edges', flags' := Permutation.Reordered(edges, ordering), Permutation.Reordered(flags, ordering);
    forall key | ExposesKey(edges, flags, i, key)
      ensures ExposesKey(edges', flags', i, key)
    {
      var k: nat :| k < |edges| && Has(flags[k], i) && KeyOf(edges[k]) == key;
      assert k in ordering;
      var m :| 0 <= m < |ordering| && ordering[m] == k;
      assert Has(flags'[m], i) && KeyOf(edges'[m]) == key;
    }
    forall key | ExposesKey(edges', flags', i, key)
      ensures ExposesKey(edges, flags, i, key)
    {
      var m :| 0 <= m < |edges'| && Has(flags'[m], i) && KeyOf(edges'[m]) == key;
      assert Has(flags[ordering[m]], i) && KeyOf(edges[ordering[m]]) == key;
    }
  }

  lemma AppendedExposes(edges: seq<QueryEdge>, flags: seq<Flags>, kept: seq<QueryEdge>, i: nat, j: nat)
    requires |edges| == |flags| && i < MAX_INDEX && j < MAX_INDEX
    ensures Exposed(edges + kept, flags + Fill(Bit(i), |kept|), j)
         == Exposed(edges, flags, j) + if i == j then Keys(kept) else iset{}
  {
    BitsAreSeparate(0, i, j);
    var edges', flags', n := edges + kept, flags + Fill(Bit(i), |kept|), |edges|;
    forall key | ExposesKey(edges', flags', j, key)
      ensures ExposesKey(edges, flags, j, key) || (i == j && HasKey(kept, key))
    {
      var k :| 0 <= k < |edges'| && Has(flags'[k], j) && KeyOf(edges'[k]) == key;
      if k < n {
        assert Has(flags[k], j) && KeyOf(edges[k]) == key;
      } else {
        assert KeyOf(kept[k - n]) == key && flags'[k] == Bit(i);
      }
    }
    forall key | ExposesKey(edges, flags, j, key)
      ensures ExposesKey(edges', flags', j, key)
    {
      var k :| 0 <= k < n && Has(flags[k], j) && KeyOf(edges[k]) == key;
      assert Has(flags'[k], j) && KeyOf(edges'[k]) == key;
    }
    forall key | i == j && HasKey(kept, key)
      ensures ExposesKey(edges', flags', j, key)
    {
      var k :| 0 <= k < |kept| && KeyOf(kept[k]) == key;
      assert flags'[n + k] == Bit(i) && KeyOf(edges'[n + k]) == key;
    }
  }

  lemma MarkedExposes(edges: seq<QueryEdge>, flags: seq<Flags>, at: nat, i: nat, j: nat)
    requires |edges| == |flags| && at < |edges| && i < MAX_INDEX && j < MAX_INDEX
    ensures Exposed(edges, flags[at := flags[at] | Bit(i)], j)
         == Exposed(edges, flags, j) + if i == j then Keys([edges[at]]) else iset{}
  {
    hide Has, Bit, KeyOf;
    var flags' := flags[at := flags[at] | Bit(i)];
    BitsAreSeparate(flags[at], i, j);
    assert forall k :: 0 <= k < |edges| ==> (Has(flags'[k], j) <==> Has(flags[k], j) || (k == at && i == j));
    OneKey(edges[at]);
    if i == j {
      assert Has(flags'[at], j);
    }
    forall key | ExposesKey(edges, flags, j, key)
      ensures ExposesKey(edges, flags', j, key)
    {
      var k :| 0 <= k < |edges| && Has(flags[k], j) && KeyOf(edges[k]) == key;
      assert Has(flags'[k], j);
    }
  }

  lemma NoKeys()
    ensures Keys([]) == iset{}
  {}

  lemma OneKey(e: QueryEdge)
    ensures forall key :: HasKey([e], key) <==> key == KeyOf(e)
  {
    assert [e][0] == e;
  }

  lemma SameKeys(e: QueryEdge, e': QueryEdge)
    requires KeyOf(e) == KeyOf(e')
    ensures Keys([e]) == Keys([e'])
  {
    OneKey(e);
    OneKey(e');
  }

  lemma KeysOfAppended(s: seq<QueryEdge>, e: QueryEdge)
    ensures Keys(s + [e]) == Keys(s) + Keys([e])
  {
    var t := s + [e];
    OneKey(e);
    assert forall k :: 0 <= k < |s| ==> t[k] == s[k];
    assert t[|s|] == e;
    forall key | HasKey(t, key)
      ensures HasKey(s, key) || key == KeyOf(e)
    {
      var k :| 0 <= k < |t| && KeyOf(t[k]) == key;
      if k < |s| {
        assert KeyOf(s[k]) == key;
      }
    }
    forall key | HasKey(s, key)
      ensures HasKey(t, key)
    {
      var k :| 0 <= k < |s| && KeyOf(s[k]) == key;
      assert KeyOf(t[k]) == key;
    }
  }

  lemma VisitExposes(edges: seq<QueryEdge>, scan: Scan, e: QueryEdge, i: nat, j: nat)
    requires scan.at <= |edges| == |scan.flags| && i < MAX_INDEX && j < MAX_INDEX
    ensures var next := Visit(edges, scan, e, Bit(i));
            && Exposed(edges, next.flags, j) + (if i == j then Keys(next.kept) else iset{})
            == Exposed(edges, scan.flags, j) + (if i == j then Keys(scan.kept) + Keys([e]) else iset{})
  {
    hide Exposed, Keys, Bit, KeyOf, MergeCompare;
    var next := Visit(edges, scan, e, Bit(i));
    if next.kept == scan.kept + [e] {
      KeysOfAppended(scan.kept, e);
    } else {
      MergableIsSameKey(e, edges[next.at]);
      SameKeys(e, edges[next.at]);
      MarkedExposes(edges, scan.flags, next.at, i, j);
    }
  }

  /** A new edge is either exposed by an equal old one, or kept. */
  lemma {:induction false} ScanExposes(edges: seq<QueryEdge>, flags: seq<Flags>, newEdges: seq<QueryEdge>, n: nat,
                                       i: nat, j: nat)
    requires n <= |newEdges| && |flags| == |edges| && i < MAX_INDEX && j < MAX_INDEX
    ensures var scan := ScanOf(edges, flags, newEdges, n, Bit(i));
            && Exposed(edges, scan.flags, j) + (if i == j then Keys(scan.kept) else iset{})
            == Exposed(edges, flags, j) + (if i == j then Keys(newEdges[..n]) else iset{})
  {
    hide Exposed, Keys, Visit, Bit;
    NoKeys();
    if n > 0 {
      ScanExposes(edges, flags, newEdges, n - 1, i, j);
      VisitExposes(edges, ScanOf(edges, flags, newEdges, n - 1, Bit(i)), newEdges[n - 1], i, j);
      assert newEdges[..n] == newEdges[..n - 1] + [newEdges[n - 1]];
      KeysOfAppended(newEdges[..n - 1], newEdges[n - 1]);
    }
  }

  // When a merge leaves no duplicates

  ghost predicate AreDistinct(edges: seq<QueryEdge>) {
    forall i, j :: 0 <= i < j < |edges| ==> KeyOf(edges[i]) != KeyOf(edges[j])
  }

  /** No new edge before the `n`th comes after it in the comparison. */
  ghost predicate ComesInOrder(newEdges: seq<QueryEdge>, n: nat)
    requires n < |newEdges|
  {
    forall i :: 0 <= i < n ==> !MergeCompare(newEdges[n], newEdges[i])
  }

  /** One of the first `n` new edges has moved the scan past the `j`th old edge. */
  ghost predicate IsPassed(edges: seq<QueryEdge>, newEdges: seq<QueryEdge>, n: nat, j: nat)
    requires j < |edges| && n <= |newEdges|
  {
    exists i :: 0 <= i < n && MergeCompare(edges[j], newEdges[i])
  }

  lemma Transitive(a: QueryEdge, b: QueryEdge, c: QueryEdge)
    requires MergeCompare(a, b) && MergeCompare(b, c)
    ensures MergeCompare(a, c) && !MergeCompare(c, a)
  {
    LexIsTransitive(KeyOf(a), KeyOf(b), KeyOf(c));
    LexIsTotal(KeyOf(a), KeyOf(c));
  }

  /** In a strictly sorted list the scan passes exactly the edges that are less than the visited one. */
  lemma VisitPasses(edges: seq<QueryEdge>, scan: Scan, e: QueryEdge, flag: Flags, j: nat)
    requires scan.at <= |edges| == |scan.flags| && j < |edges| && IsStrict(edges)
    ensures j < Visit(edges, scan, e, flag).at <==> j < scan.at || MergeCompare(edges[j], e)
  {
    hide LexLess, KeyOf;
    var next := Visit(edges, scan, e, flag).at;
    if j >= next && MergeCompare(edges[j], e) {
      if next < j {
        Transitive(edges[next], edges[j], e);
      }
      LexIsTotal(KeyOf(e), KeyOf(edges[next]));
    }
  }

  lemma {:induction false} ScanPasses(edges: seq<QueryEdge>, flags: seq<Flags>, newEdges: seq<QueryEdge>, n: nat,
                                      flag: Flags, j: nat)
    requires n <= |newEdges| && |flags| == |edges| && j < |edges| && IsStrict(edges)
    ensures j < ScanOf(edges, flags, newEdges, n, flag).at <==> IsPassed(edges, newEdges, n, j)
  {
    hide IsStrict, MergeCompare, Visit;
    if n > 0 {
      ScanPasses(edges, flags, newEdges, n - 1, flag, j);
      VisitPasses(edges, ScanOf(edges, flags, newEdges, n - 1, flag), newEdges[n - 1], flag, j);
      assert IsPassed(edges, newEdges, n - 1, j) ==> IsPassed(edges, newEdges, n, j);
    }
  }

  /** An old edge is found unless it has been passed. */
  lemma VisitMarks(edges: seq<QueryEdge>, scan: Scan, e: QueryEdge, flag: Flags, j: nat)
    requires scan.at <= |edges| == |scan.flags| && j < |edges| && IsStrict(edges) && KeyOf(e) == KeyOf(edges[j])
    ensures Visit(edges, scan, e, flag)
         == if j < scan.at then scan.(kept := scan.kept + [e])
            else scan.(at := j, flags := scan.flags[j := scan.flags[j] | flag])
  {
    MergableIsSameKey(e, edges[j]);
    if scan.at < j {
      LexIsTotal(KeyOf(edges[scan.at]), KeyOf(edges[j]));
    }
    var next := Advance(edges, scan.at, e);
    if scan.at <= j {
      assert next <= j;
      assert next < j ==> MergeCompare(edges[next], edges[j]);
    }
  }

  /**
   Edge lists are sorted by source and target only.  With a strictly sorted list of old edges, a
   new edge that is there already is found and marked exactly if none before it comes after it in
   the comparison; otherwise it is kept, and so stored again.
   */
  lemma MarkedExactly(edges: seq<QueryEdge>, flags: seq<Flags>, newEdges: seq<QueryEdge>, n: nat, flag: Flags, j: nat)
    requires n < |newEdges| && |flags| == |edges| && j < |edges| && IsStrict(edges)
    requires KeyOf(newEdges[n]) == KeyOf(edges[j])
    ensures var scan, next := ScanOf(edges, flags, newEdges, n, flag), ScanOf(edges, flags, newEdges, n + 1, flag);
            next == if ComesInOrder(newEdges, n) then scan.(at := j, flags := scan.flags[j := scan.flags[j] | flag])
                    else scan.(kept := scan.kept + [newEdges[n]])
  {
    ScanPasses(edges, flags, newEdges, n, flag, j);
    VisitMarks(edges, ScanOf(edges, flags, newEdges, n, flag), newEdges[n], flag, j);
    assert IsPassed(edges, newEdges, n, j) <==> !ComesInOrder(newEdges, n);
  }

  /** Parallel edges that come in another order than the old ones: one of them is stored twice. */
  lemma ParallelEdgeIsStoredTwice(a: QueryEdge, b: QueryEdge, flags: seq<Flags>, flag: Flags)
    requires a.source == b.source && a.target == b.target && MergeCompare(a, b) && |flags| == 2
    ensures IsStrict([a, b]) && ScanOf([a, b], flags, [b, a], 2, flag) == Scan(1, [flags[0], flags[1] | flag], [a])
  {
    var edges, newEdges := [a, b], [b, a];
    assert flags[1 := flags[1] | flag] == [flags[0], flags[1] | flag];
    VisitMarks(edges, Scan(0, flags, []), b, flag, 1);
    hide LexLess, KeyOf;
    assert ScanOf(edges, flags, newEdges, 0, flag) == Scan(0, flags, []);
    var scan := ScanOf(edges, flags, newEdges, 1, flag);
    assert scan == Scan(1, [flags[0], flags[1] | flag], []);
    assert Visit(edges, scan, a, flag) == scan.(kept := [] + [a]);
  }

  // All new edges that are kept

  ghost predicate IsKept(edges: seq<QueryEdge>, newEdges: seq<QueryEdge>, n: nat)
    requires n < |newEdges|
  {
    HasKey(edges, KeyOf(newEdges[n])) ==> !ComesInOrder(newEdges, n)
  }

  ghost function KeptOf(edges: seq<QueryEdge>, newEdges: seq<QueryEdge>, n: nat): seq<QueryEdge>
    requires n <= |newEdges|
  {
    if n == 0 then []
    else KeptOf(edges, newEdges, n - 1) + if IsKept(edges, newEdges, n - 1) then [newEdges[n - 1]] else []
  }

  ghost predicate AreApart(edges: seq<QueryEdge>, newEdges: seq<QueryEdge>) {
    forall k :: 0 <= k < |newEdges| ==> !HasKey(edges, KeyOf(newEdges[k]))
  }

  lemma {:induction false} ScanKeeps(edges: seq<QueryEdge>, flags: seq<Flags>, newEdges: seq<QueryEdge>, n: nat,
                                     flag: Flags)
    requires n <= |newEdges| && |flags| == |edges| && (IsStrict(edges) || AreApart(edges, newEdges))
    ensures ScanOf(edges, flags, newEdges, n, flag).kept == KeptOf(edges, newEdges, n)
  {
    hide IsStrict, KeyOf, ComesInOrder, Visit;
    if n > 0 {
      ScanKeeps(edges, flags, newEdges, n - 1, flag);
      var e := newEdges[n - 1];
      if HasKey(edges, KeyOf(e)) {
        var j :| 0 <= j < |edges| && KeyOf(edges[j]) == KeyOf(e);
        MarkedExactly(edges, flags, newEdges, n - 1, flag, j);
      } else {
        UnknownIsKept(edges, ScanOf(edges, flags, newEdges, n - 1, flag), e, flag);
      }
    }
  }

  lemma UnknownIsKept(edges: seq<QueryEdge>, scan: Scan, e: QueryEdge, flag: Flags)
    requires scan.at <= |edges| == |scan.flags| && !HasKey(edges, KeyOf(e))
    ensures Visit(edges, scan, e, flag).kept == scan.kept + [e]
  {
    var at := Advance(edges, scan.at, e);
    if at < |edges| {
      MergableIsSameKey(e, edges[at]);
    }
  }

  lemma HasKeyOfAppended(s: seq<QueryEdge>, e: QueryEdge, key: Key)
    ensures HasKey(s + [e], key) <==> HasKey(s, key) || key == KeyOf(e)
  {
    KeysOfAppended(s, e);
    OneKey(e);
    assert key in Keys(s + [e]) <==> HasKey(s + [e], key);
    assert key in Keys(s) <==> HasKey(s, key);
  }

  ghost predicate KeepsKey(edges: seq<QueryEdge>, newEdges: seq<QueryEdge>, n: nat, key: Key)
    requires n <= |newEdges|
  {
    exists i :: 0 <= i < n && IsKept(edges, newEdges, i) && KeyOf(newEdges[i]) == key
  }

  lemma {:induction false} KeptHasKey(edges: seq<QueryEdge>, newEdges: seq<QueryEdge>, n: nat, key: Key)
    requires n <= |newEdges|
    ensures HasKey(KeptOf(edges, newEdges, n), key) <==> KeepsKey(edges, newEdges, n, key)
  {
    if n == 0 {
      NoKeys();
      assert key in Keys([]) <==> HasKey([], key);
    } else {
      hide IsKept, HasKey, KeyOf, KeepsDistinct, KeepsKey;
      var before := KeptOf(edges, newEdges, n - 1);
      assert before + [] == before;
      KeptHasKey(edges, newEdges, n - 1, key);
      HasKeyOfAppended(before, newEdges[n - 1], key);
      KeepsOneMore(edges, newEdges, n, key);
    }
  }

  ghost predicate KeepsDistinct(edges: seq<QueryEdge>, newEdges: seq<QueryEdge>, n: nat)
    requires n <= |newEdges|
  {
    forall i, j :: 0 <= i < j < n && IsKept(edges, newEdges, i) && IsKept(edges, newEdges, j) ==>
      KeyOf(newEdges[i]) != KeyOf(newEdges[j])
  }

  lemma KeepsOneMore(edges: seq<QueryEdge>, newEdges: seq<QueryEdge>, n: nat, key: Key)
    requires 0 < n <= |newEdges|
    ensures KeepsKey(edges, newEdges, n, key) <==>
            KeepsKey(edges, newEdges, n - 1, key) || (IsKept(edges, newEdges, n - 1) && KeyOf(newEdges[n - 1]) == key)
    ensures KeepsDistinct(edges, newEdges, n) <==>
            && KeepsDistinct(edges, newEdges, n - 1)
            && (IsKept(edges, newEdges, n - 1) ==> !KeepsKey(edges, newEdges, n - 1, KeyOf(newEdges[n - 1])))
  {
    hide IsKept, KeyOf;
  }

  lemma DistinctAppended(s: seq<QueryEdge>, e: QueryEdge)
    ensures AreDistinct(s + [e]) <==> AreDistinct(s) && !HasKey(s, KeyOf(e))
  {
    var t := s + [e];
    assert forall k :: 0 <= k < |s| ==> t[k] == s[k];
    assert t[|s|] == e;
    hide KeyOf;
    if AreDistinct(t) {
      assert forall k :: 0 <= k < |s| ==> KeyOf(t[k]) != KeyOf(t[|s|]);
      forall i, j | 0 <= i < j < |s|
        ensures KeyOf(s[i]) != KeyOf(s[j])
      {
        assert KeyOf(t[i]) != KeyOf(t[j]);
      }
    }
  }

  lemma NoneAreDistinct(edges: seq<QueryEdge>, newEdges: seq<QueryEdge>)
    ensures AreDistinct([]) && KeepsDistinct(edges, newEdges, 0)
  {}

  lemma {:induction false} KeptIsDistinct(edges: seq<QueryEdge>, newEdges: seq<QueryEdge>, n: nat)
    requires n <= |newEdges|
    ensures AreDistinct(KeptOf(edges, newEdges, n)) <==> KeepsDistinct(edges, newEdges, n)
  {
    NoneAreDistinct(edges, newEdges);
    hide IsKept, HasKey, KeyOf, AreDistinct, KeepsDistinct, KeepsKey;
    if n > 0 {
      var e, before := newEdges[n - 1], KeptOf(edges, newEdges, n - 1);
      KeptIsDistinct(edges, newEdges, n - 1);
      KeptHasKey(edges, newEdges, n - 1, KeyOf(e));
      DistinctAppended(before, e);
      assert before + [] == before;
      KeepsOneMore(edges, newEdges, n, KeyOf(e));
    }
  }

  /**
   Of the new edges, those that are there already come in order, and no two of the others agree
   in everything but the distance.
   */
  ghost predicate MergesCleanly(edges: seq<QueryEdge>, newEdges: seq<QueryEdge>) {
    && (forall n :: 0 <= n < |newEdges| && HasKey(edges, KeyOf(newEdges[n])) ==> ComesInOrder(newEdges, n))
    && forall i, j :: 0 <= i < j < |newEdges| && !HasKey(edges, KeyOf(newEdges[i])) ==>
         KeyOf(newEdges[i]) != KeyOf(newEdges[j])
  }

  lemma CleanExactly(edges: seq<QueryEdge>, newEdges: seq<QueryEdge>)
    ensures var kept := KeptOf(edges, newEdges, |newEdges|);
            MergesCleanly(edges, newEdges) <==> AreApart(edges, kept) && AreDistinct(kept)
  {
    var kept, n := KeptOf(edges, newEdges, |newEdges|), |newEdges|;
    KeptIsDistinct(edges, newEdges, n);
    hide AreDistinct, KeyOf, HasKey, ComesInOrder, KeptOf;
    ApartExactly(edges, newEdges);
  }

  lemma ApartExactly(edges: seq<QueryEdge>, newEdges: seq<QueryEdge>)
    ensures AreApart(edges, KeptOf(edges, newEdges, |newEdges|)) <==>
            forall i :: 0 <= i < |newEdges| && IsKept(edges, newEdges, i) ==> !HasKey(edges, KeyOf(newEdges[i]))
  {
    var kept, n := KeptOf(edges, newEdges, |newEdges|), |newEdges|;
    forall key
      ensures HasKey(kept, key) <==> KeepsKey(edges, newEdges, n, key)
    {
      KeptHasKey(edges, newEdges, n, key);
    }
    if AreApart(edges, kept) {
      forall i | 0 <= i < n && IsKept(edges, newEdges, i)
        ensures !HasKey(edges, KeyOf(newEdges[i]))
      {
        assert KeepsKey(edges, newEdges, n, KeyOf(newEdges[i]));
        var k :| 0 <= k < |kept| && KeyOf(kept[k]) == KeyOf(newEdges[i]);
      }
    } else {
      var k :| 0 <= k < |kept| && HasKey(edges, KeyOf(kept[k]));
      assert HasKey(kept, KeyOf(kept[k]));
    }
  }

  lemma DistinctConcatenation(edges: seq<QueryEdge>, kept: seq<QueryEdge>)
    ensures AreDistinct(edges + kept) <==> AreDistinct(edges) && AreDistinct(kept) && AreApart(edges, kept)
  {
    hide KeyOf;
    var all, m := edges + kept, |edges|;
    assert forall k :: 0 <= k < m ==> all[k] == edges[k];
    assert forall k :: 0 <= k < |kept| ==> all[m + k] == kept[k];
    if AreDistinct(all) {
      forall i, j | 0 <= i < j < m
        ensures KeyOf(edges[i]) != KeyOf(edges[j])
      {
        assert KeyOf(all[i]) != KeyOf(all[j]);
      }
      forall i, j | 0 <= i < j < |kept|
        ensures KeyOf(kept[i]) != KeyOf(kept[j])
      {
        assert KeyOf(all[m + i]) != KeyOf(all[m + j]);
      }
      forall k | 0 <= k < |kept|
        ensures !HasKey(edges, KeyOf(kept[k]))
      {
        assert forall j :: 0 <= j < m ==> KeyOf(all[j]) != KeyOf(all[m + k]);
      }
    }
    if AreDistinct(edges) && AreDistinct(kept) && AreApart(edges, kept) {
      forall i, j | 0 <= i < j < |all|
        ensures KeyOf(all[i]) != KeyOf(all[j])
      {
        if i < m <= j {
          assert !HasKey(edges, KeyOf(kept[j - m]));
          assert KeyOf(edges[i]) != KeyOf(kept[j - m]);
        } else if m <= i {
          assert KeyOf(kept[i - m]) != KeyOf(kept[j - m]);
        }
      }
    }
  }

  /** With two strictly sorted lists a merge is always clean. */
  lemma StrictMergesCleanly(edges: seq<QueryEdge>, newEdges: seq<QueryEdge>)
    requires IsStrict(newEdges)
    ensures MergesCleanly(edges, newEdges)
  {
    hide LexLess, KeyOf;
    forall i, j | 0 <= i < j < |newEdges|
      ensures !MergeCompare(newEdges[j], newEdges[i]) && KeyOf(newEdges[i]) != KeyOf(newEdges[j])
    {
      LexIsTotal(KeyOf(newEdges[i]), KeyOf(newEdges[j]));
    }
  }

  lemma {:induction false} KeptIsNew(edges: seq<QueryEdge>, flags: seq<Flags>, newEdges: seq<QueryEdge>, n: nat,
                                     flag: Flags)
    requires n <= |newEdges| && |flags| == |edges|
    ensures forall e :: e in ScanOf(edges, flags, newEdges, n, flag).kept ==> e in newEdges
  {
    if n > 0 {
      KeptIsNew(edges, flags, newEdges, n - 1, flag);
    }
  }

  lemma ReorderedHas(edges: seq<QueryEdge>, ordering: seq<nat>)
    requires Permutation.IsPermutation(ordering) && |ordering| == |edges|
    ensures forall e :: e in Permutation.Reordered(edges, ordering) <==> e in edges
  {
    var edges' := Permutation.Reordered(edges, ordering);
    forall e | e in edges
      ensures e in edges'
    {
      var k: nat :| k < |edges| && edges[k] == e;
      assert k in ordering;
      var m :| 0 <= m < |ordering| && ordering[m] == k;
      assert edges'[m] == e;
    }
  }

  lemma StrictIsDistinct(edges: seq<QueryEdge>)
    requires IsStrict(edges)
    ensures AreDistinct(edges)
  {
    forall i, j | 0 <= i < j < |edges|
      ensures KeyOf(edges[i]) != KeyOf(edges[j])
    {
      LexIsTotal(KeyOf(edges[i]), KeyOf(edges[j]));
    }
  }

  lemma SortedIsStrict(edges: seq<QueryEdge>, ordering: seq<nat>)
    requires |edges| == |ordering| && Permutation.IsPermutation(ordering)
    requires IsSorted(Permutation.Reordered(edges, ordering))
    ensures IsStrict(Permutation.Reordered(edges, ordering)) <==> AreDistinct(edges)
  {
    if AreDistinct(edges) {
      DistinctIsStrict(edges, ordering);
    } else {
      var a: nat, b: nat :| a < b < |edges| && KeyOf(edges[a]) == KeyOf(edges[b]);
      assert a in ordering && b in ordering;
      var i :| 0 <= i < |ordering| && ordering[i] == a;
      var j :| 0 <= j < |ordering| && ordering[j] == b;
      var edges' := Permutation.Reordered(edges, ordering);
      LexIsTotal(KeyOf(edges'[i]), KeyOf(edges'[j]));
      assert if i < j then !MergeCompare(edges'[i], edges'[j]) else !MergeCompare(edges'[j], edges'[i]);
    }
  }

  lemma DistinctIsStrict(edges: seq<QueryEdge>, ordering: seq<nat>)
    requires |edges| == |ordering| && Permutation.IsPermutation(ordering) && AreDistinct(edges)
    requires IsSorted(Permutation.Reordered(edges, ordering))
    ensures IsStrict(Permutation.Reordered(edges, ordering))
  {
    var edges' := Permutation.Reordered(edges, ordering);
    forall i, j | 0 <= i < j < |edges'|
      ensures MergeCompare(edges'[i], edges'[j])
    {
      LexIsTotal(KeyOf(edges'[i]), KeyOf(edges'[j]));
      var a, b := ordering[i], ordering[j];
      assert a != b;
      assert if a < b then KeyOf(edges[a]) != KeyOf(edges[b]) else KeyOf(edges[b]) != KeyOf(edges[a]);
    }
  }

  /** The effect of a merge on the graphs. */
  lemma MergeExposes(edges: seq<QueryEdge>, flags: seq<Flags>, newEdges: seq<QueryEdge>, i: nat, ordering: seq<nat>)
    requires |edges| == |flags| && i < MAX_INDEX && Permutation.IsPermutation(ordering)
    requires var scan := ScanOf(edges, flags, newEdges, |newEdges|, Bit(i)); |ordering| == |edges + scan.kept|
    ensures var scan := ScanOf(edges, flags, newEdges, |newEdges|, Bit(i));
            var edges' := Permutation.Reordered(edges + scan.kept, ordering);
            var flags' := Permutation.Reordered(scan.flags + Fill(Bit(i), |scan.kept|), ordering);
            && Exposed(edges', flags', i) == Exposed(edges, flags, i) + Keys(newEdges)
            && (forall j :: 0 <= j < MAX_INDEX && j != i ==> Exposed(edges', flags', j) == Exposed(edges, flags, j))
  {
    hide ScanOf, Exposed, Keys;
    var scan := ScanOf(edges, flags, newEdges, |newEdges|, Bit(i));
    var all, allFlags := edges + scan.kept, scan.flags + Fill(Bit(i), |scan.kept|);
    assert newEdges[..|newEdges|] == newEdges;
    forall j | 0 <= j < MAX_INDEX
      ensures Exposed(Permutation.Reordered(all, ordering), Permutation.Reordered(allFlags, ordering), j)
           == Exposed(edges, flags, j) + if i == j then Keys(newEdges) else iset{}
    {
      ScanExposes(edges, flags, newEdges, |newEdges|, i, j);
      AppendedExposes(edges, scan.flags, scan.kept, i, j);
      ReorderedExposes(all, allFlags, ordering, j);
    }
  }

  /** What a merge puts out is free of duplicates exactly if it is clean. */
  lemma MergeIsStrict(edges: seq<QueryEdge>, flags: seq<Flags>, newEdges: seq<QueryEdge>, flag: Flags,
                      ordering: seq<nat>)
    requires |edges| == |flags| && Permutation.IsPermutation(ordering)
    requires IsStrict(edges) || (AreDistinct(edges) && AreApart(edges, newEdges))
    requires var scan := ScanOf(edges, flags, newEdges, |newEdges|, flag);
             |ordering| == |edges + scan.kept| && IsSorted(Permutation.Reordered(edges + scan.kept, ordering))
    ensures var scan := ScanOf(edges, flags, newEdges, |newEdges|, flag);
            IsStrict(Permutation.Reordered(edges + scan.kept, ordering)) <==> MergesCleanly(edges, newEdges)
  {
    hide ScanOf, KeptOf, IsSorted, HasKey, MergesCleanly;
    ScanKeeps(edges, flags, newEdges, |newEdges|, flag);
    var kept := KeptOf(edges, newEdges, |newEdges|);
    if IsStrict(edges) {
      StrictIsDistinct(edges);
    }
    CleanExactly(edges, newEdges);
    DistinctConcatenation(edges, kept);
    hide IsStrict, AreDistinct, AreApart;
    SortedIsStrict(edges + kept, ordering);
  }
}
