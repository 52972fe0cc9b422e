/**
 From an edge list to the graph that is contracted: every edge is stored at both of its ends,
 the list is sorted, and each group of parallel edges is merged in place.
 */
module GraphContractorAdaptors {
  import opened Common
  import opened Walks
  import Sorting

  const INVALID_EDGE_WEIGHT: EdgeWeight := 0x7FFF_FFFF
  const MAXIMAL_EDGE_DURATION: EdgeDuration := 0x7FFF_FFFF
  const MAXIMAL_EDGE_DISTANCE: EdgeDistance := LARGEST_FLOAT

  type EdgeWeight = w: int | -0x8000_0000 <= w <= 0x7FFF_FFFF
  type EdgeDuration = d: int | -0x8000_0000 <= d <= 0x7FFF_FFFF
  type EdgeDistance = d: real | -LARGEST_FLOAT <= d <= LARGEST_FLOAT

  datatype InputEdge = InputEdge(source: NodeID, target: NodeID, weight: EdgeWeight, duration: EdgeDuration,
                                 distance: EdgeDistance, turnId: nat, forward: bool, backward: bool)

  datatype EdgeData = EdgeData(weight: EdgeWeight, duration: EdgeDuration, distance: EdgeDistance, id: nat,
                               originalEdges: nat, shortcut: bool, forward: bool, backward: bool)

  datatype ContractorEdge = ContractorEdge(source: NodeID, target: NodeID, data: EdgeData)

  function Max(a: EdgeWeight, b: EdgeWeight): EdgeWeight {
    if a < b then b else a
  }

  /** The edges that an input edge puts at its source and at its target. */
  function BothEnds(e: InputEdge): (pair: seq<ContractorEdge>)
    ensures |pair| == if e.weight == INVALID_EDGE_WEIGHT then 0 else 2
  {
    if e.weight == INVALID_EDGE_WEIGHT then [] else
    var weight := Max(e.weight, 1);
    [ ContractorEdge(e.source, e.target,
        EdgeData(weight, e.duration, e.distance, e.turnId, 1, false, e.forward, e.backward)),
      ContractorEdge(e.target, e.source,
        EdgeData(weight, e.duration, e.distance, e.turnId, 1, false, e.backward, e.forward)) ]
  }

  function Doubled(input: seq<InputEdge>): seq<ContractorEdge> {
    if input == [] then [] else Doubled(input[..|input| - 1]) + BothEnds(input[|input| - 1])
  }

  predicate PairAtMost(a: ContractorEdge, b: ContractorEdge) {
    a.source < b.source || (a.source == b.source && a.target <= b.target)
  }

  predicate SamePair(a: ContractorEdge, b: ContractorEdge) {
    a.source == b.source && a.target == b.target
  }

  // Merging parallel edges

  /** The least weight, duration and distance of some edges, each for itself. */
  datatype Best = Best(weight: EdgeWeight, duration: EdgeDuration, distance: EdgeDistance)

  const NONE := Best(INVALID_EDGE_WEIGHT, MAXIMAL_EDGE_DURATION, MAXIMAL_EDGE_DISTANCE)

  function Lower(d: EdgeData, b: Best): Best {
    Best(if b.weight < d.weight then b.weight else d.weight,
         if b.duration < d.duration then b.duration else d.duration,
         if b.distance < d.distance then b.distance else d.distance)
  }

  predicate HasDirection(d: EdgeData, forward: bool) {
    if forward then d.forward else d.backward
  }

  function BestOf(s: seq<ContractorEdge>, i: nat, j: nat, forward: bool): Best
    requires i <= j <= |s|
  {
    if i == j then NONE
    else if HasDirection(s[j - 1].data, forward) then Lower(s[j - 1].data, BestOf(s, i, j - 1, forward))
    else BestOf(s, i, j - 1, forward)
  }

  /** Where the group of parallel edges that goes on at `j` ends. */
  function GroupEnd(s: seq<ContractorEdge>, source: NodeID, target: NodeID, j: nat): (end: nat)
    requires j <= |s|
    ensures j <= end <= |s|
    ensures forall k :: j <= k < end ==> s[k].source == source && s[k].target == target
    ensures end < |s| ==> s[end].source != source || s[end].target != target
    decreases |s| - j
  {
    if j < |s| && s[j].source == source && s[j].target == target then GroupEnd(s, source, target, j + 1) else j
  }

  function OneEdge(source: NodeID, target: NodeID, id: nat, best: Best, forward: bool, backward: bool): ContractorEdge {
    ContractorEdge(source, target, EdgeData(best.weight, best.duration, best.distance, id, 1, false, forward, backward))
  }

  /** The edges that stand for a group: one for both directions if their weights agree. */
  function Merged(source: NodeID, target: NodeID, id: nat, f: Best, b: Best): seq<ContractorEdge> {
    if f.weight == b.weight then
      if f.weight != INVALID_EDGE_WEIGHT then [OneEdge(source, target, id, f, true, true)] else []
    else
      (if f.weight != INVALID_EDGE_WEIGHT then [OneEdge(source, target, id, f, true, false)] else [])
      + if b.weight != INVALID_EDGE_WEIGHT then [OneEdge(source, target, id, b, false, true)] else []
  }

  /** The merged groups from `i` on, without eigenloops. */
  function Compacted(s: seq<ContractorEdge>, i: nat): seq<ContractorEdge>
    requires i <= |s|
    decreases |s| - i
  {
    if i == |s| then []
    else if s[i].source == s[i].target then Compacted(s, i + 1)
    else
      var j := GroupEnd(s, s[i].source, s[i].target, i);
      GroupOf(s, i, j) + Compacted(s, j)
  }

  function GroupOf(s: seq<ContractorEdge>, i: nat, j: nat): seq<ContractorEdge>
    requires i < j <= |s|
  {
    Merged(s[i].source, s[i].target, s[i].data.id, BestOf(s, i, j, true), BestOf(s, i, j, false))
  }

  predicate AllValid(s: seq<ContractorEdge>) {
    forall k :: 0 <= k < |s| ==> s[k].data.weight != INVALID_EDGE_WEIGHT
  }

  lemma GroupShrinks(s: seq<ContractorEdge>, i: nat, j: nat)
    requires i < j <= |s|
    ensures |GroupOf(s, i, j)| <= j - i
  {
    if j == i + 1 {
      assert BestOf(s, i, i, true) == BestOf(s, i, i, false) == NONE;
    }
  }

  /** Reads one group; what is in front of it may have been overwritten already. */
  method MergeGroup(edges: array<ContractorEdge>, start: nat, ghost s: seq<ContractorEdge>)
    returns (i: nat, forwardEdge: Best, reverseEdge: Best)
    requires start < edges.Length == |s| && edges[start..] == s[start..]
    ensures i == GroupEnd(s, s[start].source, s[start].target, start) && start < i
    ensures forwardEdge == BestOf(s, start, i, true) && reverseEdge == BestOf(s, start, i, false)
  {
    var source, target := edges[start].source, edges[start].target;
    assert forall k :: start <= k < |s| ==> edges[k] == edges[start..][k - start] == s[start..][k - start] == s[k];
    forwardEdge, reverseEdge := NONE, NONE;
    i := start;
    while i < edges.Length && edges[i].source == source && edges[i].target == target
      invariant start <= i <= edges.Length
      invariant GroupEnd(s, source, target, i) == GroupEnd(s, source, target, start)
      invariant forwardEdge == BestOf(s, start, i, true) && reverseEdge == BestOf(s, start, i, false)
    {
      if edges[i].data.forward {
        forwardEdge := Lower(edges[i].data, forwardEdge);
      }
      if edges[i].data.backward {
        reverseEdge := Lower(edges[i].data, reverseEdge);
      }
      i := i + 1;
    }
  }

  /** Writes the edges of a group at `edge`, in front of what is still to be read. */
  method WriteMerged(edges: array<ContractorEdge>, edge: nat, source: NodeID, target: NodeID, id: nat, f: Best, b: Best)
    returns (next: nat)
    requires edge + |Merged(source, target, id, f, b)| <= edges.Length
    modifies edges
    ensures next == edge + |Merged(source, target, id, f, b)|
    ensures edges[..next] == old(edges[..edge]) + Merged(source, target, id, f, b)
    ensures edges[next..] == old(edges[next..])
  {
    next := edge;
    if f.weight == b.weight {
      if f.weight != INVALID_EDGE_WEIGHT {
        edges[next] := OneEdge(source, target, id, f, true, true);
        next := next + 1;
      }
    } else {
      if f.weight != INVALID_EDGE_WEIGHT {
        edges[next] := OneEdge(source, target, id, f, true, false);
        next := next + 1;
      }
      if b.weight != INVALID_EDGE_WEIGHT {
        edges[next] := OneEdge(source, target, id, b, false, true);
        next := next + 1;
      }
    }
  }

  /** Merges all groups in place: no edge is overwritten before it was read. */
  method Compact(edges: array<ContractorEdge>) returns (edge: nat)
    modifies edges
    ensures edge <= edges.Length && edges[..edge] == Compacted(old(edges[..]), 0)
  {
    hide Merged, BestOf, GroupEnd;
    ghost var s := edges[..];
    edge := 0;
    var i := 0;
    while i < edges.Length
      invariant edge <= i <= edges.Length
      invariant edges[i..] == s[i..]
      invariant edges[..edge] + Compacted(s, i) == Compacted(s, 0)
    {
      assert edges[i] == edges[i..][0] == s[i];
      var source, target, id := edges[i].source, edges[i].target, edges[i].data.id;
      if source == target {
        assert edges[i + 1..] == edges[i..][1..];
        i := i + 1;
      } else {
        var j, f, b := MergeGroup(edges, i, s);
        GroupShrinks(s, i, j);
        ghost var tail := edges[j..];
        assert tail == edges[i..][j - i..] == s[j..];
        edge := WriteMerged(edges, edge, source, target, id, f, b);
        assert edges[j..] == tail;
        i := j;
      }
    }
  }

  method AddBothEnds(input: seq<InputEdge>) returns (edges: seq<ContractorEdge>)
    ensures edges == Doubled(input)
  {
    edges := [];
    for i := 0 to |input|
      invariant edges == Doubled(input[..i])
    {
      assert input[..i + 1][..i] == input[..i];
      if input[i].weight == INVALID_EDGE_WEIGHT {
        continue;
      }
      edges := edges + BothEnds(input[i]);
    }
    assert input[..|input|] == input;
  }

  lemma PairsAreOrdered()
    ensures Sorting.IsOrder(PairAtMost)
  {}

  /**
   The edge list of the graph, sorted by source and target: what is offered in each direction
   between two nodes, merged to one edge for each direction, or for both.
   */
  method ToContractorGraph(input: seq<InputEdge>) returns (graph: seq<ContractorEdge>)
    ensures IsGraphOf(input, graph) && IsOrderedByEnds(graph)
    ensures forall e :: e in graph ==> IsMergedFrom(input, e)
    ensures forall x, u, v :: x in input && Offers(x, u, v) && u != v ==>
              HasEdge(graph, u, v, true) && HasEdge(graph, v, u, false)
    ensures forall u, v, d :: IsDistance(ForwardArcs(graph), u, v, d) <==> IsDistance(InputArcs(input), u, v, d)
  {
    var list := AddBothEnds(input);
    var edges := new ContractorEdge[|list|](i requires 0 <= i < |list| => list[i]);
    assert edges[..] == list;
    PairsAreOrdered();
    Sorting.Sort(PairAtMost, edges);
    ghost var sorted := edges[..];
    var edge := Compact(edges);
    graph := edges[..edge];
    assert IsSortedInput(input, sorted);
    hide Compacted, IsSortedInput, IsMergedFrom, Offers, HasEdge;
    EdgesInFields(input, sorted, graph);
    forall u, v, d
      ensures IsDistance(ForwardArcs(graph), u, v, d) <==> IsDistance(InputArcs(input), u, v, d)
    {
      DistancesAreKept(input, sorted, u, v, d);
    }
  }

  /** The list that is compacted: sorted, and a permutation of the doubled input. */
  ghost predicate IsSortedInput(input: seq<InputEdge>, s: seq<ContractorEdge>) {
    Sorting.IsSorted(PairAtMost, s) && multiset(s) == multiset(Doubled(input))
  }

  ghost predicate IsGraphOf(input: seq<InputEdge>, graph: seq<ContractorEdge>) {
    exists s :: IsSortedInput(input, s) && graph == Compacted(s, 0)
  }

  // What the compacted list contains

  predicate Matches(e: ContractorEdge, u: NodeID, v: NodeID, forward: bool) {
    e.source == u && e.target == v && HasDirection(e.data, forward)
  }

  predicate IsLowerBound(b: Best, d: EdgeData) {
    b.weight <= d.weight && b.duration <= d.duration && b.distance <= d.distance
  }

  /** `b` has the least values of all edges of `s` from `u` to `v` in one direction, if there are any. */
  ghost predicate IsLeast(b: Best, s: seq<ContractorEdge>, u: NodeID, v: NodeID, forward: bool) {
    && (forall e :: e in s && Matches(e, u, v, forward) ==> IsLowerBound(b, e.data))
    && (b == NONE || b.weight != INVALID_EDGE_WEIGHT)
    && (b != NONE ==>
          && (exists e :: e in s && Matches(e, u, v, forward) && e.data.weight == b.weight)
          && (exists e :: e in s && Matches(e, u, v, forward) && e.data.duration == b.duration)
          && (exists e :: e in s && Matches(e, u, v, forward) && e.data.distance == b.distance))
  }

  lemma LeastIsUnique(b: Best, b': Best, s: seq<ContractorEdge>, u: NodeID, v: NodeID, forward: bool)
    requires IsLeast(b, s, u, v, forward) && IsLeast(b', s, u, v, forward) && AllValid(s)
    ensures b == b'
  {
    if b != NONE || b' != NONE {
      var e :| e in s && Matches(e, u, v, forward);
      assert IsLowerBound(b, e.data) && IsLowerBound(b', e.data);
    }
  }

  lemma {:induction false} BestIsLeast(s: seq<ContractorEdge>, i: nat, j: nat, u: NodeID, v: NodeID, forward: bool)
    requires i <= j <= |s| && AllValid(s)
    requires forall k :: i <= k < j ==> s[k].source == u && s[k].target == v
    ensures IsLeast(BestOf(s, i, j, forward), s[i..j], u, v, forward)
  {
    if i < j {
      BestIsLeast(s, i, j - 1, u, v, forward);
      var t, t', e := s[i..j - 1], s[i..j], s[j - 1];
      var b, b' := BestOf(s, i, j - 1, forward), BestOf(s, i, j, forward);
      assert t' == t + [e];
      LowerIsLeast(b, t, e, u, v, forward, b');
    }
  }

  lemma LowerIsLeast(b: Best, s: seq<ContractorEdge>, e: ContractorEdge, u: NodeID, v: NodeID, forward: bool, b': Best)
    requires IsLeast(b, s, u, v, forward) && e.source == u && e.target == v && e.data.weight != INVALID_EDGE_WEIGHT
    requires b' == if HasDirection(e.data, forward) then Lower(e.data, b) else b
    ensures IsLeast(b', s + [e], u, v, forward)
  {
    var s' := s + [e];
    assert e in s' && forall x :: x in s' <==> x in s || x == e;
  }

  /** Edges of other pairs do not matter. */
  lemma LeastInLarger(b: Best, s: seq<ContractorEdge>, t: seq<ContractorEdge>, u: NodeID, v: NodeID, forward: bool)
    requires IsLeast(b, s, u, v, forward)
    requires forall e :: e in t && Matches(e, u, v, forward) ==> e in s
    requires forall e :: e in s ==> e in t
    ensures IsLeast(b, t, u, v, forward)
  {}

  /** The group of a pair of nodes stands in the list. */
  ghost predicate HasGroup(c: seq<ContractorEdge>, u: NodeID, v: NodeID, id: nat, f: Best, b: Best) {
    forall e :: e in Merged(u, v, id, f, b) ==> e in c
  }

  ghost predicate IsGroup(s: seq<ContractorEdge>, u: NodeID, v: NodeID, f: Best, b: Best) {
    IsLeast(f, s, u, v, true) && IsLeast(b, s, u, v, false)
  }

  /** In a sorted list, all edges of a pair are in the group that starts at its first one. */
  lemma GroupIsComplete(s: seq<ContractorEdge>, i: nat, j: nat)
    requires Sorting.IsSorted(PairAtMost, s) && AllValid(s)
    requires i < |s| && j == GroupEnd(s, s[i].source, s[i].target, i)
    ensures i < j && IsGroup(s[i..], s[i].source, s[i].target, BestOf(s, i, j, true), BestOf(s, i, j, false))
    ensures forall k :: j <= k < |s| ==> PairAtMost(s[i], s[k]) && !SamePair(s[i], s[k])
  {
    var u, v := s[i].source, s[i].target;
    forall k | j <= k < |s|
      ensures PairAtMost(s[i], s[k]) && !SamePair(s[i], s[k])
    {
      assert PairAtMost(s[i], s[j]) && (j < k ==> PairAtMost(s[j], s[k]));
    }
    InSlice(s, i, j);
    BestIsLeast(s, i, j, u, v, true);
    BestIsLeast(s, i, j, u, v, false);
    LeastInLarger(BestOf(s, i, j, true), s[i..j], s[i..], u, v, true);
    LeastInLarger(BestOf(s, i, j, false), s[i..j], s[i..], u, v, false);
  }

  lemma InSlice(s: seq<ContractorEdge>, i: nat, j: nat)
    requires i <= j <= |s|
    ensures forall e :: e in s[i..] <==> e in s[i..j] || e in s[j..]
  {
    assert s[i..] == s[i..j] + s[j..];
  }

  /** What is left out in front of a suffix belongs to other pairs. */
  lemma GroupInLonger(s: seq<ContractorEdge>, i: nat, j: nat, u: NodeID, v: NodeID, f: Best, b: Best)
    requires i <= j <= |s| && IsGroup(s[j..], u, v, f, b)
    requires forall k :: i <= k < j ==> s[k].source != u || s[k].target != v
    ensures IsGroup(s[i..], u, v, f, b)
  {
    InSlice(s, i, j);
    LeastInLarger(f, s[j..], s[i..], u, v, true);
    LeastInLarger(b, s[j..], s[i..], u, v, false);
  }

  /** An entry of the list belongs to the group of its pair, which has edges. */
  ghost predicate IsEntry(e: ContractorEdge, s: seq<ContractorEdge>, f: Best, b: Best) {
    && e.source != e.target && IsGroup(s, e.source, e.target, f, b)
    && e in Merged(e.source, e.target, e.data.id, f, b)
    && exists x :: x in s && SamePair(x, e) && x.data.id == e.data.id
  }

  lemma EntryInLonger(s: seq<ContractorEdge>, i: nat, j: nat, e: ContractorEdge, f: Best, b: Best)
    requires i <= j <= |s| && IsEntry(e, s[j..], f, b)
    requires forall k :: i <= k < j ==> !SamePair(s[k], e)
    ensures IsEntry(e, s[i..], f, b)
  {
    InSlice(s, i, j);
    GroupInLonger(s, i, j, e.source, e.target, f, b);
  }

  lemma EntryHasPair(e: ContractorEdge, s: seq<ContractorEdge>, f: Best, b: Best) returns (n: nat)
    requires IsEntry(e, s, f, b)
    ensures n < |s| && SamePair(s[n], e) && s[n].data.id == e.data.id
  {
    var x :| x in s && SamePair(x, e) && x.data.id == e.data.id;
    n :| n < |s| && s[n] == x;
  }

  /** The pair of an entry of a later group differs from that of all edges before. */
  lemma OtherPair(s: seq<ContractorEdge>, i: nat, j: nat, e: ContractorEdge, f: Best, b: Best)
    requires i <= j <= |s| && IsEntry(e, s[j..], f, b)
    requires forall k, k' :: i <= k < j <= k' < |s| ==> !SamePair(s[k], s[k'])
    ensures forall k :: i <= k < j ==> !SamePair(s[k], e)
  {
    var n := EntryHasPair(e, s[j..], f, b);
    assert s[j + n] == s[j..][n];
  }

  lemma {:induction false} EntryIsMerged(s: seq<ContractorEdge>, i: nat, m: nat) returns (f: Best, b: Best)
    requires Sorting.IsSorted(PairAtMost, s) && AllValid(s) && i <= |s| && m < |Compacted(s, i)|
    ensures IsEntry(Compacted(s, i)[m], s[i..], f, b)
    decreases |s| - i
  {
    hide IsEntry, Merged, BestOf;
    if s[i].source == s[i].target {
      f, b := EntryIsMerged(s, i + 1, m);
      var e := Compacted(s, i)[m];
      EntryIsNoLoop(e, s[i + 1..], f, b);
      EntryInLonger(s, i, i + 1, e, f, b);
    } else {
      var j := GroupEnd(s, s[i].source, s[i].target, i);
      var n := |GroupOf(s, i, j)|;
      GroupIsComplete(s, i, j);
      if m < n {
        f, b := BestOf(s, i, j, true), BestOf(s, i, j, false);
        GroupEntry(s, i, j, m);
      } else {
        f, b := EntryIsMerged(s, j, m - n);
        var e := Compacted(s, j)[m - n];
        assert e == Compacted(s, i)[m];
        OtherPair(s, i, j, e, f, b);
        EntryInLonger(s, i, j, e, f, b);
      }
    }
  }

  lemma EntryIsNoLoop(e: ContractorEdge, s: seq<ContractorEdge>, f: Best, b: Best)
    requires IsEntry(e, s, f, b)
    ensures e.source != e.target
  {}

  lemma GroupEntry(s: seq<ContractorEdge>, i: nat, j: nat, m: nat)
    requires i < j <= |s| && m < |GroupOf(s, i, j)| && s[i].source != s[i].target
    requires IsGroup(s[i..], s[i].source, s[i].target, BestOf(s, i, j, true), BestOf(s, i, j, false))
    ensures IsEntry(GroupOf(s, i, j)[m], s[i..], BestOf(s, i, j, true), BestOf(s, i, j, false))
  {
    hide BestOf, IsGroup;
    assert s[i] in s[i..];
  }

  /** Every pair of different nodes with an edge has its group in the list. */
  lemma {:induction false} GroupIsThere(s: seq<ContractorEdge>, i: nat, k: nat) returns (id: nat, f: Best, b: Best)
    requires Sorting.IsSorted(PairAtMost, s) && AllValid(s) && i <= k < |s| && s[k].source != s[k].target
    ensures IsGroup(s[i..], s[k].source, s[k].target, f, b)
    ensures HasGroup(Compacted(s, i), s[k].source, s[k].target, id, f, b)
    decreases |s| - i
  {
    if s[i].source == s[i].target {
      id, f, b := GroupIsThere(s, i + 1, k);
      GroupInLonger(s, i, i + 1, s[k].source, s[k].target, f, b);
    } else {
      var j := GroupEnd(s, s[i].source, s[i].target, i);
      GroupIsComplete(s, i, j);
      if k < j {
        id, f, b := s[i].data.id, BestOf(s, i, j, true), BestOf(s, i, j, false);
      } else {
        id, f, b := GroupIsThere(s, j, k);
        GroupInLonger(s, i, j, s[k].source, s[k].target, f, b);
      }
    }
  }

  /** Later entries have greater pairs, or the same pair but other directions. */
  predicate Precedes(a: ContractorEdge, b: ContractorEdge) {
    && PairAtMost(a, b)
    && (SamePair(a, b) ==> !(a.data.forward && b.data.forward) && !(a.data.backward && b.data.backward))
  }

  /** An entry stands for some edge of its pair. */
  lemma EntryComesFrom(s: seq<ContractorEdge>, j: nat, m: nat) returns (k: nat)
    requires Sorting.IsSorted(PairAtMost, s) && AllValid(s) && j <= |s| && m < |Compacted(s, j)|
    ensures j <= k < |s| && SamePair(s[k], Compacted(s, j)[m])
  {
    hide IsEntry, Compacted;
    var f, b := EntryIsMerged(s, j, m);
    var n := EntryHasPair(Compacted(s, j)[m], s[j..], f, b);
    k := j + n;
  }

  lemma GroupEdge(s: seq<ContractorEdge>, i: nat, j: nat, m: nat)
    requires i < j <= |s| && m < |GroupOf(s, i, j)|
    ensures SamePair(s[i], GroupOf(s, i, j)[m])
    ensures forall m' :: m < m' < |GroupOf(s, i, j)| ==> Precedes(GroupOf(s, i, j)[m], GroupOf(s, i, j)[m'])
  {}

  lemma {:induction false} EntriesAreOrdered(s: seq<ContractorEdge>, i: nat, m: nat, m': nat)
    requires Sorting.IsSorted(PairAtMost, s) && AllValid(s) && i <= |s| && m < m' < |Compacted(s, i)|
    ensures Precedes(Compacted(s, i)[m], Compacted(s, i)[m'])
    decreases |s| - i
  {
    if s[i].source == s[i].target {
      EntriesAreOrdered(s, i + 1, m, m');
    } else {
      var j := GroupEnd(s, s[i].source, s[i].target, i);
      var group, rest := GroupOf(s, i, j), Compacted(s, j);
      var n := |group|;
      assert Compacted(s, i) == group + rest;
      if m >= n {
        EntriesAreOrdered(s, j, m - n, m' - n);
      } else {
        GroupEdge(s, i, j, m);
        if m' >= n {
          var k := EntryComesFrom(s, j, m' - n);
          GroupIsComplete(s, i, j);
          LaterPair(s[i], s[k], group[m], rest[m' - n]);
        }
      }
    }
  }

  lemma LaterPair(x: ContractorEdge, y: ContractorEdge, a: ContractorEdge, b: ContractorEdge)
    requires PairAtMost(x, y) && !SamePair(x, y) && SamePair(x, a) && SamePair(y, b)
    ensures Precedes(a, b)
  {}

  // The edges at both ends

  function Mirror(e: ContractorEdge): ContractorEdge {
    ContractorEdge(e.target, e.source, e.data.(forward := e.data.backward, backward := e.data.forward))
  }

  ghost predicate IsMirrored(s: seq<ContractorEdge>) {
    forall e :: e in s ==> Mirror(e) in s
  }

  lemma {:induction false} DoubledContains(input: seq<InputEdge>, e: ContractorEdge)
    ensures e in Doubled(input) <==> exists x :: x in input && e in BothEnds(x)
  {
    if input != [] {
      var front, last := input[..|input| - 1], input[|input| - 1];
      DoubledContains(front, e);
      assert input == front + [last];
    }
  }

  lemma SortedContains(input: seq<InputEdge>, s: seq<ContractorEdge>, e: ContractorEdge)
    requires IsSortedInput(input, s)
    ensures e in s <==> exists x :: x in input && e in BothEnds(x)
  {
    DoubledContains(input, e);
    assert e in s <==> e in multiset(s);
    assert e in Doubled(input) <==> e in multiset(Doubled(input));
  }

  lemma SortedIsMirrored(input: seq<InputEdge>, s: seq<ContractorEdge>)
    requires IsSortedInput(input, s)
    ensures Sorting.IsSorted(PairAtMost, s) && AllValid(s) && IsMirrored(s)
    ensures forall e :: e in s ==> e.data.weight >= 1
  {
    forall e | e in s
      ensures Mirror(e) in s && e.data.weight != INVALID_EDGE_WEIGHT && e.data.weight >= 1
    {
      SortedContains(input, s, e);
      var x :| x in input && e in BothEnds(x);
      assert Mirror(e) in BothEnds(x);
      SortedContains(input, s, Mirror(e));
    }
  }

  lemma MirroredGroup(s: seq<ContractorEdge>, u: NodeID, v: NodeID, f: Best, b: Best)
    requires IsMirrored(s) && IsGroup(s, u, v, f, b)
    ensures IsGroup(s, v, u, b, f)
  {
    MirroredLeast(s, u, v, f, true);
    MirroredLeast(s, u, v, b, false);
  }

  lemma MirroredLeast(s: seq<ContractorEdge>, u: NodeID, v: NodeID, best: Best, forward: bool)
    requires IsMirrored(s) && IsLeast(best, s, u, v, forward)
    ensures IsLeast(best, s, v, u, !forward)
  {
    forall e | e in s && Matches(e, v, u, !forward)
      ensures IsLowerBound(best, e.data)
    {
      assert Matches(Mirror(e), u, v, forward);
    }
    if best != NONE {
      var x :| x in s && Matches(x, u, v, forward) && x.data.weight == best.weight;
      var y :| y in s && Matches(y, u, v, forward) && y.data.duration == best.duration;
      var z :| z in s && Matches(z, u, v, forward) && z.data.distance == best.distance;
      assert Matches(Mirror(x), v, u, !forward) && Mirror(x).data.weight == best.weight;
      assert Matches(Mirror(y), v, u, !forward) && Mirror(y).data.duration == best.duration;
      assert Matches(Mirror(z), v, u, !forward) && Mirror(z).data.distance == best.distance;
    }
  }

  /** The same edge, as it is stored at its other end; its id may be that of a parallel edge. */
  predicate IsOtherEnd(e: ContractorEdge, e': ContractorEdge) {
    && e'.source == e.target && e'.target == e.source
    && e'.data.forward == e.data.backward && e'.data.backward == e.data.forward
    && e'.data.weight == e.data.weight
  }

  predicate HasSameCosts(e: ContractorEdge, e': ContractorEdge) {
    e'.data.duration == e.data.duration && e'.data.distance == e.data.distance
  }

  lemma OtherGroup(s: seq<ContractorEdge>, c: seq<ContractorEdge>, e: ContractorEdge, f: Best, b: Best)
    returns (id: nat)
    requires Sorting.IsSorted(PairAtMost, s) && AllValid(s) && IsMirrored(s) && c == Compacted(s, 0)
    requires IsEntry(e, s, f, b)
    ensures IsGroup(s, e.target, e.source, b, f) && HasGroup(c, e.target, e.source, id, b, f)
  {
    var n := EntryHasPair(e, s, f, b);
    var x := Mirror(s[n]);
    assert x in s;
    var k: nat :| k < |s| && s[k] == x;
    var f', b';
    id, f', b' := GroupIsThere(s, 0, k);
    assert s[0..] == s;
    MirroredGroup(s, e.source, e.target, f, b);
    LeastIsUnique(f', b, s, x.source, x.target, true);
    LeastIsUnique(b', f, s, x.source, x.target, false);
  }

  /** Every edge is also stored at its other end, with the same weight and the opposite directions. */
  lemma StoredAtBothEnds(input: seq<InputEdge>, s: seq<ContractorEdge>, m: nat) returns (e': ContractorEdge)
    requires IsSortedInput(input, s) && m < |Compacted(s, 0)|
    ensures e' in Compacted(s, 0) && IsOtherEnd(Compacted(s, 0)[m], e')
  {
    SortedIsMirrored(input, s);
    var c := Compacted(s, 0);
    var e := c[m];
    var f, b := EntryIsMerged(s, 0, m);
    assert s[0..] == s;
    var id := OtherGroup(s, c, e, f, b);
    e' := OtherEnd(e, f, b, id);
  }

  lemma OtherEnd(e: ContractorEdge, f: Best, b: Best, id: nat) returns (e': ContractorEdge)
    requires e in Merged(e.source, e.target, e.data.id, f, b)
    ensures e' in Merged(e.target, e.source, id, b, f) && IsOtherEnd(e, e')
    ensures HasSameCosts(e, e') <==> f.weight != b.weight || (f.duration == b.duration && f.distance == b.distance)
  {
    var m := Merged(e.target, e.source, id, b, f);
    if f.weight == b.weight || e.data.backward {
      e' := m[0];
      assert e' in m;
    } else {
      e' := m[|m| - 1];
      assert e' in m;
    }
  }

  /**
   The durations and distances at both ends agree exactly if the two directions were not
   merged into one edge, or did not differ.
   */
  lemma CostsAtBothEnds(input: seq<InputEdge>, s: seq<ContractorEdge>, m: nat) returns (f: Best, b: Best)
    requires IsSortedInput(input, s) && m < |Compacted(s, 0)|
    ensures var e := Compacted(s, 0)[m];
            && IsEntry(e, s, f, b)
            && ((exists e' :: e' in Compacted(s, 0) && IsOtherEnd(e, e') && HasSameCosts(e, e'))
                <==> f.weight != b.weight || (f.duration == b.duration && f.distance == b.distance))
  {
    SortedIsMirrored(input, s);
    var c := Compacted(s, 0);
    var e := c[m];
    f, b := EntryIsMerged(s, 0, m);
    assert s[0..] == s;
    var id := OtherGroup(s, c, e, f, b);
    var _ := OtherEnd(e, f, b, id);
    forall e' | e' in c && IsOtherEnd(e, e') && HasSameCosts(e, e')
      ensures f.weight != b.weight || (f.duration == b.duration && f.distance == b.distance)
    {
      OtherEndIsMerged(s, c, e, f, b, e');
    }
  }

  lemma OtherEndIsMerged(s: seq<ContractorEdge>, c: seq<ContractorEdge>, e: ContractorEdge, f: Best, b: Best,
                         e': ContractorEdge)
    requires Sorting.IsSorted(PairAtMost, s) && AllValid(s) && IsMirrored(s) && c == Compacted(s, 0)
    requires IsEntry(e, s, f, b) && e' in c && IsOtherEnd(e, e') && HasSameCosts(e, e')
    ensures f.weight != b.weight || (f.duration == b.duration && f.distance == b.distance)
  {
    hide Compacted;
    var m: nat :| m < |c| && c[m] == e';
    var f', b' := EntryIsMerged(s, 0, m);
    assert s[0..] == s;
    MirroredGroup(s, e.source, e.target, f, b);
    LeastIsUnique(f', b, s, e'.source, e'.target, true);
    LeastIsUnique(b', f, s, e'.source, e'.target, false);
  }

  const THERE := InputEdge(1, 2, 5, 10, 0.0, 7, true, false)
  const BACK := InputEdge(2, 1, 5, 20, 0.0, 8, true, false)

  /** Two directions of the same weight but different durations: each end keeps only its own. */
  lemma CostsMayDiffer(s: seq<ContractorEdge>) returns (m: nat)
    requires IsSortedInput([THERE, BACK], s)
    ensures m < |Compacted(s, 0)|
    ensures forall e' :: e' in Compacted(s, 0) && IsOtherEnd(Compacted(s, 0)[m], e') ==>
              !HasSameCosts(Compacted(s, 0)[m], e')
  {
    hide Merged, Compacted, IsSortedInput, IsOtherEnd, HasSameCosts, Doubled;
    var input, d := [THERE, BACK], BothEnds(THERE)[0];
    SortedIsMirrored(input, s);
    assert THERE in input && d in BothEnds(THERE);
    SortedContains(input, s, d);
    var k: nat :| k < |s| && s[k] == d;
    var id, f, b := GroupIsThere(s, 0, k);
    assert s[0..] == s;
    ExampleGroup(s, f, b);
    var e := ExampleEntry(id, f, b);
    assert e in Compacted(s, 0);
    m :| m < |Compacted(s, 0)| && Compacted(s, 0)[m] == e;
    var f', b' := CostsAtBothEnds(input, s, m);
    EntryGroup(e, s, f', b');
    LeastIsUnique(f', f, s, 1, 2, true);
    LeastIsUnique(b', b, s, 1, 2, false);
  }

  lemma EntryGroup(e: ContractorEdge, s: seq<ContractorEdge>, f: Best, b: Best)
    requires IsEntry(e, s, f, b)
    ensures IsGroup(s, e.source, e.target, f, b)
  {}

  lemma ExampleEntry(id: nat, f: Best, b: Best) returns (e: ContractorEdge)
    requires f == Best(5, 10, 0.0) && b == Best(5, 20, 0.0)
    ensures e in Merged(1, 2, id, f, b) && e.source == 1 && e.target == 2
  {
    e := Merged(1, 2, id, f, b)[0];
  }

  lemma ExampleEdges(s: seq<ContractorEdge>, e: ContractorEdge)
    requires IsSortedInput([THERE, BACK], s) && e.source == 1 && e.target == 2
    ensures e in s <==> e == BothEnds(THERE)[0] || e == BothEnds(BACK)[1]
  {
    SortedContains([THERE, BACK], s, e);
    assert THERE in [THERE, BACK] && BACK in [THERE, BACK];
    assert forall x :: x in [THERE, BACK] ==> x == THERE || x == BACK;
  }

  lemma ExampleGroup(s: seq<ContractorEdge>, f: Best, b: Best)
    requires IsSortedInput([THERE, BACK], s) && IsGroup(s, 1, 2, f, b)
    ensures f == Best(5, 10, 0.0) && b == Best(5, 20, 0.0)
  {
    hide IsSortedInput;
    var d, d' := BothEnds(THERE)[0], BothEnds(BACK)[1];
    forall e: ContractorEdge | e.source == 1 && e.target == 2
      ensures e in s <==> e == d || e == d'
    {
      ExampleEdges(s, e);
    }
    assert d in s && d' in s && Matches(d, 1, 2, true) && Matches(d', 1, 2, false);
  }

  // Shortest distances

  function WeightOnly(weight: int): (cost: Cost)
    ensures cost.weight == weight && cost.duration == 0 && cost.distance == 0.0
  {
    Cost(weight, 0, 0.0)
  }

  predicate IsInputArc(x: InputEdge, a: Arc) {
    && x.weight != INVALID_EDGE_WEIGHT && a.cost == WeightOnly(Max(x.weight, 1))
    && ((x.forward && a.from == x.source && a.to == x.target) || (x.backward && a.from == x.target && a.to == x.source))
  }

  ghost predicate IsArcOfInput(input: seq<InputEdge>, a: Arc) {
    exists x :: x in input && IsInputArc(x, a)
  }

  /** The input as arcs: valid edges only, with weights of at least 1. */
  ghost function InputArcs(input: seq<InputEdge>): iset<Arc> {
    iset a: Arc | IsArcOfInput(input, a)
  }

  predicate IsForwardArc(e: ContractorEdge, a: Arc) {
    e.data.forward && a == Arc(e.source, e.target, WeightOnly(e.data.weight))
  }

  predicate IsBackwardArc(e: ContractorEdge, a: Arc) {
    e.data.backward && a == Arc(e.target, e.source, WeightOnly(e.data.weight))
  }

  ghost predicate HasForwardArc(c: seq<ContractorEdge>, a: Arc) {
    exists e :: e in c && IsForwardArc(e, a)
  }

  ghost predicate HasBackwardArc(c: seq<ContractorEdge>, a: Arc) {
    exists e :: e in c && IsBackwardArc(e, a)
  }

  /** What a search from the source finds at each node. */
  ghost function ForwardArcs(c: seq<ContractorEdge>): iset<Arc> {
    iset a: Arc | HasForwardArc(c, a)
  }

  /** What a search from the target finds at each node, against the direction of the arcs. */
  ghost function BackwardArcs(c: seq<ContractorEdge>): iset<Arc> {
    iset a: Arc | HasBackwardArc(c, a)
  }

  lemma ForwardArcIsInput(input: seq<InputEdge>, s: seq<ContractorEdge>, e: ContractorEdge, a: Arc)
    requires IsSortedInput(input, s) && e in Compacted(s, 0) && IsForwardArc(e, a)
    ensures a in InputArcs(input)
  {
    hide IsEntry, Compacted, IsSortedInput, Doubled;
    SortedIsMirrored(input, s);
    var m: nat :| m < |Compacted(s, 0)| && Compacted(s, 0)[m] == e;
    var f, b := EntryIsMerged(s, 0, m);
    assert s[0..] == s;
    var d := ForwardEntryIsAttained(e, s, f, b);
    SortedContains(input, s, d);
    var x :| x in input && d in BothEnds(x);
    assert IsInputArc(x, a);
  }

  lemma ForwardEntryIsAttained(e: ContractorEdge, s: seq<ContractorEdge>, f: Best, b: Best) returns (d: ContractorEdge)
    requires IsEntry(e, s, f, b) && e.data.forward
    ensures d in s && Matches(d, e.source, e.target, true) && d.data.weight == e.data.weight
  {
    assert f != NONE && f.weight == e.data.weight;
    d :| d in s && Matches(d, e.source, e.target, true) && d.data.weight == f.weight;
  }

  lemma InputArcIsStored(input: seq<InputEdge>, s: seq<ContractorEdge>, x: InputEdge, a: Arc)
    returns (d: ContractorEdge)
    requires IsSortedInput(input, s) && x in input && IsInputArc(x, a)
    ensures d in s && Matches(d, a.from, a.to, true) && WeightOnly(d.data.weight) == a.cost
  {
    var pair := BothEnds(x);
    d := if x.forward && a.from == x.source && a.to == x.target then pair[0] else pair[1];
    assert d in pair;
    SortedContains(input, s, d);
  }

  lemma StoredArcIsCovered(s: seq<ContractorEdge>, d: ContractorEdge) returns (e: ContractorEdge)
    requires Sorting.IsSorted(PairAtMost, s) && AllValid(s)
    requires d in s && d.data.forward && d.source != d.target
    ensures e in Compacted(s, 0) && SamePair(e, d) && e.data.forward && e.data.weight <= d.data.weight
  {
    hide Compacted;
    var k: nat :| k < |s| && s[k] == d;
    var id, f, b := GroupIsThere(s, 0, k);
    assert s[0..] == s;
    assert Matches(d, d.source, d.target, true) && IsLowerBound(f, d.data);
    var m := Merged(d.source, d.target, id, f, b);
    e := m[0];
    assert e in m;
  }

  lemma InputArcIsCovered(input: seq<InputEdge>, s: seq<ContractorEdge>, a: Arc)
    requires IsSortedInput(input, s) && a in InputArcs(input)
    ensures IsCovered(ForwardArcs(Compacted(s, 0)), a)
  {
    hide Compacted, Doubled;
    var x :| x in input && IsInputArc(x, a);
    if a.from != a.to {
      var d := InputArcIsStored(input, s, x, a);
      SortedIsMirrored(input, s);
      var e := StoredArcIsCovered(s, d);
      var arc := Arc(e.source, e.target, WeightOnly(e.data.weight));
      assert IsForwardArc(e, arc);
      assert arc in ForwardArcs(Compacted(s, 0));
    }
  }

  /** Merging parallel edges and dropping eigenloops keeps all shortest distances. */
  lemma DistancesAreKept(input: seq<InputEdge>, s: seq<ContractorEdge>, u: NodeID, v: NodeID, d: Distance)
    requires IsSortedInput(input, s)
    ensures IsDistance(InputArcs(input), u, v, d) <==> IsDistance(ForwardArcs(Compacted(s, 0)), u, v, d)
  {
    var arcs, fewer := InputArcs(input), ForwardArcs(Compacted(s, 0));
    forall a | a in fewer
      ensures a in arcs
    {
      var e :| e in Compacted(s, 0) && IsForwardArc(e, a);
      ForwardArcIsInput(input, s, e, a);
    }
    forall a | a in arcs
      ensures IsCovered(fewer, a)
    {
      InputArcIsCovered(input, s, a);
    }
    FewerArcsSuffice(fewer, arcs, u, v, d);
  }

  /** Searches from both sides see the same arcs. */
  lemma BothSidesSeeTheSame(input: seq<InputEdge>, s: seq<ContractorEdge>)
    requires IsSortedInput(input, s)
    ensures ForwardArcs(Compacted(s, 0)) == BackwardArcs(Compacted(s, 0))
  {
    var c := Compacted(s, 0);
    forall m, a | 0 <= m < |c| && IsForwardArc(c[m], a)
      ensures a in BackwardArcs(c)
    {
      var e' := StoredAtBothEnds(input, s, m);
      assert IsBackwardArc(e', a);
    }
    forall m, a | 0 <= m < |c| && IsBackwardArc(c[m], a)
      ensures a in ForwardArcs(c)
    {
      var e' := StoredAtBothEnds(input, s, m);
      assert IsForwardArc(e', a);
    }
  }

  // The result in terms of the input

  /** The input edge can be travelled from `u` to `v`. */
  predicate Offers(x: InputEdge, u: NodeID, v: NodeID) {
    && x.weight != 0x7FFF_FFFF
    && ((x.forward && x.source == u && x.target == v) || (x.backward && x.source == v && x.target == u))
  }

  ghost predicate OffersWeight(input: seq<InputEdge>, u: NodeID, v: NodeID, weight: int) {
    exists x :: x in input && Offers(x, u, v) && weight == if x.weight < 1 then 1 else x.weight as int
  }

  ghost predicate IsLeastWeight(input: seq<InputEdge>, u: NodeID, v: NodeID, weight: int) {
    OffersWeight(input, u, v, weight) && forall w :: OffersWeight(input, u, v, w) ==> weight <= w
  }

  /** The least values of all edges that can be travelled from `u` to `v`, each for itself. */
  ghost predicate IsLeastOffer(input: seq<InputEdge>, u: NodeID, v: NodeID, weight: int, duration: int,
                               distance: real)
  {
    && IsLeastWeight(input, u, v, weight)
    && (exists x :: x in input && Offers(x, u, v) && x.duration == duration)
    && (exists x :: x in input && Offers(x, u, v) && x.distance == distance)
    && forall x :: x in input && Offers(x, u, v) ==> duration <= x.duration && distance <= x.distance
  }

  /** The turn of one of the edges between the two nodes. */
  ghost predicate IsTurnBetween(input: seq<InputEdge>, u: NodeID, v: NodeID, id: nat) {
    exists x :: x in input && x.weight != 0x7FFF_FFFF && x.turnId == id
             && ((x.source == u && x.target == v) || (x.source == v && x.target == u))
  }

  /**
   An edge of the graph: it has the least values of its direction, or of the forward one if it stands
   for both directions, which it does exactly if their least weights are the same.
   */
  ghost predicate IsMergedFrom(input: seq<InputEdge>, e: ContractorEdge) {
    var u, v, data := e.source, e.target, e.data;
    && u != v && (data.forward || data.backward)
    && IsTurnBetween(input, u, v, data.id) && data.originalEdges == 1 && !data.shortcut
    && IsLeastOffer(input, if data.forward then u else v, if data.forward then v else u,
                    data.weight, data.duration, data.distance)
    && (data.forward && data.backward <==>
          IsLeastWeight(input, u, v, data.weight) && IsLeastWeight(input, v, u, data.weight))
  }

  ghost predicate HasEdge(graph: seq<ContractorEdge>, u: NodeID, v: NodeID, forward: bool) {
    exists e :: e in graph && e.source == u && e.target == v && if forward then e.data.forward else e.data.backward
  }

  /** By source, then by target; two edges of a pair have different directions. */
  ghost predicate IsOrderedByEnds(graph: seq<ContractorEdge>) {
    forall i, j :: 0 <= i < j < |graph| ==>
      || graph[i].source < graph[j].source
      || (graph[i].source == graph[j].source && graph[i].target < graph[j].target)
      || (graph[i].source == graph[j].source && graph[i].target == graph[j].target
          && !(graph[i].data.forward && graph[j].data.forward) && !(graph[i].data.backward && graph[j].data.backward))
  }

  lemma StoredIsOffered(x: InputEdge, e: ContractorEdge, u: NodeID, v: NodeID, forward: bool)
    requires e in BothEnds(x) && Matches(e, u, v, forward)
    ensures if forward then Offers(x, u, v) else Offers(x, v, u)
    ensures e.data.weight == if x.weight < 1 then 1 else x.weight
    ensures e.data.duration == x.duration && e.data.distance == x.distance
  {}

  lemma OfferIsStored(x: InputEdge, u: NodeID, v: NodeID, forward: bool) returns (e: ContractorEdge)
    requires if forward then Offers(x, u, v) else Offers(x, v, u)
    ensures e in BothEnds(x) && Matches(e, u, v, forward)
    ensures e.data.weight == if x.weight < 1 then 1 else x.weight
    ensures e.data.duration == x.duration && e.data.distance == x.distance
  {
    var pair := BothEnds(x);
    e := if Matches(pair[0], u, v, forward) then pair[0] else pair[1];
    assert e in pair;
  }

  /** The least stored values are the least ones that are offered, and there are none without an offer. */
  lemma LeastIsOffered(input: seq<InputEdge>, s: seq<ContractorEdge>, u: NodeID, v: NodeID, best: Best, forward: bool)
    requires IsSortedInput(input, s) && IsLeast(best, s, u, v, forward)
    ensures var from, to := if forward then u else v, if forward then v else u;
            && (best.weight == INVALID_EDGE_WEIGHT <==> forall x :: x in input ==> !Offers(x, from, to))
            && (best.weight != INVALID_EDGE_WEIGHT ==>
                  IsLeastOffer(input, from, to, best.weight, best.duration, best.distance))
  {
    hide IsSortedInput, BothEnds, Offers;
    var from, to := if forward then u else v, if forward then v else u;
    forall x | x in input && Offers(x, from, to)
      ensures best.weight != INVALID_EDGE_WEIGHT && best.weight <= (if x.weight < 1 then 1 else x.weight)
      ensures best.duration <= x.duration && best.distance <= x.distance
    {
      var e := OfferIsStored(x, u, v, forward);
      SortedContains(input, s, e);
      SortedIsMirrored(input, s);
      assert IsLowerBound(best, e.data);
    }
    if best.weight != INVALID_EDGE_WEIGHT {
      var e :| e in s && Matches(e, u, v, forward) && e.data.weight == best.weight;
      var x := OfferOf(input, s, e, u, v, forward);
      var e' :| e' in s && Matches(e', u, v, forward) && e'.data.duration == best.duration;
      var x' := OfferOf(input, s, e', u, v, forward);
      var e'' :| e'' in s && Matches(e'', u, v, forward) && e''.data.distance == best.distance;
      var x'' := OfferOf(input, s, e'', u, v, forward);
      assert OffersWeight(input, from, to, best.weight);
    }
  }

  lemma OfferOf(input: seq<InputEdge>, s: seq<ContractorEdge>, e: ContractorEdge, u: NodeID, v: NodeID, forward: bool)
    returns (x: InputEdge)
    requires IsSortedInput(input, s) && e in s && Matches(e, u, v, forward)
    ensures x in input && if forward then Offers(x, u, v) else Offers(x, v, u)
    ensures e.data.weight == if x.weight < 1 then 1 else x.weight
    ensures e.data.duration == x.duration && e.data.distance == x.distance
  {
    SortedContains(input, s, e);
    x :| x in input && e in BothEnds(x);
    StoredIsOffered(x, e, u, v, forward);
  }

  lemma TurnIsKept(input: seq<InputEdge>, s: seq<ContractorEdge>, e: ContractorEdge, f: Best, b: Best)
    requires IsSortedInput(input, s) && IsEntry(e, s, f, b)
    ensures IsTurnBetween(input, e.source, e.target, e.data.id)
  {
    var n := EntryHasPair(e, s, f, b);
    SortedContains(input, s, s[n]);
    var x :| x in input && s[n] in BothEnds(x);
  }

  /** One edge for both directions, or one of them. */
  lemma MergedEdges(e: ContractorEdge, u: NodeID, v: NodeID, id: nat, f: Best, b: Best)
    requires e in Merged(u, v, id, f, b)
    ensures e.source == u && e.target == v && e.data.id == id && e.data.originalEdges == 1 && !e.data.shortcut
    ensures e.data.forward || e.data.backward
    ensures e.data.forward && e.data.backward <==> f.weight == b.weight
    ensures var best := if e.data.forward then f else b;
            && best.weight != INVALID_EDGE_WEIGHT && e.data.weight == best.weight
            && e.data.duration == best.duration && e.data.distance == best.distance
  {}

  lemma EntryInFields(input: seq<InputEdge>, s: seq<ContractorEdge>, e: ContractorEdge, f: Best, b: Best)
    requires IsSortedInput(input, s) && IsEntry(e, s, f, b)
    ensures IsMergedFrom(input, e)
  {
    var u, v := e.source, e.target;
    TurnIsKept(input, s, e, f, b);
    MergedEdges(e, u, v, e.data.id, f, b);
    LeastIsOffered(input, s, u, v, f, true);
    LeastIsOffered(input, s, u, v, b, false);
    if IsLeastWeight(input, u, v, e.data.weight) && IsLeastWeight(input, v, u, e.data.weight) {
      WeightIsUnique(input, u, v, e.data.weight, f.weight);
      WeightIsUnique(input, v, u, e.data.weight, b.weight);
    }
  }

  lemma WeightIsUnique(input: seq<InputEdge>, u: NodeID, v: NodeID, weight: int, least: int)
    requires IsLeastWeight(input, u, v, weight)
    requires least != INVALID_EDGE_WEIGHT ==> IsLeastWeight(input, u, v, least)
    requires least == INVALID_EDGE_WEIGHT ==> forall x :: x in input ==> !Offers(x, u, v)
    ensures least == weight
  {
    var x :| x in input && Offers(x, u, v) && weight == if x.weight < 1 then 1 else x.weight as int;
  }

  lemma OfferIsThere(input: seq<InputEdge>, s: seq<ContractorEdge>, x: InputEdge, u: NodeID, v: NodeID)
    requires IsSortedInput(input, s) && x in input && Offers(x, u, v) && u != v
    ensures HasEdge(Compacted(s, 0), u, v, true) && HasEdge(Compacted(s, 0), v, u, false)
  {
    hide Compacted, Doubled;
    var d := OfferIsStored(x, u, v, true);
    SortedContains(input, s, d);
    SortedIsMirrored(input, s);
    var e := StoredArcIsCovered(s, d);
    var m: nat :| m < |Compacted(s, 0)| && Compacted(s, 0)[m] == e;
    var e' := StoredAtBothEnds(input, s, m);
  }

  lemma EdgesInFields(input: seq<InputEdge>, s: seq<ContractorEdge>, graph: seq<ContractorEdge>)
    requires IsSortedInput(input, s) && graph == Compacted(s, 0)
    ensures IsOrderedByEnds(graph) && forall e :: e in graph ==> IsMergedFrom(input, e)
    ensures forall x, u, v :: x in input && Offers(x, u, v) && u != v ==>
              HasEdge(graph, u, v, true) && HasEdge(graph, v, u, false)
  {
    hide Compacted, Doubled, IsMergedFrom, IsEntry, Offers, HasEdge, IsSortedInput;
    SortedIsMirrored(input, s);
    forall i, j | 0 <= i < j < |graph|
      ensures Precedes(graph[i], graph[j])
    {
      EntriesAreOrdered(s, 0, i, j);
    }
    forall e | e in graph
      ensures IsMergedFrom(input, e)
    {
      var m: nat :| m < |graph| && graph[m] == e;
      var f, b := EntryIsMerged(s, 0, m);
      assert s[0..] == s;
      EntryInFields(input, s, e, f, b);
    }
    forall x, u, v | x in input && Offers(x, u, v) && u != v
      ensures HasEdge(graph, u, v, true) && HasEdge(graph, v, u, false)
    {
      OfferIsThere(input, s, x, u, v);
    }
  }
}
