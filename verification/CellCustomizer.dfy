/**
 Customization of a multi-level partition: a search from every source of every cell fills
 the matrix of distances from the sources to the destinations of the cell.  From the second
 level on, the search runs on the matrices of the sub-cells instead of their arcs.
 */
module CellCustomizer {
  import opened Common
  import opened Walks
  import opened Search
  import opened MultiLevel
  import Heaps = QueryHeap

  datatype Weight = Invalid | Valid(value: int)

  const MAXIMAL_EDGE_DURATION := 2147483647
  const INVALID_EDGE_DISTANCE := LARGEST_FLOAT

  // Cells and their place in the metric

  datatype CellData = CellData(valueOffset: nat, sources: seq<NodeID>, destinations: seq<NodeID>) {
    function RowBegin(row: nat): nat {
      valueOffset + |destinations| * row
    }

    function End(): nat {
      RowBegin(|sources|)
    }
  }

  datatype CellStorage = CellStorage(cells: seq<CellData>, levelToCellOffset: seq<nat>) {
    predicate HasCell(level: LevelID, id: CellID) {
      && 1 <= level < |levelToCellOffset|
      && levelToCellOffset[level - 1] + id < |cells|
      && levelToCellOffset[level - 1] + id < levelToCellOffset[level]
    }

    function GetCell(level: LevelID, id: CellID): CellData
      requires HasCell(level, id)
    {
      cells[levelToCellOffset[level - 1] + id]
    }
  }

  ghost predicate Distinct(s: seq<NodeID>) {
    forall i, j :: 0 <= i < j < |s| ==> s[i] != s[j]
  }

  ghost predicate HasBoundary(g: Graph, p: Partition, l: LevelID, id: CellID, c: CellData) {
    && Distinct(c.sources) && Distinct(c.destinations)
    && (forall u :: u in c.sources <==> IsSource(g, p, l, id, u))
    && (forall u :: u in c.destinations <==> IsDestination(g, p, l, id, u))
  }

  /** What the construction of the cells establishes. */
  ghost predicate Stores(cells: CellStorage, g: Graph, p: Partition) {
    && |cells.levelToCellOffset| == p.NumberOfLevels()
    && cells.levelToCellOffset[|cells.levelToCellOffset| - 1] == |cells.cells|
    && |p.numCells| == |p.cellIds|
    && (forall l :: 0 <= l < |p.numCells| ==>
          cells.levelToCellOffset[l] + p.numCells[l] == cells.levelToCellOffset[l + 1])
    && (forall i, j :: 0 <= i < j < |cells.cells| ==> cells.cells[i].End() <= cells.cells[j].valueOffset)
    && (forall l, id :: cells.HasCell(l, id) ==> HasBoundary(g, p, l, id, cells.GetCell(l, id)))
  }

  datatype Values = Values(weights: seq<Weight>, durations: seq<int>, distances: seq<real>) {
    ghost predicate Holds(size: nat) {
      |weights| == |durations| == |distances| == size
    }

    ghost function Entry(slot: nat): Distance
      requires Holds(|weights|) && slot < |weights|
    {
      match weights[slot]
      case Invalid => Unreachable
      case Valid(w) => Reachable(Cost(w, durations[slot], distances[slot]))
    }

    /** Where there is no weight, duration and distance are the greatest ones that fit. */
    ghost predicate MarksUnreachable() {
      && Holds(|weights|)
      && forall slot :: 0 <= slot < |weights| && weights[slot] == Invalid ==>
           durations[slot] == 0x7FFF_FFFF && distances[slot] == LARGEST_FLOAT
    }

    ghost predicate IsFresh() {
      MarksUnreachable() && forall slot :: 0 <= slot < |weights| ==> weights[slot] == Invalid
    }
  }

  class CellMetric {
    var weights: seq<Weight>
    var durations: seq<int>
    var distances: seq<real>

    ghost function View(): Values
      reads this
    {
      Values(weights, durations, distances)
    }

    /** A metric in which nothing has been computed yet. */
    constructor (size: nat)
      ensures View().Holds(size) && View().IsFresh()
    {
      weights := seq(size, _ => Invalid);
      durations := seq(size, _ => MAXIMAL_EDGE_DURATION);
      distances := seq(size, _ => INVALID_EDGE_DISTANCE);
    }
  }

  ghost predicate Fits(cells: CellStorage, m: Values) {
    m.Holds(|m.weights|) && forall c :: c in cells.cells ==> c.End() <= |m.weights|
  }

  lemma RowInside(c: CellData, row: nat)
    requires row < |c.sources|
    ensures c.RowBegin(row) + |c.destinations| == c.RowBegin(row + 1) <= c.End()
    ensures c.valueOffset <= c.RowBegin(row)
  {
    assert |c.destinations| * row + |c.destinations| == |c.destinations| * (row + 1);
    assert |c.destinations| * (row + 1) <= |c.destinations| * |c.sources| by {
      MulMonotone(|c.destinations|, row + 1, |c.sources|);
    }
  }

  lemma MulMonotone(k: nat, a: nat, b: nat)
    requires a <= b
    ensures k * a <= k * b
  {}

  lemma RowsApart(c: CellData, row: nat, row': nat)
    requires row < row' < |c.sources|
    ensures c.RowBegin(row) + |c.destinations| <= c.RowBegin(row')
  {
    RowInside(c, row);
    MulMonotone(|c.destinations|, row + 1, row');
  }

  /**
   What the matrix should say about one source and one destination: the shortest way that
   uses only allowed nodes of the cell, and nothing for a source that is not allowed.
   */
  ghost predicate EntryDone(g: Graph, p: Partition, allowed: seq<bool>, c: CellData, m: Values,
                            l: LevelID, id: CellID, row: nat, j: nat)
    requires row < |c.sources| && j < |c.destinations| && m.Holds(|m.weights|) && c.End() <= |m.weights|
  {
    RowInside(c, row);
    var entry := m.Entry(c.RowBegin(row) + j);
    if IsAllowed(allowed, c.sources[row])
    then IsDistance(BaseArcs(g, p, allowed, l, id), c.sources[row], c.destinations[j], entry)
    else entry == Unreachable
  }

  ghost predicate RowDone(g: Graph, p: Partition, allowed: seq<bool>, c: CellData, m: Values,
                          l: LevelID, id: CellID, row: nat)
    requires row < |c.sources| && m.Holds(|m.weights|) && c.End() <= |m.weights|
  {
    forall j :: 0 <= j < |c.destinations| ==> EntryDone(g, p, allowed, c, m, l, id, row, j)
  }

  /** The matrix of a cell is complete and exact. */
  ghost predicate CellDone(g: Graph, p: Partition, allowed: seq<bool>, cells: CellStorage, m: Values,
                           l: LevelID, id: CellID)
    requires cells.HasCell(l, id) && Fits(cells, m)
  {
    var c := cells.GetCell(l, id);
    forall row :: 0 <= row < |c.sources| ==> RowDone(g, p, allowed, c, m, l, id, row)
  }

  ghost predicate LevelDone(g: Graph, p: Partition, allowed: seq<bool>, cells: CellStorage, m: Values, l: LevelID)
    requires Fits(cells, m)
  {
    forall id :: cells.HasCell(l, id) ==> CellDone(g, p, allowed, cells, m, l, id)
  }

  // Relaxing one arc

  function RelaxTo(s: Search, to: NodeID, reached: Label): Search {
    if to !in s.labels then Search(s.labels[to := reached], s.open + {to})
    else if Less(reached.cost, s.labels[to].cost) then Search(s.labels[to := reached], s.open)
    else s
  }

  ghost predicate CanRelax(s: Search, to: NodeID, cost: Cost) {
    to in s.labels && Less(cost, s.labels[to].cost) ==> to in s.open
  }

  method RelaxArc(heap: Heaps.QueryHeap, to: NodeID, cost: Cost, fromClique: bool)
    requires heap.Valid() && to < |heap.nodeIndex|
    requires CanRelax(heap.view, to, cost)
    modifies heap
    ensures heap.Valid() && |heap.nodeIndex| == old(|heap.nodeIndex|)
    ensures heap.view == RelaxTo(old(heap.view), to, Label(cost, fromClique))
  {
    if !heap.WasInserted(to) {
      heap.Insert(to, cost.weight, Heaps.HeapData(fromClique, cost.duration, cost.distance));
    } else if Less(cost, Cost(heap.GetKey(to), heap.GetData(to).duration, heap.GetData(to).distance)) {
      heap.DecreaseKey(to, cost.weight);
      heap.SetData(to, Heaps.HeapData(fromClique, cost.duration, cost.distance));
    }
  }

  /** One more relaxed arc extends the set of arcs that a search has relaxed. */
  lemma RelaxedWithArc(arcs: iset<Arc>, arcs': iset<Arc>, a: Arc, fromClique: bool, pre: Search, s: Search)
    requires a.from in pre.labels && pre.Settled(a.from)
    requires Relaxed(arcs, a.from, fromClique, pre, s) && arcs' == arcs + iset{a}
    requires CanRelax(s, a.to, Plus(pre.labels[a.from].cost, a.cost))
    ensures Relaxed(arcs', a.from, fromClique, pre,
                    RelaxTo(s, a.to, Label(Plus(pre.labels[a.from].cost, a.cost), fromClique)))
  {
    var n := a.from;
    var s' := RelaxTo(s, a.to, Label(Plus(pre.labels[n].cost, a.cost), fromClique));
    forall v | v in s'.labels
      ensures Kept(v, pre, s') || exists b :: ImprovedBy(arcs', b, n, v, fromClique, pre, s')
    {
      if v == a.to && s' != s {
        if v in pre.labels {
          assert Kept(v, pre, s) || exists b :: ImprovedBy(arcs, b, n, v, fromClique, pre, s);
        }
        assert ImprovedBy(arcs', a, n, v, fromClique, pre, s');
      } else if !Kept(v, pre, s) {
        var b :| ImprovedBy(arcs, b, n, v, fromClique, pre, s);
        assert ImprovedBy(arcs', b, n, v, fromClique, pre, s');
      }
    }
    forall b | b in arcs' && b.from == n
      ensures Covers(s', b, pre.labels[n].cost)
    {
      if b in arcs {
        assert Covers(s, b, pre.labels[n].cost);
      }
    }
  }

  /** Relaxing more arcs than required is harmless if those lead back to the node itself. */
  lemma RelaxedSame(arcs: iset<Arc>, arcs': iset<Arc>, n: NodeID, fromClique: bool, pre: Search, s: Search)
    requires pre.Settled(n) && Relaxed(arcs, n, fromClique, pre, s)
    requires forall a: Arc :: a.from == n && a in arcs' ==> a in arcs
    requires forall a: Arc :: a.from == n && a in arcs && a !in arcs' ==> a.to == n
    ensures Relaxed(arcs', n, fromClique, pre, s)
  {
    forall v | v in s.labels
      ensures Kept(v, pre, s) || exists a :: ImprovedBy(arcs', a, n, v, fromClique, pre, s)
    {
      if !Kept(v, pre, s) {
        var a :| ImprovedBy(arcs, a, n, v, fromClique, pre, s);
        assert ImprovedBy(arcs', a, n, v, fromClique, pre, s);
      }
    }
  }

  /** An arc of positive weight never improves a settled node: those all come before `n`. */
  lemma SettledStaysBehind(pre: Search, s: Search, n: NodeID, to: NodeID, c: Cost)
    requires pre.Settled(n) && Descends(pre, s)
    requires forall v :: pre.Settled(v) ==> pre.labels[v].cost.weight <= pre.labels[n].cost.weight
    requires c.weight > 0 || (to == n && c == ZERO)
    ensures CanRelax(s, to, Plus(pre.labels[n].cost, c))
  {
    if to in s.labels && to !in s.open {
      assert s.Settled(to) && pre.Settled(to);
    }
  }

  // Relaxing the arcs of a node

  ghost predicate Fit(g: Graph, p: Partition, cells: CellStorage, allowed: seq<bool>) {
    Along(g, p) && Stores(cells, g, p) && |allowed| == p.numNodes
  }

  lemma CellsOfPartition(g: Graph, p: Partition, cells: CellStorage, l: LevelID, id: CellID)
    requires Along(g, p) && Stores(cells, g, p) && p.HasLevel(l)
    ensures id < p.numCells[l - 1] <==> cells.HasCell(l, id)
  {
    OffsetsGrow(g, p, cells, l);
  }

  lemma {:induction false} OffsetsGrow(g: Graph, p: Partition, cells: CellStorage, l: LevelID)
    requires Along(g, p) && Stores(cells, g, p) && l < |cells.levelToCellOffset|
    ensures cells.levelToCellOffset[l] <= |cells.cells|
    decreases |cells.levelToCellOffset| - l
  {
    if l + 1 < |cells.levelToCellOffset| {
      OffsetsGrow(g, p, cells, l + 1);
    }
  }

  /** The state in which a node just taken off the heap is relaxed. */
  ghost predicate Expanding(p: Partition, allowed: seq<bool>, s: Search, level: LevelID, id: CellID, node: NodeID) {
    && s.Settled(node) && InCell(p, level, id, node) && IsAllowed(allowed, node)
    && forall v :: s.Settled(v) ==> s.labels[v].cost.weight <= s.labels[node].cost.weight
  }

  ghost predicate EdgeArc(g: Graph, p: Partition, allowed: seq<bool>, level: LevelID, node: NodeID, e: Edge, a: Arc) {
    && a == Arc(node, e.target, e.cost) && IsAllowed(allowed, e.target) && e.forward
    && (level == 1 || (level > 1 && !SameCell(p, level - 1, node, e.target)))
  }

  ghost predicate IsEdgeArc(g: Graph, p: Partition, allowed: seq<bool>, level: LevelID, node: NodeID,
                            edges: seq<Edge>, a: Arc) {
    exists e :: e in edges && EdgeArc(g, p, allowed, level, node, e, a)
  }

  ghost function EdgeArcs(g: Graph, p: Partition, allowed: seq<bool>, level: LevelID, node: NodeID,
                          edges: seq<Edge>): iset<Arc> {
    iset a: Arc | IsEdgeArc(g, p, allowed, level, node, edges, a)
  }

  lemma InternalEdgesAreBorderArcs(g: Graph, p: Partition, allowed: seq<bool>, l: LevelID, id: CellID, node: NodeID)
    requires Along(g, p) && p.HasLevel(l) && InCell(p, l, id, node) && IsAllowed(allowed, node)
    ensures forall a: Arc :: a.from == node ==>
      (a in EdgeArcs(g, p, allowed, l, node, InternalEdges(g, p, l, node)) <==> a in BorderArcs(g, p, allowed, l, id))
  {
    var edges := InternalEdges(g, p, l, node);
    assert Splits(g, p, l, node);
    forall a | a in EdgeArcs(g, p, allowed, l, node, edges)
      ensures a in BorderArcs(g, p, allowed, l, id)
    {
      var e :| e in edges && EdgeArc(g, p, allowed, l, node, e, a);
      var i :| 0 <= i < |edges| && edges[i] == e;
      assert e == g.adjacency[node][i];
      assert g.HasEdge(node, e);
    }
    forall a | a in BorderArcs(g, p, allowed, l, id) && a.from == node
      ensures a in EdgeArcs(g, p, allowed, l, node, edges)
    {
      var e :| g.HasEdge(node, e) && e.forward && e.target == a.to && e.cost == a.cost;
      var i :| 0 <= i < |g.adjacency[node]| && g.adjacency[node][i] == e;
      assert edges[i] == e;
      assert EdgeArc(g, p, allowed, l, node, e, a);
    }
  }

  /** The search state after some edges of a node have been relaxed. */
  ghost function RelaxEdges(g: Graph, p: Partition, allowed: seq<bool>, level: LevelID, node: NodeID,
                            edges: seq<Edge>, cost: Cost, pre: Search): Search {
    if edges == [] then pre
    else
      var s := RelaxEdges(g, p, allowed, level, node, edges[..|edges| - 1], cost, pre);
      var e := edges[|edges| - 1];
      if EdgeArc(g, p, allowed, level, node, e, Arc(node, e.target, e.cost))
      then RelaxTo(s, e.target, Label(Plus(cost, e.cost), false))
      else s
  }

  lemma {:induction false} EdgesAreRelaxed(g: Graph, p: Partition, allowed: seq<bool>, level: LevelID, id: CellID,
                                           node: NodeID, edges: seq<Edge>, cost: Cost, pre: Search)
    requires Along(g, p) && Expanding(p, allowed, pre, level, id, node) && pre.open <= pre.labels.Keys
    requires pre.labels[node].cost == cost && forall e :: e in edges ==> g.HasEdge(node, e)
    ensures Relaxed(EdgeArcs(g, p, allowed, level, node, edges), node, false, pre,
                    RelaxEdges(g, p, allowed, level, node, edges, cost, pre))
    decreases |edges|, 0
  {
    if edges == [] {
      assert EdgeArcs(g, p, allowed, level, node, edges) == iset{};
    } else {
      var rest, e := edges[..|edges| - 1], edges[|edges| - 1];
      var a := Arc(node, e.target, e.cost);
      EdgesAreRelaxed(g, p, allowed, level, id, node, rest, cost, pre);
      var before, after := EdgeArcs(g, p, allowed, level, node, rest), EdgeArcs(g, p, allowed, level, node, edges);
      assert edges == rest + [e];
      if EdgeArc(g, p, allowed, level, node, e, a) {
        assert after == before + iset{a};
        EdgeCanRelax(g, p, allowed, level, id, node, rest, e, cost, pre);
        RelaxedWithArc(before, after, a, false, pre, RelaxEdges(g, p, allowed, level, node, rest, cost, pre));
      } else {
        assert after == before;
      }
    }
  }

  lemma {:induction false} EdgeCanRelax(g: Graph, p: Partition, allowed: seq<bool>, level: LevelID, id: CellID,
                                        node: NodeID, rest: seq<Edge>, e: Edge, cost: Cost, pre: Search)
    requires Along(g, p) && Expanding(p, allowed, pre, level, id, node) && pre.open <= pre.labels.Keys
    requires pre.labels[node].cost == cost && forall e :: e in rest ==> g.HasEdge(node, e)
    requires g.HasEdge(node, e) && e.forward
    ensures CanRelax(RelaxEdges(g, p, allowed, level, node, rest, cost, pre), e.target, Plus(cost, e.cost))
    decreases |rest|, 1
  {
    var s := RelaxEdges(g, p, allowed, level, node, rest, cost, pre);
    EdgesAreRelaxed(g, p, allowed, level, id, node, rest, cost, pre);
    RelaxedDescends(EdgeArcs(g, p, allowed, level, node, rest), node, false, pre, s);
    SettledStaysBehind(pre, s, node, e.target, e.cost);
  }

  method RelaxBorder(g: Graph, p: Partition, allowed: seq<bool>, heap: Heaps.QueryHeap,
                     level: LevelID, ghost id: CellID, node: NodeID, cost: Cost)
    requires Along(g, p) && |allowed| == p.numNodes && p.HasLevel(level)
    requires heap.Valid() && |heap.nodeIndex| == p.numNodes && heap.view.open <= heap.view.labels.Keys
    requires Expanding(p, allowed, heap.view, level, id, node)
    requires heap.view.labels[node].cost == cost
    modifies heap
    ensures heap.Valid() && |heap.nodeIndex| == p.numNodes
    ensures heap.view == RelaxEdges(g, p, allowed, level, node, InternalEdges(g, p, level, node), cost, old(heap.view))
  {
    hide Heaps.QueryHeap.Valid, RelaxTo, CanRelax, InternalEdges;
    ghost var pre := heap.view;
    var edges := InternalEdges(g, p, level, node);
    InternalEdgesExist(g, p, level, node);
    for i := 0 to |edges|
      invariant heap.Valid() && |heap.nodeIndex| == p.numNodes
      invariant heap.view == RelaxEdges(g, p, allowed, level, node, edges[..i], cost, pre)
    {
      var e := edges[i];
      var to := e.target;
      assert g.HasEdge(node, e) by { assert e in edges; }
      assert edges[..i + 1][..i] == edges[..i];
      if !allowed[to] {
        continue;
      }
      if e.forward && (level == 1 || p.GetCell(level - 1, node) != p.GetCell(level - 1, to)) {
        EdgeCanRelax(g, p, allowed, level, id, node, edges[..i], e, cost, pre);
        RelaxArc(heap, to, Plus(cost, e.cost), false);
      }
    }
    assert edges[..|edges|] == edges;
  }

  lemma InternalEdgesExist(g: Graph, p: Partition, level: LevelID, node: NodeID)
    requires Along(g, p) && p.HasLevel(level) && node < p.numNodes
    ensures forall e :: e in InternalEdges(g, p, level, node) ==> g.HasEdge(node, e) && e.target < p.numNodes
  {
    assert Splits(g, p, level, node);
  }

  lemma BorderIsRelaxed(g: Graph, p: Partition, allowed: seq<bool>, level: LevelID, id: CellID,
                        node: NodeID, cost: Cost, pre: Search)
    requires Along(g, p) && p.HasLevel(level) && Expanding(p, allowed, pre, level, id, node)
    requires pre.open <= pre.labels.Keys && pre.labels[node].cost == cost
    ensures Relaxed(BorderArcs(g, p, allowed, level, id), node, false, pre,
                    RelaxEdges(g, p, allowed, level, node, InternalEdges(g, p, level, node), cost, pre))
  {
    var edges := InternalEdges(g, p, level, node);
    InternalEdgesExist(g, p, level, node);
    EdgesAreRelaxed(g, p, allowed, level, id, node, edges, cost, pre);
    InternalEdgesAreBorderArcs(g, p, allowed, level, id, node);
    RelaxedSame(EdgeArcs(g, p, allowed, level, node, edges), BorderArcs(g, p, allowed, level, id), node, false, pre,
                RelaxEdges(g, p, allowed, level, node, edges, cost, pre));
  }

  // Relaxing the row of a sub-cell

  function FindRow(sources: seq<NodeID>, node: NodeID): (row: nat)
    ensures row <= |sources|
    ensures row < |sources| ==> sources[row] == node
    ensures row == |sources| ==> node !in sources
  {
    if sources == [] then 0
    else if sources[0] == node then 0
    else 1 + FindRow(sources[1..], node)
  }

  ghost predicate IsScanned(c: CellData, m: Values, row: nat, count: nat, a: Arc)
    requires row < |c.sources| && m.Holds(|m.weights|) && c.End() <= |m.weights| && count <= |c.destinations|
  {
    RowInside(c, row);
    a.from == c.sources[row]
    && exists j :: 0 <= j < count && a.to == c.destinations[j] && m.Entry(c.RowBegin(row) + j) == Reachable(a.cost)
  }

  /** The arcs that the first `count` entries of a row stand for. */
  ghost function ScannedArcs(c: CellData, m: Values, row: nat, count: nat): iset<Arc>
    requires row < |c.sources| && m.Holds(|m.weights|) && c.End() <= |m.weights| && count <= |c.destinations|
  {
    iset a: Arc | IsScanned(c, m, row, count, a)
  }

  lemma {:induction false} WalkEnds(g: Graph, p: Partition, allowed: seq<bool>, l: LevelID, id: CellID,
                                    u: NodeID, w: Walk, v: NodeID)
    requires IsWalk(BaseArcs(g, p, allowed, l, id), u, w, v) && w.Step?
    ensures IsAllowed(allowed, v) && InCell(p, l, id, v)
    decreases w
  {
    if w.rest.Step? {
      WalkEnds(g, p, allowed, l, id, w.arc.to, w.rest, v);
    } else {
      assert IsBaseArc(g, p, allowed, l, id, w.arc);
    }
  }

  /** An entry of a finished row leads to an allowed node, at a positive weight or back to the source. */
  lemma EntryIsArc(g: Graph, p: Partition, allowed: seq<bool>, l: LevelID, id: CellID, u: NodeID, v: NodeID, c: Cost)
    requires Along(g, p) && IsAllowed(allowed, u)
    requires IsDistance(BaseArcs(g, p, allowed, l, id), u, v, Reachable(c))
    ensures IsAllowed(allowed, v)
    ensures if u == v then c == ZERO else c.weight > 0
  {
    var arcs := BaseArcs(g, p, allowed, l, id);
    BaseArcsArePositive(g, p, allowed, l, id);
    var w :| IsWalk(arcs, u, w, v) && Length(w) == c;
    PositiveLength(arcs, u, w, v);
    if u == v {
      assert IsWalk(arcs, u, Done, v) && AtMost(c, Length(Done));
    }
    if w.Step? {
      WalkEnds(g, p, allowed, l, id, u, w, v);
    }
  }

  /** Every valid entry of a row leads to an allowed node, at a positive weight or back to the source. */
  ghost predicate RowFits(allowed: seq<bool>, c: CellData, m: Values, row: nat)
    requires row < |c.sources| && m.Holds(|m.weights|) && c.End() <= |m.weights|
  {
    forall j :: 0 <= j < |c.destinations| ==> EntryFits(allowed, c, m, row, j)
  }

  ghost predicate EntryFits(allowed: seq<bool>, c: CellData, m: Values, row: nat, j: nat)
    requires row < |c.sources| && j < |c.destinations| && m.Holds(|m.weights|) && c.End() <= |m.weights|
  {
    RowInside(c, row);
    var entry := m.Entry(c.RowBegin(row) + j);
    entry.Reachable? ==>
      && IsAllowed(allowed, c.destinations[j])
      && (entry.cost.weight > 0 || (c.destinations[j] == c.sources[row] && entry.cost == ZERO))
  }

  lemma DoneRowFits(g: Graph, p: Partition, allowed: seq<bool>, l: LevelID, sub: CellID,
                    c: CellData, m: Values, row: nat)
    requires Along(g, p) && row < |c.sources| && m.Holds(|m.weights|) && c.End() <= |m.weights|
    requires RowDone(g, p, allowed, c, m, l, sub, row) && IsAllowed(allowed, c.sources[row])
    ensures RowFits(allowed, c, m, row)
  {
    RowInside(c, row);
    forall j | 0 <= j < |c.destinations|
      ensures EntryFits(allowed, c, m, row, j)
    {
      var entry := m.Entry(c.RowBegin(row) + j);
      assert EntryDone(g, p, allowed, c, m, l, sub, row, j);
      if entry.Reachable? {
        EntryIsArc(g, p, allowed, l, sub, c.sources[row], c.destinations[j], entry.cost);
      }
    }
  }

  /** The search state after the first `count` entries of a row have been relaxed. */
  ghost function RelaxRow(c: CellData, m: Values, row: nat, count: nat, cost: Cost, pre: Search): Search
    requires row < |c.sources| && m.Holds(|m.weights|) && c.End() <= |m.weights| && count <= |c.destinations|
  {
    RowInside(c, row);
    if count == 0 then pre
    else
      var s := RelaxRow(c, m, row, count - 1, cost, pre);
      match m.Entry(c.RowBegin(row) + count - 1)
      case Unreachable => s
      case Reachable(d) => RelaxTo(s, c.destinations[count - 1], Label(Plus(cost, d), true))
  }

  ghost predicate BeforeRow(c: CellData, row: nat, cost: Cost, pre: Search)
    requires row < |c.sources|
  {
    && pre.Settled(c.sources[row]) && pre.labels[c.sources[row]].cost == cost && pre.open <= pre.labels.Keys
    && forall v :: pre.Settled(v) ==> pre.labels[v].cost.weight <= cost.weight
  }

  lemma {:induction false} RowIsRelaxed(allowed: seq<bool>, c: CellData, m: Values, row: nat, count: nat,
                                        cost: Cost, pre: Search)
    requires row < |c.sources| && m.Holds(|m.weights|) && c.End() <= |m.weights| && count <= |c.destinations|
    requires RowFits(allowed, c, m, row) && BeforeRow(c, row, cost, pre)
    ensures Relaxed(ScannedArcs(c, m, row, count), c.sources[row], true, pre, RelaxRow(c, m, row, count, cost, pre))
    decreases count, 0
  {
    hide Relaxed, CanRelax, RelaxTo, RowFits, IsScanned, ScannedArcs;
    RowInside(c, row);
    if count > 0 {
      var node, j := c.sources[row], count - 1;
      RowIsRelaxed(allowed, c, m, row, j, cost, pre);
      OneMoreScanned(c, m, row, j);
      var before, after := ScannedArcs(c, m, row, j), ScannedArcs(c, m, row, count);
      match m.Entry(c.RowBegin(row) + j)
      case Unreachable =>
        assert after == before;
      case Reachable(d) =>
        var a := Arc(node, c.destinations[j], d);
        EntryCanRelax(allowed, c, m, row, j, cost, pre);
        RelaxedWithArc(before, after, a, true, pre, RelaxRow(c, m, row, j, cost, pre));
    } else {
      NothingScanned(c, m, row, pre);
    }
  }

  lemma NothingScanned(c: CellData, m: Values, row: nat, pre: Search)
    requires row < |c.sources| && m.Holds(|m.weights|) && c.End() <= |m.weights|
    requires c.sources[row] in pre.labels && pre.open <= pre.labels.Keys
    ensures Relaxed(ScannedArcs(c, m, row, 0), c.sources[row], true, pre, pre)
  {
    assert ScannedArcs(c, m, row, 0) == iset{};
  }

  lemma OneMoreScanned(c: CellData, m: Values, row: nat, j: nat)
    requires row < |c.sources| && m.Holds(|m.weights|) && c.End() <= |m.weights| && j < |c.destinations|
    ensures c.RowBegin(row) + j < |m.weights|
    ensures ScannedArcs(c, m, row, j + 1) == ScannedArcs(c, m, row, j) +
              match m.Entry(c.RowBegin(row) + j)
              case Unreachable => iset{}
              case Reachable(d) => iset{Arc(c.sources[row], c.destinations[j], d)}
  {
    RowInside(c, row);
    if m.Entry(c.RowBegin(row) + j).Reachable? {
      assert IsScanned(c, m, row, j + 1, Arc(c.sources[row], c.destinations[j], m.Entry(c.RowBegin(row) + j).cost));
    }
  }

  /**
   The next entry of a row is invalid, or its destination is allowed and can be relaxed, so
   that no entry is ever skipped without advancing all iterators.
   */
  lemma {:induction false} EntryCanRelax(allowed: seq<bool>, c: CellData, m: Values, row: nat, j: nat,
                                         cost: Cost, pre: Search)
    requires row < |c.sources| && m.Holds(|m.weights|) && c.End() <= |m.weights| && j < |c.destinations|
    requires RowFits(allowed, c, m, row) && BeforeRow(c, row, cost, pre)
    ensures c.RowBegin(row) + j < |m.weights|
    ensures match m.Entry(c.RowBegin(row) + j)
            case Unreachable => true
            case Reachable(d) =>
              && IsAllowed(allowed, c.destinations[j])
              && CanRelax(RelaxRow(c, m, row, j, cost, pre), c.destinations[j], Plus(cost, d))
    decreases j, 1
  {
    RowInside(c, row);
    assert EntryFits(allowed, c, m, row, j);
    match m.Entry(c.RowBegin(row) + j)
    case Unreachable =>
    case Reachable(d) =>
      var s := RelaxRow(c, m, row, j, cost, pre);
      RowIsRelaxed(allowed, c, m, row, j, cost, pre);
      RelaxedDescends(ScannedArcs(c, m, row, j), c.sources[row], true, pre, s);
      SettledStaysBehind(pre, s, c.sources[row], c.destinations[j], d);
  }

  /** A valid entry of a finished row, other than that of the source itself, is a clique arc. */
  lemma RowHoldsCliqueArcs(g: Graph, p: Partition, allowed: seq<bool>, c: CellData, m: Values,
                           level: LevelID, id: CellID, row: nat, a: Arc)
    requires Along(g, p) && level > 1 && p.HasLevel(level) && InCell(p, level, id, a.from) && IsAllowed(allowed, a.from)
    requires m.Holds(|m.weights|) && c.End() <= |m.weights| && row < |c.sources| && c.sources[row] == a.from
    requires HasBoundary(g, p, level - 1, p.GetCell(level - 1, a.from), c)
    requires RowDone(g, p, allowed, c, m, level - 1, p.GetCell(level - 1, a.from), row)
    requires IsScanned(c, m, row, |c.destinations|, a) && a.to != a.from
    ensures a in CliqueArcs(g, p, allowed, level, id)
  {
    var sub := p.GetCell(level - 1, a.from);
    RowInside(c, row);
    var j :| && 0 <= j < |c.destinations| && a.to == c.destinations[j]
             && m.Entry(c.RowBegin(row) + j) == Reachable(a.cost);
    assert EntryDone(g, p, allowed, c, m, level - 1, sub, row, j);
    assert a.from in c.sources && a.to in c.destinations;
    EntryIsArc(g, p, allowed, level - 1, sub, a.from, a.to, a.cost);
    IsClique(g, p, allowed, level, id, a.from, a.to, a.cost);
  }

  /** Every clique arc of a source is an entry of its row. */
  lemma CliqueArcIsInRow(g: Graph, p: Partition, allowed: seq<bool>, c: CellData, m: Values,
                         level: LevelID, id: CellID, row: nat, a: Arc)
    requires p.Valid() && level > 1 && p.HasLevel(level) && a.from < p.numNodes && IsAllowed(allowed, a.from)
    requires m.Holds(|m.weights|) && c.End() <= |m.weights| && row < |c.sources| && c.sources[row] == a.from
    requires HasBoundary(g, p, level - 1, p.GetCell(level - 1, a.from), c)
    requires RowDone(g, p, allowed, c, m, level - 1, p.GetCell(level - 1, a.from), row)
    requires a in CliqueArcs(g, p, allowed, level, id)
    ensures IsScanned(c, m, row, |c.destinations|, a)
  {
    var sub := p.GetCell(level - 1, a.from);
    RowInside(c, row);
    assert a.to in c.destinations;
    var j :| 0 <= j < |c.destinations| && c.destinations[j] == a.to;
    assert EntryDone(g, p, allowed, c, m, level - 1, sub, row, j);
    DistanceIsUnique(BaseArcs(g, p, allowed, level - 1, sub), a.from, a.to, Reachable(a.cost),
                     m.Entry(c.RowBegin(row) + j));
  }

  /** The loop over a row of a sub-cell, with its four iterators. */
  method ScanRow(allowed: seq<bool>, c: CellData, metric: CellMetric, heap: Heaps.QueryHeap, row: nat, cost: Cost)
    requires metric.View().Holds(|metric.weights|) && c.End() <= |metric.weights|
    requires row < |c.sources| && RowFits(allowed, c, metric.View(), row)
    requires forall v :: v in c.destinations ==> v < |allowed|
    requires heap.Valid() && |heap.nodeIndex| == |allowed|
    requires BeforeRow(c, row, cost, heap.view)
    modifies heap
    ensures heap.Valid() && |heap.nodeIndex| == |allowed|
    ensures heap.view == RelaxRow(c, metric.View(), row, |c.destinations|, cost, old(heap.view))
  {
    ghost var pre, m := heap.view, metric.View();
    RowInside(c, row);
    var begin, end := c.RowBegin(row), c.RowBegin(row) + |c.destinations|;
    var destination, duration, distance := 0, begin, begin;
    for slot := begin to end
      invariant begin + destination == slot && destination <= |c.destinations| && duration == slot == distance
      invariant heap.Valid() && |heap.nodeIndex| == |allowed|
      invariant heap.view == RelaxRow(c, m, row, destination, cost, pre)
    {
      EntryCanRelax(allowed, c, m, row, destination, cost, pre);
      var weight := metric.weights[slot];
      if weight != Invalid {
        var to := c.destinations[destination];
        assert to in c.destinations;
        if !allowed[to] {
          // never taken, so that the iterators stay in lockstep
          assert false;
          continue;
        }
        var arcCost := Cost(weight.value, metric.durations[duration], metric.distances[distance]);
        assert m.Entry(slot) == Reachable(arcCost);
        RelaxArc(heap, to, Plus(cost, arcCost), true);
      }
      destination := destination + 1;
      duration := duration + 1;
      distance := distance + 1;
    }
    assert destination == |c.destinations|;
  }

  lemma ScannedIsClique(g: Graph, p: Partition, allowed: seq<bool>, cells: CellStorage, m: Values,
                        level: LevelID, id: CellID, node: NodeID, row: nat, pre: Search, s: Search)
    requires Fit(g, p, cells, allowed) && Fits(cells, m) && level > 1 && p.HasLevel(level)
    requires InCell(p, level, id, node) && IsAllowed(allowed, node) && pre.Settled(node)
    requires var sub := p.GetCell(level - 1, node);
             cells.HasCell(level - 1, sub) && CellDone(g, p, allowed, cells, m, level - 1, sub)
    requires var c := cells.GetCell(level - 1, p.GetCell(level - 1, node));
             && c in cells.cells && row < |c.sources| && c.sources[row] == node
             && Relaxed(ScannedArcs(c, m, row, |c.destinations|), node, true, pre, s)
    ensures Relaxed(CliqueArcs(g, p, allowed, level, id), node, true, pre, s)
  {
    var c := cells.GetCell(level - 1, p.GetCell(level - 1, node));
    var scanned, clique := ScannedArcs(c, m, row, |c.destinations|), CliqueArcs(g, p, allowed, level, id);
    assert HasBoundary(g, p, level - 1, p.GetCell(level - 1, node), c);
    assert RowDone(g, p, allowed, c, m, level - 1, p.GetCell(level - 1, node), row);
    forall a: Arc | a.from == node && a in clique
      ensures a in scanned
    {
      CliqueArcIsInRow(g, p, allowed, c, m, level, id, row, a);
    }
    forall a: Arc | a.from == node && a in scanned && a !in clique
      ensures a.to == node
    {
      if a.to != node {
        RowHoldsCliqueArcs(g, p, allowed, c, m, level, id, row, a);
      }
    }
    RelaxedSame(scanned, clique, node, true, pre, s);
  }

  /** A node that is not a source of its sub-cell has no clique arcs. */
  lemma NoRowNoClique(g: Graph, p: Partition, allowed: seq<bool>, cells: CellStorage,
                      level: LevelID, id: CellID, node: NodeID, s: Search)
    requires Fit(g, p, cells, allowed) && level > 1 && p.HasLevel(level) && InCell(p, level, id, node)
    requires cells.HasCell(level - 1, p.GetCell(level - 1, node))
    requires node !in cells.GetCell(level - 1, p.GetCell(level - 1, node)).sources
    requires s.Settled(node) && s.open <= s.labels.Keys
    ensures Relaxed(CliqueArcs(g, p, allowed, level, id), node, true, s, s)
  {
    assert HasBoundary(g, p, level - 1, p.GetCell(level - 1, node),
                       cells.GetCell(level - 1, p.GetCell(level - 1, node)));
    forall a | a in CliqueArcs(g, p, allowed, level, id)
      ensures a.from != node
    {
      assert IsCliqueArc(g, p, allowed, level, id, a);
    }
  }

  method RelaxClique(g: Graph, p: Partition, cells: CellStorage, allowed: seq<bool>, metric: CellMetric,
                     heap: Heaps.QueryHeap, level: LevelID, ghost id: CellID, node: NodeID, cost: Cost)
    requires Fit(g, p, cells, allowed) && p.HasLevel(level) && level > 1
    requires Fits(cells, metric.View()) && LevelDone(g, p, allowed, cells, metric.View(), level - 1)
    requires heap.Valid() && |heap.nodeIndex| == p.numNodes
    requires Expanding(p, allowed, heap.view, level, id, node) && heap.view.labels[node].cost == cost
    requires heap.view.open <= heap.view.labels.Keys
    modifies heap
    ensures heap.Valid() && |heap.nodeIndex| == p.numNodes
    ensures Relaxed(CliqueArcs(g, p, allowed, level, id), node, true, old(heap.view), heap.view)
  {
    ghost var pre := heap.view;
    var subcellId := p.GetCell(level - 1, node);
    CellsOfPartition(g, p, cells, level - 1, subcellId);
    var c := cells.GetCell(level - 1, subcellId);
    assert c in cells.cells && HasBoundary(g, p, level - 1, subcellId, c);
    var row := FindRow(c.sources, node);
    if row == |c.sources| {
      // the ranges of the row are empty
      NoRowNoClique(g, p, allowed, cells, level, id, node, pre);
    } else {
      assert CellDone(g, p, allowed, cells, metric.View(), level - 1, subcellId);
      DoneRowFits(g, p, allowed, level - 1, subcellId, c, metric.View(), row);
      ScanRow(allowed, c, metric, heap, row, cost);
      RowIsRelaxed(allowed, c, metric.View(), row, |c.destinations|, cost, pre);
      ScannedIsClique(g, p, allowed, cells, metric.View(), level, id, node, row, pre, heap.view);
    }
  }

  method RelaxNode(g: Graph, p: Partition, cells: CellStorage, allowed: seq<bool>, metric: CellMetric,
                   heap: Heaps.QueryHeap, level: LevelID, ghost id: CellID, node: NodeID, cost: Cost)
    returns (ghost mid: Search)
    requires Fit(g, p, cells, allowed) && p.HasLevel(level) && Fits(cells, metric.View())
    requires level > 1 ==> LevelDone(g, p, allowed, cells, metric.View(), level - 1)
    requires heap.Valid() && |heap.nodeIndex| == p.numNodes && heap.view.open <= heap.view.labels.Keys
    requires Expanding(p, allowed, heap.view, level, id, node) && heap.view.labels[node].cost == cost
    modifies heap
    ensures heap.Valid() && |heap.nodeIndex| == p.numNodes
    ensures node in mid.labels && node in old(heap.view).labels
    ensures if old(heap.view).labels[node].fromClique then mid == old(heap.view)
            else Relaxed(CliqueArcs(g, p, allowed, level, id), node, true, old(heap.view), mid)
    ensures Relaxed(BorderArcs(g, p, allowed, level, id), node, false, mid, heap.view)
  {
    ghost var pre := heap.view;
    if level != 1 {
      if !heap.GetData(node).fromClique {
        RelaxClique(g, p, cells, allowed, metric, heap, level, id, node, cost);
      }
    }
    mid := heap.view;
    StillExpanding(g, p, allowed, level, id, node, pre, mid);
    BorderIsRelaxed(g, p, allowed, level, id, node, cost, mid);
    RelaxBorder(g, p, allowed, heap, level, id, node, cost);
  }

  lemma StillExpanding(g: Graph, p: Partition, allowed: seq<bool>, level: LevelID, id: CellID, node: NodeID,
                       pre: Search, mid: Search)
    requires Expanding(p, allowed, pre, level, id, node)
    requires mid == pre || Relaxed(CliqueArcs(g, p, allowed, level, id), node, true, pre, mid)
    ensures Expanding(p, allowed, mid, level, id, node) && mid.labels[node] == pre.labels[node]
  {
    if mid != pre {
      RelaxedDescends(CliqueArcs(g, p, allowed, level, id), node, true, pre, mid);
    }
  }

  // The search from one source

  lemma DoneLevelHasDistances(g: Graph, p: Partition, cells: CellStorage, allowed: seq<bool>, m: Values, l: LevelID)
    requires Fit(g, p, cells, allowed) && p.HasLevel(l) && Fits(cells, m) && LevelDone(g, p, allowed, cells, m, l)
    ensures HasDistances(g, p, allowed, l)
  {
    forall id, u, v | IsSource(g, p, l, id, u) && IsDestination(g, p, l, id, v)
                      && IsAllowed(allowed, u) && IsAllowed(allowed, v)
      ensures exists d :: IsDistance(BaseArcs(g, p, allowed, l, id), u, v, d)
    {
      CellsOfPartition(g, p, cells, l, id);
      var c := cells.GetCell(l, id);
      assert HasBoundary(g, p, l, id, c) && CellDone(g, p, allowed, cells, m, l, id);
      assert u in c.sources && v in c.destinations;
      var row :| 0 <= row < |c.sources| && c.sources[row] == u;
      var j :| 0 <= j < |c.destinations| && c.destinations[j] == v;
      assert RowDone(g, p, allowed, c, m, l, id, row) && EntryDone(g, p, allowed, c, m, l, id, row, j);
      RowInside(c, row);
    }
  }

  lemma OverlayFits(g: Graph, p: Partition, allowed: seq<bool>, level: LevelID, id: CellID)
    requires Along(g, p) && p.HasLevel(level) && (level > 1 ==> HasDistances(g, p, allowed, level - 1))
    ensures ArcsFit(CliqueArcs(g, p, allowed, level, id), BorderArcs(g, p, allowed, level, id))
  {
    var clique := CliqueArcs(g, p, allowed, level, id);
    OverlayIsPositive(g, p, allowed, level, id);
    forall a, b | a in clique && b in clique && a.to == b.from && a.from != b.to
      ensures exists c :: IsShortcut(clique, a, b, c)
    {
      var c := CliqueChains(g, p, allowed, level, id, a, b);
      assert IsShortcut(clique, a, b, c);
    }
  }

  /** The search never leaves the allowed nodes of the cell. */
  lemma LabelsStayInside(g: Graph, p: Partition, allowed: seq<bool>, level: LevelID, id: CellID,
                         source: NodeID, w: Walk, v: NodeID)
    requires Along(g, p) && p.HasLevel(level) && InCell(p, level, id, source) && IsAllowed(allowed, source)
    requires IsWalk(OverlayArcs(g, p, allowed, level, id), source, w, v)
    ensures InCell(p, level, id, v) && IsAllowed(allowed, v)
  {
    var base := Expand(g, p, allowed, level, id, source, w, v);
    if base.Step? {
      WalkEnds(g, p, allowed, level, id, source, base, v);
    }
  }

  function Found(s: Search, v: NodeID): Distance {
    if v in s.labels then Reachable(s.labels[v].cost) else Unreachable
  }

  /** When the heap is empty or all allowed destinations are settled, the labels are the distances. */
  lemma SearchIsExact(g: Graph, p: Partition, allowed: seq<bool>, level: LevelID, id: CellID,
                      source: NodeID, s: Search, v: NodeID)
    requires Along(g, p) && p.HasLevel(level) && (level > 1 ==> HasDistances(g, p, allowed, level - 1))
    requires InCell(p, level, id, source) && IsAllowed(allowed, source)
    requires Inv(CliqueArcs(g, p, allowed, level, id), BorderArcs(g, p, allowed, level, id), source, s)
    requires s.open == {} || (IsAllowed(allowed, v) ==> s.Settled(v))
    ensures IsDistance(OverlayArcs(g, p, allowed, level, id), source, v, Found(s, v))
  {
    var arcs := OverlayArcs(g, p, allowed, level, id);
    var clique, border := CliqueArcs(g, p, allowed, level, id), BorderArcs(g, p, allowed, level, id);
    OverlayFits(g, p, allowed, level, id);
    if v in s.labels {
      assert HasWalk(arcs, source, v, s.labels[v].cost);
      var w :| IsWalk(arcs, source, w, v) && Length(w) == s.labels[v].cost;
      LabelsStayInside(g, p, allowed, level, id, source, w, v);
      assert s.Settled(v);
    } else {
      forall w | IsWalk(arcs, source, w, v)
        ensures false
      {
        LabelsStayInside(g, p, allowed, level, id, source, w, v);
        if s.open == {} {
          ExhaustedIsComplete(clique, border, source, s, v, w);
        }
      }
    }
  }

  ghost function NodesBelow(n: nat): (s: set<NodeID>)
    ensures forall v: NodeID :: v in s <==> v < n
  {
    if n == 0 then {} else NodesBelow(n - 1) + {n - 1}
  }

  method AllowedOf(allowed: seq<bool>, destinations: seq<NodeID>) returns (result: set<NodeID>)
    requires forall v :: v in destinations ==> v < |allowed|
    ensures forall v :: v in result <==> v in destinations && IsAllowed(allowed, v)
  {
    result := {};
    for i := 0 to |destinations|
      invariant forall v :: v in result <==> v in destinations[..i] && IsAllowed(allowed, v)
    {
      assert destinations[i] in destinations;
      if allowed[destinations[i]] {
        result := result + {destinations[i]};
      }
    }
    assert destinations[..|destinations|] == destinations;
  }

  /** What holds during the search from one source. */
  ghost predicate Searching(g: Graph, p: Partition, allowed: seq<bool>, level: LevelID, id: CellID,
                            source: NodeID, s: Search) {
    Inv(CliqueArcs(g, p, allowed, level, id), BorderArcs(g, p, allowed, level, id), source, s)
  }

  /** One round of the search: the least node is taken off the heap and relaxed. */
  method ExpandLeast(g: Graph, p: Partition, cells: CellStorage, allowed: seq<bool>, metric: CellMetric,
                     heap: Heaps.QueryHeap, level: LevelID, ghost id: CellID, ghost source: NodeID)
    returns (node: NodeID)
    requires Fit(g, p, cells, allowed) && p.HasLevel(level) && Fits(cells, metric.View())
    requires level > 1 ==> LevelDone(g, p, allowed, cells, metric.View(), level - 1)
    requires heap.Valid() && |heap.nodeIndex| == p.numNodes && !heap.Empty()
    requires InCell(p, level, id, source) && IsAllowed(allowed, source)
    requires Searching(g, p, allowed, level, id, source, heap.view)
    modifies heap
    ensures heap.Valid() && |heap.nodeIndex| == p.numNodes
    ensures Searching(g, p, allowed, level, id, source, heap.view)
    ensures node < p.numNodes && !old(heap.view).Settled(node)
    ensures forall v :: heap.view.Settled(v) <==> old(heap.view).Settled(v) || v == node
  {
    hide Heaps.QueryHeap.Valid, LevelDone, IsStep, Expanding;
    ghost var clique, border := CliqueArcs(g, p, allowed, level, id), BorderArcs(g, p, allowed, level, id);
    if level > 1 {
      DoneLevelHasDistances(g, p, cells, allowed, metric.View(), level - 1);
    }
    OverlayFits(g, p, allowed, level, id);
    ghost var before := heap.view;
    node := heap.DeleteMin();
    var cost := Cost(heap.GetKey(node), heap.GetData(node).duration, heap.GetData(node).distance);
    PoppedIsExpanding(g, p, allowed, level, id, source, before, node);
    ghost var mid := RelaxNode(g, p, cells, allowed, metric, heap, level, id, node, cost);
    StepKeepsInv(clique, border, source, node, before, mid, heap.view);
  }

  /** The nodes and the allowed destinations that are not settled yet. */
  ghost predicate Remains(numNodes: nat, allowed: seq<bool>, destinations: seq<NodeID>, s: Search,
                          unsettled: set<NodeID>, remaining: set<NodeID>) {
    && (forall v: NodeID :: v in unsettled <==> v < numNodes && !s.Settled(v))
    && (forall v: NodeID :: v in remaining <==> v in destinations && IsAllowed(allowed, v) && !s.Settled(v))
  }

  lemma StillRemains(numNodes: nat, allowed: seq<bool>, destinations: seq<NodeID>, s: Search, s': Search,
                     unsettled: set<NodeID>, remaining: set<NodeID>, node: NodeID)
    requires Remains(numNodes, allowed, destinations, s, unsettled, remaining)
    requires forall v :: s'.Settled(v) <==> s.Settled(v) || v == node
    ensures Remains(numNodes, allowed, destinations, s', unsettled - {node}, remaining - {node})
  {}

  lemma SearchStarts(g: Graph, p: Partition, allowed: seq<bool>, level: LevelID, id: CellID, source: NodeID, s: Search)
    requires s == Start(source)
    ensures Searching(g, p, allowed, level, id, source, s)
  {
    StartInv(CliqueArcs(g, p, allowed, level, id), BorderArcs(g, p, allowed, level, id), source);
  }

  method SearchFrom(g: Graph, p: Partition, cells: CellStorage, allowed: seq<bool>, metric: CellMetric,
                    heap: Heaps.QueryHeap, level: LevelID, ghost id: CellID, source: NodeID, destinations: seq<NodeID>)
    requires Fit(g, p, cells, allowed) && p.HasLevel(level) && Fits(cells, metric.View())
    requires level > 1 ==> LevelDone(g, p, allowed, cells, metric.View(), level - 1)
    requires heap.Valid() && |heap.nodeIndex| == p.numNodes
    requires InCell(p, level, id, source) && IsAllowed(allowed, source)
    requires forall v :: v in destinations ==> v < p.numNodes
    modifies heap
    ensures heap.Valid() && |heap.nodeIndex| == p.numNodes
    ensures Searching(g, p, allowed, level, id, source, heap.view)
    ensures heap.view.open == {} || forall v :: v in destinations && IsAllowed(allowed, v) ==> heap.view.Settled(v)
  {
    var remaining := AllowedOf(allowed, destinations);
    heap.Clear();
    heap.Insert(source, 0, Heaps.HeapData(false, 0, 0.0));
    SearchStarts(g, p, allowed, level, id, source, heap.view);

    ghost var unsettled := NodesBelow(p.numNodes);
    while !heap.Empty() && remaining != {}
      invariant heap.Valid() && |heap.nodeIndex| == p.numNodes
      invariant Searching(g, p, allowed, level, id, source, heap.view)
      invariant Remains(p.numNodes, allowed, destinations, heap.view, unsettled, remaining)
      decreases unsettled
    {
      ghost var before := heap.view;
      var node := ExpandLeast(g, p, cells, allowed, metric, heap, level, id, source);
      StillRemains(p.numNodes, allowed, destinations, before, heap.view, unsettled, remaining, node);
      remaining := remaining - {node};
      unsettled := unsettled - {node};
    }
    heap.EmptyView();
  }

  lemma PoppedIsExpanding(g: Graph, p: Partition, allowed: seq<bool>, level: LevelID, id: CellID,
                          source: NodeID, s: Search, node: NodeID)
    requires Along(g, p) && p.HasLevel(level) && InCell(p, level, id, source) && IsAllowed(allowed, source)
    requires Inv(CliqueArcs(g, p, allowed, level, id), BorderArcs(g, p, allowed, level, id), source, s)
    requires IsLeastOpen(s, node)
    ensures Expanding(p, allowed, Pop(s, node), level, id, node)
  {
    var arcs := OverlayArcs(g, p, allowed, level, id);
    assert HasWalk(arcs, source, node, s.labels[node].cost);
    var w :| IsWalk(arcs, source, w, node) && Length(w) == s.labels[node].cost;
    LabelsStayInside(g, p, allowed, level, id, source, w, node);
    forall v | Pop(s, node).Settled(v)
      ensures s.labels[v].cost.weight <= s.labels[node].cost.weight
    {
      assert v == node || s.Settled(v);
    }
  }

  // Filling the metric

  /** Two metrics hold the same entries in the slots from `lo` to `hi`. */
  ghost predicate Agree(m: Values, m': Values, lo: nat, hi: nat) {
    && m.Holds(|m.weights|) && m'.Holds(|m.weights|)
    && forall slot :: lo <= slot < hi && slot < |m.weights| ==> m.Entry(slot) == m'.Entry(slot)
  }

  ghost predicate SameOutside(m: Values, m': Values, lo: nat, hi: nat) {
    lo <= hi && Agree(m, m', 0, lo) && Agree(m, m', hi, |m.weights|)
  }

  method FillRow(c: CellData, metric: CellMetric, heap: Heaps.QueryHeap, row: nat)
    requires metric.View().Holds(|metric.weights|) && c.End() <= |metric.weights| && row < |c.sources|
    requires heap.Valid() && forall v :: v in c.destinations ==> v < |heap.nodeIndex|
    modifies metric
    ensures metric.View().Holds(old(|metric.weights|))
    ensures c.RowBegin(row) + |c.destinations| <= |metric.weights|
    ensures SameOutside(old(metric.View()), metric.View(), c.RowBegin(row), c.RowBegin(row) + |c.destinations|)
    ensures forall j :: 0 <= j < |c.destinations| ==>
              metric.View().Entry(c.RowBegin(row) + j) == Found(heap.view, c.destinations[j])
    ensures old(metric.View().MarksUnreachable()) ==> metric.View().MarksUnreachable()
  {
    hide Heaps.QueryHeap.Valid;
    RowInside(c, row);
    var begin := c.RowBegin(row);
    for j := 0 to |c.destinations|
      invariant metric.View().Holds(old(|metric.weights|))
      invariant SameOutside(old(metric.View()), metric.View(), begin, begin + |c.destinations|)
      invariant forall i :: 0 <= i < j ==> metric.View().Entry(begin + i) == Found(heap.view, c.destinations[i])
      invariant old(metric.View().MarksUnreachable()) ==> metric.View().MarksUnreachable()
    {
      var destination := c.destinations[j];
      assert destination in c.destinations;
      heap.InsertedView(destination);
      var inserted := heap.WasInserted(destination);
      var weight := if inserted then Valid(heap.GetKey(destination)) else Invalid;
      var duration := if inserted then heap.GetData(destination).duration else MAXIMAL_EDGE_DURATION;
      var distance := if inserted then heap.GetData(destination).distance else INVALID_EDGE_DISTANCE;
      metric.weights := metric.weights[begin + j := weight];
      metric.durations := metric.durations[begin + j := duration];
      metric.distances := metric.distances[begin + j := distance];
    }
  }

  lemma RowDoneFrame(g: Graph, p: Partition, allowed: seq<bool>, c: CellData, m: Values, m': Values,
                     l: LevelID, id: CellID, row: nat)
    requires row < |c.sources| && m.Holds(|m.weights|) && c.End() <= |m.weights|
    requires Agree(m, m', c.RowBegin(row), c.RowBegin(row) + |c.destinations|)
    requires RowDone(g, p, allowed, c, m, l, id, row)
    ensures RowDone(g, p, allowed, c, m', l, id, row)
  {
    RowInside(c, row);
    forall j | 0 <= j < |c.destinations|
      ensures EntryDone(g, p, allowed, c, m', l, id, row, j)
    {
      assert EntryDone(g, p, allowed, c, m, l, id, row, j);
      assert m.Entry(c.RowBegin(row) + j) == m'.Entry(c.RowBegin(row) + j);
    }
  }

  lemma CellDoneFrame(g: Graph, p: Partition, allowed: seq<bool>, cells: CellStorage, m: Values, m': Values,
                      l: LevelID, id: CellID)
    requires cells.HasCell(l, id) && Fits(cells, m) && CellDone(g, p, allowed, cells, m, l, id)
    requires Agree(m, m', cells.GetCell(l, id).valueOffset, cells.GetCell(l, id).End())
    ensures Fits(cells, m') && CellDone(g, p, allowed, cells, m', l, id)
  {
    var c := cells.GetCell(l, id);
    assert c in cells.cells;
    forall row | 0 <= row < |c.sources|
      ensures RowDone(g, p, allowed, c, m', l, id, row)
    {
      RowInside(c, row);
      RowDoneFrame(g, p, allowed, c, m, m', l, id, row);
    }
  }

  /** Different cells occupy different parts of the metric. */
  lemma CellsApart(g: Graph, p: Partition, cells: CellStorage, l: LevelID, id: CellID, l': LevelID, id': CellID)
    requires Stores(cells, g, p) && cells.HasCell(l, id) && cells.HasCell(l', id') && (l, id) != (l', id')
    ensures var c, c' := cells.GetCell(l, id), cells.GetCell(l', id');
            c.End() <= c'.valueOffset || c'.End() <= c.valueOffset
  {
    if l < l' {
      OffsetsSorted(g, p, cells, l, l' - 1);
    } else if l' < l {
      OffsetsSorted(g, p, cells, l', l - 1);
    }
  }

  lemma {:induction false} OffsetsSorted(g: Graph, p: Partition, cells: CellStorage, i: nat, j: nat)
    requires Stores(cells, g, p) && i <= j < |cells.levelToCellOffset|
    ensures cells.levelToCellOffset[i] <= cells.levelToCellOffset[j]
    decreases j
  {
    if i < j {
      OffsetsSorted(g, p, cells, i, j - 1);
    }
  }

  ghost predicate CellFresh(cells: CellStorage, m: Values, l: LevelID, id: CellID)
    requires cells.HasCell(l, id) && Fits(cells, m)
  {
    var c := cells.GetCell(l, id);
    assert c in cells.cells;
    forall slot :: c.valueOffset <= slot < c.End() ==> m.Entry(slot) == Unreachable
  }

  // Customizing a cell

  /** The labels of a finished search are what its row should hold. */
  lemma SearchFillsRow(g: Graph, p: Partition, allowed: seq<bool>, c: CellData, m: Values,
                       level: LevelID, id: CellID, row: nat, s: Search)
    requires Along(g, p) && p.HasLevel(level) && HasBoundary(g, p, level, id, c)
    requires level > 1 ==> HasDistances(g, p, allowed, level - 1)
    requires row < |c.sources| && IsAllowed(allowed, c.sources[row])
    requires Searching(g, p, allowed, level, id, c.sources[row], s)
    requires s.open == {} || forall v :: v in c.destinations && IsAllowed(allowed, v) ==> s.Settled(v)
    requires m.Holds(|m.weights|) && c.End() <= |m.weights| && c.RowBegin(row) + |c.destinations| <= |m.weights|
    requires forall j :: 0 <= j < |c.destinations| ==> m.Entry(c.RowBegin(row) + j) == Found(s, c.destinations[j])
    ensures RowDone(g, p, allowed, c, m, level, id, row)
  {
    var source := c.sources[row];
    assert source in c.sources;
    forall j | 0 <= j < |c.destinations|
      ensures EntryDone(g, p, allowed, c, m, level, id, row, j)
    {
      var v := c.destinations[j];
      assert v in c.destinations && m.Entry(c.RowBegin(row) + j) == Found(s, v);
      SearchIsExact(g, p, allowed, level, id, source, s, v);
      OverlayKeepsDistances(g, p, allowed, level, id, source, v, Found(s, v));
    }
  }

  /** The rows before `row` are done, the others are as in the fresh cell. */
  ghost predicate RowsDone(g: Graph, p: Partition, allowed: seq<bool>, c: CellData, m: Values,
                           l: LevelID, id: CellID, row: nat)
    requires row <= |c.sources| && m.Holds(|m.weights|) && c.End() <= |m.weights|
  {
    && (forall r :: 0 <= r < row ==> RowDone(g, p, allowed, c, m, l, id, r))
    && (forall r, slot ::
          (row <= r < |c.sources| && c.RowBegin(r) <= slot < c.RowBegin(r) + |c.destinations| && slot < |m.weights|) ==>
            m.Entry(slot) == Unreachable)
  }

  /** Writing one row leaves all other rows alone. */
  lemma NextRowDone(g: Graph, p: Partition, allowed: seq<bool>, c: CellData, m: Values, m': Values,
                    l: LevelID, id: CellID, row: nat)
    requires row < |c.sources| && m.Holds(|m.weights|) && c.End() <= |m.weights|
    requires SameOutside(m, m', c.RowBegin(row), c.RowBegin(row) + |c.destinations|)
    requires RowsDone(g, p, allowed, c, m, l, id, row) && RowDone(g, p, allowed, c, m', l, id, row)
    ensures RowsDone(g, p, allowed, c, m', l, id, row + 1)
  {
    RowInside(c, row);
    forall r | 0 <= r < row + 1
      ensures RowDone(g, p, allowed, c, m', l, id, r)
    {
      if r < row {
        RowsApart(c, r, row);
        RowDoneFrame(g, p, allowed, c, m, m', l, id, r);
      }
    }
    forall r, slot | row + 1 <= r < |c.sources| && c.RowBegin(r) <= slot < c.RowBegin(r) + |c.destinations|
                     && slot < |m.weights|
      ensures m'.Entry(slot) == Unreachable
    {
      RowsApart(c, row, r);
      assert m.Entry(slot) == m'.Entry(slot);
    }
  }

  /** The rows of sources that are not allowed are not touched. */
  lemma SkippedRowDone(g: Graph, p: Partition, allowed: seq<bool>, c: CellData, m: Values,
                       l: LevelID, id: CellID, row: nat)
    requires row < |c.sources| && m.Holds(|m.weights|) && c.End() <= |m.weights|
    requires RowsDone(g, p, allowed, c, m, l, id, row) && !IsAllowed(allowed, c.sources[row])
    ensures RowsDone(g, p, allowed, c, m, l, id, row + 1)
  {
    RowInside(c, row);
    forall j | 0 <= j < |c.destinations|
      ensures EntryDone(g, p, allowed, c, m, l, id, row, j)
    {
      assert m.Entry(c.RowBegin(row) + j) == Unreachable;
    }
  }

  /** The search from a source of a cell, and the row it fills. */
  method CustomizeRow(g: Graph, p: Partition, cells: CellStorage, allowed: seq<bool>, metric: CellMetric,
                      heap: Heaps.QueryHeap, level: LevelID, id: CellID, row: nat)
    requires Fit(g, p, cells, allowed) && p.HasLevel(level) && Fits(cells, metric.View()) && cells.HasCell(level, id)
    requires level > 1 ==> LevelDone(g, p, allowed, cells, metric.View(), level - 1)
    requires heap.Valid() && |heap.nodeIndex| == p.numNodes
    requires var c := cells.GetCell(level, id); row < |c.sources| && IsAllowed(allowed, c.sources[row])
    modifies heap, metric
    ensures heap.Valid() && |heap.nodeIndex| == p.numNodes && metric.View().Holds(old(|metric.weights|))
    ensures var c := cells.GetCell(level, id);
            && SameOutside(old(metric.View()), metric.View(), c.RowBegin(row), c.RowBegin(row) + |c.destinations|)
            && c.End() <= |metric.weights| && RowDone(g, p, allowed, c, metric.View(), level, id, row)
    ensures old(metric.View().MarksUnreachable()) ==> metric.View().MarksUnreachable()
  {
    var c := cells.GetCell(level, id);
    assert c in cells.cells && HasBoundary(g, p, level, id, c);
    assert c.sources[row] in c.sources;
    if level > 1 {
      DoneLevelHasDistances(g, p, cells, allowed, metric.View(), level - 1);
    }
    SearchFrom(g, p, cells, allowed, metric, heap, level, id, c.sources[row], c.destinations);
    FillRow(c, metric, heap, row);
    SearchFillsRow(g, p, allowed, c, metric.View(), level, id, row, heap.view);
  }

  method CustomizeCell(g: Graph, p: Partition, cells: CellStorage, allowed: seq<bool>, metric: CellMetric,
                       heap: Heaps.QueryHeap, level: LevelID, id: CellID)
    requires Fit(g, p, cells, allowed) && p.HasLevel(level) && Fits(cells, metric.View()) && cells.HasCell(level, id)
    requires level > 1 ==> LevelDone(g, p, allowed, cells, metric.View(), level - 1)
    requires CellFresh(cells, metric.View(), level, id)
    requires heap.Valid() && |heap.nodeIndex| == p.numNodes
    modifies heap, metric
    ensures heap.Valid() && |heap.nodeIndex| == p.numNodes && Fits(cells, metric.View())
    ensures CellDone(g, p, allowed, cells, metric.View(), level, id)
    ensures SameOutside(old(metric.View()), metric.View(),
                        cells.GetCell(level, id).valueOffset, cells.GetCell(level, id).End())
    ensures old(metric.View().MarksUnreachable()) ==> metric.View().MarksUnreachable()
  {
    hide Heaps.QueryHeap.Valid, RowsDone, LevelDone, Fit, Along, Stores, CellFresh;
    var c := cells.GetCell(level, id);
    ghost var m := metric.View();
    BoundaryOf(g, p, cells, allowed, level, id);
    FreshCellRows(g, p, allowed, cells, m, level, id);
    for row := 0 to |c.sources|
      invariant heap.Valid() && |heap.nodeIndex| == p.numNodes && metric.View().Holds(|m.weights|)
      invariant SameOutside(m, metric.View(), c.valueOffset, c.End())
      invariant m.MarksUnreachable() ==> metric.View().MarksUnreachable()
      invariant RowsDone(g, p, allowed, c, metric.View(), level, id, row)
    {
      assert c.sources[row] in c.sources;
      if !allowed[c.sources[row]] {
        SkippedRowDone(g, p, allowed, c, metric.View(), level, id, row);
        continue;
      }
      ghost var before := metric.View();
      if level > 1 {
        LowerLevelStays(g, p, allowed, cells, m, before, level, id);
      }
      CustomizeRow(g, p, cells, allowed, metric, heap, level, id, row);
      RowInside(c, row);
      NextRowDone(g, p, allowed, c, before, metric.View(), level, id, row);
    }
    AllRowsDone(g, p, allowed, cells, metric.View(), level, id);
  }

  lemma BoundaryOf(g: Graph, p: Partition, cells: CellStorage, allowed: seq<bool>, level: LevelID, id: CellID)
    requires Fit(g, p, cells, allowed) && cells.HasCell(level, id)
    ensures Along(g, p) && Stores(cells, g, p) && |allowed| == p.numNodes
    ensures var c := cells.GetCell(level, id);
            c in cells.cells && HasBoundary(g, p, level, id, c) && forall u :: u in c.sources ==> u < p.numNodes
  {}

  lemma AllRowsDone(g: Graph, p: Partition, allowed: seq<bool>, cells: CellStorage, m: Values,
                    level: LevelID, id: CellID)
    requires Fits(cells, m) && cells.HasCell(level, id) && cells.GetCell(level, id).End() <= |m.weights|
    requires RowsDone(g, p, allowed, cells.GetCell(level, id), m, level, id, |cells.GetCell(level, id).sources|)
    ensures CellDone(g, p, allowed, cells, m, level, id)
  {}

  lemma FreshCellRows(g: Graph, p: Partition, allowed: seq<bool>, cells: CellStorage, m: Values,
                      level: LevelID, id: CellID)
    requires Fits(cells, m) && cells.HasCell(level, id) && CellFresh(cells, m, level, id)
    ensures var c := cells.GetCell(level, id);
            c.End() <= |m.weights| && c.valueOffset <= c.End() && RowsDone(g, p, allowed, c, m, level, id, 0)
  {
    var c := cells.GetCell(level, id);
    assert c in cells.cells;
    MulMonotone(|c.destinations|, 0, |c.sources|);
    forall r, slot | 0 <= r < |c.sources| && c.RowBegin(r) <= slot < c.RowBegin(r) + |c.destinations|
                     && slot < |m.weights|
      ensures m.Entry(slot) == Unreachable
    {
      RowInside(c, r);
    }
  }

  /** Work inside one cell changes no matrix of the level below. */
  lemma LowerLevelStays(g: Graph, p: Partition, allowed: seq<bool>, cells: CellStorage, m: Values, m': Values,
                        level: LevelID, id: CellID)
    requires Stores(cells, g, p) && Fits(cells, m) && level > 1 && cells.HasCell(level, id)
    requires SameOutside(m, m', cells.GetCell(level, id).valueOffset, cells.GetCell(level, id).End())
    requires LevelDone(g, p, allowed, cells, m, level - 1)
    ensures Fits(cells, m') && LevelDone(g, p, allowed, cells, m', level - 1)
  {
    var below := level - 1;
    forall sub | cells.HasCell(below, sub)
      ensures CellDone(g, p, allowed, cells, m', below, sub)
    {
      CellsApart(g, p, cells, level, id, below, sub);
      CellDoneFrame(g, p, allowed, cells, m, m', below, sub);
    }
  }

  // Customizing all cells

  /** The cells of `done` are complete, all others still fresh. */
  ghost predicate Progress(g: Graph, p: Partition, allowed: seq<bool>, cells: CellStorage, m: Values,
                           level: LevelID, done: set<CellID>) {
    && Fits(cells, m)
    && (forall l: LevelID, id: CellID :: cells.HasCell(l, id) && (l < level || (l == level && id in done)) ==>
          CellDone(g, p, allowed, cells, m, l, id))
    && (forall l: LevelID, id: CellID :: cells.HasCell(l, id) && (l > level || (l == level && id !in done)) ==>
          CellFresh(cells, m, l, id))
  }

  lemma CellDoneProgress(g: Graph, p: Partition, allowed: seq<bool>, cells: CellStorage, m: Values, m': Values,
                         level: LevelID, done: set<CellID>, id: CellID)
    requires Stores(cells, g, p) && cells.HasCell(level, id) && id !in done
    requires Progress(g, p, allowed, cells, m, level, done)
    requires SameOutside(m, m', cells.GetCell(level, id).valueOffset, cells.GetCell(level, id).End())
    requires Fits(cells, m') && CellDone(g, p, allowed, cells, m', level, id)
    ensures Progress(g, p, allowed, cells, m', level, done + {id})
  {
    forall l: LevelID, i: CellID | cells.HasCell(l, i) && (l < level || (l == level && i in done + {id}))
      ensures CellDone(g, p, allowed, cells, m', l, i)
    {
      if (l, i) != (level, id) {
        CellsApart(g, p, cells, level, id, l, i);
        CellDoneFrame(g, p, allowed, cells, m, m', l, i);
      }
    }
    forall l: LevelID, i: CellID | cells.HasCell(l, i) && (l > level || (l == level && i !in done + {id}))
      ensures CellFresh(cells, m', l, i)
    {
      CellsApart(g, p, cells, level, id, l, i);
      var c := cells.GetCell(l, i);
      assert c in cells.cells;
      forall slot | c.valueOffset <= slot < c.End()
        ensures m'.Entry(slot) == Unreachable
      {
        assert m.Entry(slot) == m'.Entry(slot);
      }
    }
  }

  /** A level is processed cell by cell, in any order. */
  ghost predicate IsSchedule(p: Partition, schedule: seq<seq<CellID>>) {
    && |schedule| == |p.numCells|
    && forall l :: 0 <= l < |schedule| ==>
         Distinct(schedule[l]) && forall id :: id in schedule[l] <==> id < p.numCells[l]
  }

  /**
   Customizing a fresh metric: in the end every entry of every cell on every level is the
   length of the shortest way from its source to its destination inside the cell, whatever
   the order in which the cells of a level were processed.
   */
  method Customize(g: Graph, p: Partition, cells: CellStorage, allowed: seq<bool>, metric: CellMetric,
                   schedule: seq<seq<CellID>>)
    requires Fit(g, p, cells, allowed) && Fits(cells, metric.View()) && IsSchedule(p, schedule)
    requires metric.View().IsFresh()
    modifies metric
    ensures Fits(cells, metric.View()) && metric.View().MarksUnreachable()
    ensures forall l, id :: cells.HasCell(l, id) ==> CellDone(g, p, allowed, cells, metric.View(), l, id)
  {
    var heap := new Heaps.QueryHeap(p.numNodes);
    FreshMetric(g, p, allowed, cells, metric.View());
    for level := 1 to p.NumberOfLevels()
      invariant heap.Valid() && |heap.nodeIndex| == p.numNodes && fresh(heap)
      invariant Progress(g, p, allowed, cells, metric.View(), level, {}) && metric.View().MarksUnreachable()
    {
      var ids := schedule[level - 1];
      ghost var done: set<CellID> := {};
      for i := 0 to |ids|
        invariant heap.Valid() && |heap.nodeIndex| == p.numNodes && fresh(heap)
        invariant forall id :: id in done <==> id in ids[..i]
        invariant Progress(g, p, allowed, cells, metric.View(), level, done) && metric.View().MarksUnreachable()
      {
        assert ids[i] in ids;
        assert ids[i] !in done;
        CellsOfPartition(g, p, cells, level, ids[i]);
        ghost var before := metric.View();
        CustomizeCell(g, p, cells, allowed, metric, heap, level, ids[i]);
        CellDoneProgress(g, p, allowed, cells, before, metric.View(), level, done, ids[i]);
        done := done + {ids[i]};
      }
      assert ids[..|ids|] == ids;
      LevelComplete(g, p, allowed, cells, metric.View(), level, done);
    }
  }

  lemma FreshMetric(g: Graph, p: Partition, allowed: seq<bool>, cells: CellStorage, m: Values)
    requires Fits(cells, m) && forall slot :: 0 <= slot < |m.weights| ==> m.weights[slot] == Invalid
    ensures Progress(g, p, allowed, cells, m, 1, {})
  {
    forall l, id | cells.HasCell(l, id)
      ensures CellFresh(cells, m, l, id)
    {
      assert cells.GetCell(l, id) in cells.cells;
    }
  }

  lemma LevelComplete(g: Graph, p: Partition, allowed: seq<bool>, cells: CellStorage, m: Values,
                      level: LevelID, done: set<CellID>)
    requires Fit(g, p, cells, allowed) && p.HasLevel(level) && Progress(g, p, allowed, cells, m, level, done)
    requires forall id :: id in done <==> id < p.numCells[level - 1]
    ensures Progress(g, p, allowed, cells, m, level + 1, {})
  {
    forall id | cells.HasCell(level, id)
      ensures id in done
    {
      CellsOfPartition(g, p, cells, level, id);
    }
  }
}
