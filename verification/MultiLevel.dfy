/**
 The multi-level partition, the graph sorted along it and the boundary nodes of its cells,
 and the overlay of a cell: how its inner distances follow from those of its sub-cells.
 */
module MultiLevel {
  import opened Walks

  type LevelID = nat
  type CellID = nat

  datatype Edge = Edge(target: NodeID, cost: Cost, forward: bool, backward: bool)

  /** Adjacency lists, each sorted so that the edges inside the cell of a level come first. */
  datatype Graph = Graph(adjacency: seq<seq<Edge>>, borderOffset: seq<seq<nat>>) {
    ghost predicate HasEdge(u: NodeID, e: Edge) {
      u < |adjacency| && e in adjacency[u]
    }
  }

  datatype Partition = Partition(cellIds: seq<seq<CellID>>, numCells: seq<nat>, numNodes: nat) {
    function NumberOfLevels(): nat {
      |cellIds| + 1
    }

    ghost predicate Valid() {
      && |numCells| == |cellIds|
      && (forall l :: 0 <= l < |cellIds| ==> |cellIds[l]| == numNodes)
      && (forall l, u :: 0 <= l < |cellIds| && 0 <= u < numNodes ==> cellIds[l][u] < numCells[l])
      && Nested()
    }

    /** Nodes of one cell lie in one cell on the next level, too. */
    ghost predicate Nested()
      requires forall l :: 0 <= l < |cellIds| ==> |cellIds[l]| == numNodes
    {
      forall l, u, v :: 0 < l < |cellIds| && 0 <= u < numNodes && 0 <= v < numNodes ==> NestsAt(l, u, v)
    }

    ghost predicate NestsAt(l: nat, u: NodeID, v: NodeID)
      requires 0 < l < |cellIds| && u < numNodes && v < numNodes
      requires forall l :: 0 <= l < |cellIds| ==> |cellIds[l]| == numNodes
    {
      cellIds[l - 1][u] == cellIds[l - 1][v] ==> cellIds[l][u] == cellIds[l][v]
    }

    predicate HasLevel(level: LevelID) {
      1 <= level <= |cellIds|
    }

    function GetCell(level: LevelID, node: NodeID): CellID
      requires Valid() && HasLevel(level) && node < numNodes
    {
      cellIds[level - 1][node]
    }
  }

  /** What the construction of the graph along a partition establishes. */
  ghost predicate Along(g: Graph, p: Partition) {
    && p.Valid()
    && |g.adjacency| == p.numNodes == |g.borderOffset|
    && (forall u, e :: g.HasEdge(u, e) ==> e.target < p.numNodes)
    && (forall u, e :: g.HasEdge(u, e) && e.forward ==> e.cost.weight > 0)
    && (forall u, e {:trigger HasMirror(g, u, e)} :: g.HasEdge(u, e) && e.forward ==> HasMirror(g, u, e))
    && (forall u :: 0 <= u < p.numNodes ==> |g.borderOffset[u]| == p.NumberOfLevels())
    && (forall u, l :: 0 <= u < p.numNodes && p.HasLevel(l) ==> Splits(g, p, l, u))
  }

  /** A forward edge is also listed at its target, as a backward edge. */
  ghost predicate HasMirror(g: Graph, u: NodeID, e: Edge) {
    exists b :: IsMirror(g, u, e, b)
  }

  ghost predicate IsMirror(g: Graph, u: NodeID, e: Edge, b: Edge) {
    g.HasEdge(e.target, b) && b.target == u && b.backward
  }

  /** The border offset of a node splits off exactly the edges inside its cell. */
  ghost predicate Splits(g: Graph, p: Partition, l: LevelID, u: NodeID)
    requires p.Valid() && p.HasLevel(l) && u < p.numNodes
    requires |g.adjacency| == p.numNodes == |g.borderOffset| && |g.borderOffset[u]| == p.NumberOfLevels()
    requires forall u, e :: g.HasEdge(u, e) ==> e.target < p.numNodes
  {
    && g.borderOffset[u][l] <= |g.adjacency[u]|
    && forall i :: 0 <= i < |g.adjacency[u]| ==>
         assert g.HasEdge(u, g.adjacency[u][i]);
         (i < g.borderOffset[u][l] <==> p.GetCell(l, u) == p.GetCell(l, g.adjacency[u][i].target))
  }

  function InternalEdges(g: Graph, p: Partition, level: LevelID, u: NodeID): seq<Edge>
    requires Along(g, p) && p.HasLevel(level) && u < p.numNodes
  {
    assert Splits(g, p, level, u);
    g.adjacency[u][..g.borderOffset[u][level]]
  }

  // Boundary nodes

  ghost predicate SameCell(p: Partition, l: LevelID, u: NodeID, v: NodeID) {
    p.Valid() && p.HasLevel(l) && u < p.numNodes && v < p.numNodes && p.GetCell(l, u) == p.GetCell(l, v)
  }

  ghost predicate InCell(p: Partition, l: LevelID, id: CellID, u: NodeID) {
    p.Valid() && p.HasLevel(l) && u < p.numNodes && p.GetCell(l, u) == id
  }

  ghost predicate IsBoundary(g: Graph, p: Partition, l: LevelID, u: NodeID) {
    exists e :: g.HasEdge(u, e) && !SameCell(p, l, u, e.target)
  }

  ghost predicate HasInner(g: Graph, p: Partition, l: LevelID, u: NodeID, forward: bool) {
    exists e :: g.HasEdge(u, e) && SameCell(p, l, u, e.target) && (if forward then e.forward else e.backward)
  }

  /** The sources of a cell: boundary nodes from which an edge leads into the cell. */
  ghost predicate IsSource(g: Graph, p: Partition, l: LevelID, id: CellID, u: NodeID) {
    InCell(p, l, id, u) && IsBoundary(g, p, l, u) && HasInner(g, p, l, u, true)
  }

  /** The destinations of a cell: boundary nodes reached from inside it, or not connected to it. */
  ghost predicate IsDestination(g: Graph, p: Partition, l: LevelID, id: CellID, u: NodeID) {
    && InCell(p, l, id, u) && IsBoundary(g, p, l, u)
    && (HasInner(g, p, l, u, false) || !HasInner(g, p, l, u, true))
  }

  /** Sources have a forward edge into their cell; destinations have a backward one, or are no sources. */
  lemma BoundaryNodes(g: Graph, p: Partition, l: LevelID, u: NodeID)
    requires p.Valid() && p.HasLevel(l) && u < p.numNodes && IsBoundary(g, p, l, u)
    ensures var id := p.GetCell(l, u);
            && (IsSource(g, p, l, id, u) <==>
                  exists e :: g.HasEdge(u, e) && e.target < p.numNodes && p.GetCell(l, e.target) == id && e.forward)
            && (IsDestination(g, p, l, id, u) <==>
                  IsSource(g, p, l, id, u) ==>
                    exists e :: g.HasEdge(u, e) && e.target < p.numNodes && p.GetCell(l, e.target) == id && e.backward)
  {}

  // Arcs and distances inside a cell

  ghost predicate IsAllowed(allowed: seq<bool>, u: NodeID) {
    u < |allowed| && allowed[u]
  }

  ghost predicate IsBaseArc(g: Graph, p: Partition, allowed: seq<bool>, l: LevelID, id: CellID, a: Arc) {
    && InCell(p, l, id, a.from) && InCell(p, l, id, a.to)
    && IsAllowed(allowed, a.from) && IsAllowed(allowed, a.to)
    && exists e :: g.HasEdge(a.from, e) && e.forward && e.target == a.to && e.cost == a.cost
  }

  /** The forward arcs between allowed nodes of one cell. */
  ghost function BaseArcs(g: Graph, p: Partition, allowed: seq<bool>, l: LevelID, id: CellID): iset<Arc> {
    iset a: Arc | IsBaseArc(g, p, allowed, l, id, a)
  }

  ghost predicate IsBorderArc(g: Graph, p: Partition, allowed: seq<bool>, l: LevelID, id: CellID, a: Arc) {
    IsBaseArc(g, p, allowed, l, id, a) && (l == 1 || !SameCell(p, l - 1, a.from, a.to))
  }

  /** The arcs of a cell that cross between its sub-cells; on the first level, all of them. */
  ghost function BorderArcs(g: Graph, p: Partition, allowed: seq<bool>, l: LevelID, id: CellID): iset<Arc> {
    iset a: Arc | IsBorderArc(g, p, allowed, l, id, a)
  }

  ghost predicate IsCliqueArc(g: Graph, p: Partition, allowed: seq<bool>, l: LevelID, id: CellID, a: Arc) {
    && l > 1 && InCell(p, l, id, a.from) && a.from != a.to
    && IsAllowed(allowed, a.from) && IsAllowed(allowed, a.to)
    && p.HasLevel(l - 1)
    && var sub := p.GetCell(l - 1, a.from);
    && IsSource(g, p, l - 1, sub, a.from) && IsDestination(g, p, l - 1, sub, a.to)
    && IsDistance(BaseArcs(g, p, allowed, l - 1, sub), a.from, a.to, Reachable(a.cost))
  }

  /** The arcs that stand for the shortest ways through the sub-cells of a cell. */
  ghost function CliqueArcs(g: Graph, p: Partition, allowed: seq<bool>, l: LevelID, id: CellID): iset<Arc> {
    iset a: Arc | IsCliqueArc(g, p, allowed, l, id, a)
  }

  ghost function OverlayArcs(g: Graph, p: Partition, allowed: seq<bool>, l: LevelID, id: CellID): iset<Arc> {
    CliqueArcs(g, p, allowed, l, id) + BorderArcs(g, p, allowed, l, id)
  }

  /** Between the boundary nodes of all cells of a level, distances exist. */
  ghost predicate HasDistances(g: Graph, p: Partition, allowed: seq<bool>, l: LevelID) {
    forall id, u, v ::
      (IsSource(g, p, l, id, u) && IsDestination(g, p, l, id, v) && IsAllowed(allowed, u) && IsAllowed(allowed, v)) ==>
        exists d :: IsDistance(BaseArcs(g, p, allowed, l, id), u, v, d)
  }

  lemma BaseArcsArePositive(g: Graph, p: Partition, allowed: seq<bool>, l: LevelID, id: CellID)
    requires Along(g, p)
    ensures Positive(BaseArcs(g, p, allowed, l, id))
  {
    forall a | a in BaseArcs(g, p, allowed, l, id)
      ensures a.cost.weight > 0
    {
      var e :| g.HasEdge(a.from, e) && e.forward && e.target == a.to && e.cost == a.cost;
    }
  }

  lemma SubCellArcs(g: Graph, p: Partition, allowed: seq<bool>, l: LevelID, u: NodeID)
    requires Along(g, p) && l > 1 && p.HasLevel(l) && u < p.numNodes
    ensures BaseArcs(g, p, allowed, l - 1, p.GetCell(l - 1, u)) <= BaseArcs(g, p, allowed, l, p.GetCell(l, u))
  {
    forall v: NodeID | v < p.numNodes && p.GetCell(l - 1, v) == p.GetCell(l - 1, u)
      ensures p.GetCell(l, v) == p.GetCell(l, u)
    {
      assert p.NestsAt(l - 1, v, u);
    }
  }

  lemma OverlayIsPositive(g: Graph, p: Partition, allowed: seq<bool>, l: LevelID, id: CellID)
    requires Along(g, p) && p.HasLevel(l)
    ensures Positive(OverlayArcs(g, p, allowed, l, id))
  {
    BaseArcsArePositive(g, p, allowed, l, id);
    forall a | a in CliqueArcs(g, p, allowed, l, id)
      ensures a.cost.weight > 0
    {
      var arcs := BaseArcs(g, p, allowed, l - 1, p.GetCell(l - 1, a.from));
      BaseArcsArePositive(g, p, allowed, l - 1, p.GetCell(l - 1, a.from));
      var w :| IsWalk(arcs, a.from, w, a.to) && Length(w) == a.cost;
      PositiveLength(arcs, a.from, w, a.to);
    }
  }

  /** The distance matrix of a sub-cell satisfies the triangle inequality. */
  lemma CliqueChains(g: Graph, p: Partition, allowed: seq<bool>, l: LevelID, id: CellID, a: Arc, b: Arc)
    returns (c: Arc)
    requires Along(g, p) && l > 1 && p.HasLevel(l) && HasDistances(g, p, allowed, l - 1)
    requires a in CliqueArcs(g, p, allowed, l, id) && b in CliqueArcs(g, p, allowed, l, id)
    requires a.to == b.from && a.from != b.to
    ensures c in CliqueArcs(g, p, allowed, l, id)
    ensures c.from == a.from && c.to == b.to && AtMost(c.cost, Plus(a.cost, b.cost))
  {
    var sub := p.GetCell(l - 1, a.from);
    var arcs := BaseArcs(g, p, allowed, l - 1, sub);
    var w :| IsWalk(arcs, a.from, w, a.to) && Length(w) == a.cost;
    var w' :| IsWalk(arcs, b.from, w', b.to) && Length(w') == b.cost;
    AppendIsWalk(arcs, a.from, w, a.to, w', b.to);
    AppendLength(w, w');
    var d := DistanceUpTo(g, p, allowed, l - 1, sub, a.from, Append(w, w'), b.to);
    c := Arc(a.from, b.to, d);
    assert IsCliqueArc(g, p, allowed, l, id, c);
  }

  /** A walk in the overlay stands for a walk over base arcs of the same length. */
  lemma {:induction false} Expand(g: Graph, p: Partition, allowed: seq<bool>, l: LevelID, id: CellID,
                                  u: NodeID, w: Walk, v: NodeID)
    returns (base: Walk)
    requires Along(g, p) && p.HasLevel(l)
    requires IsWalk(OverlayArcs(g, p, allowed, l, id), u, w, v)
    ensures IsWalk(BaseArcs(g, p, allowed, l, id), u, base, v) && Length(base) == Length(w)
    decreases w
  {
    match w
    case Done =>
      base := Done;
    case Step(a, rest) =>
      var tail := Expand(g, p, allowed, l, id, a.to, rest, v);
      var arcs := BaseArcs(g, p, allowed, l, id);
      if a in CliqueArcs(g, p, allowed, l, id) {
        var sub := BaseArcs(g, p, allowed, l - 1, p.GetCell(l - 1, a.from));
        var head :| IsWalk(sub, a.from, head, a.to) && Length(head) == a.cost;
        SubCellArcs(g, p, allowed, l, a.from);
        WalkInLarger(sub, arcs, a.from, head, a.to);
        AppendIsWalk(arcs, u, head, a.to, tail, v);
        AppendLength(head, tail);
        base := Append(head, tail);
      } else {
        base := Step(a, tail);
      }
  }

  lemma IsClique(g: Graph, p: Partition, allowed: seq<bool>, l: LevelID, id: CellID, u: NodeID, v: NodeID, c: Cost)
    requires p.HasLevel(l) && l > 1 && InCell(p, l, id, u) && u != v && IsAllowed(allowed, u) && IsAllowed(allowed, v)
    requires var sub := p.GetCell(l - 1, u);
             && IsSource(g, p, l - 1, sub, u) && IsDestination(g, p, l - 1, sub, v)
             && IsDistance(BaseArcs(g, p, allowed, l - 1, sub), u, v, Reachable(c))
    ensures Arc(u, v, c) in CliqueArcs(g, p, allowed, l, id)
  {
    assert IsCliqueArc(g, p, allowed, l, id, Arc(u, v, c));
  }

  /** The way through a sub-cell from an entry to another exit is covered by a clique arc. */
  lemma CliqueArcAcross(g: Graph, p: Partition, allowed: seq<bool>, l: LevelID, id: CellID,
                        u: NodeID, w: Walk, x: NodeID)
    returns (a: Arc)
    requires Along(g, p) && l > 1 && p.HasLevel(l) && HasDistances(g, p, allowed, l - 1)
    requires InCell(p, l, id, u) && IsBoundary(g, p, l - 1, u) && IsBoundary(g, p, l - 1, x)
    requires IsAllowed(allowed, u) && u != x
    requires IsWalk(BaseArcs(g, p, allowed, l - 1, p.GetCell(l - 1, u)), u, w, x)
    ensures a in CliqueArcs(g, p, allowed, l, id) && a.from == u && a.to == x && AtMost(a.cost, Length(w))
  {
    var sub := p.GetCell(l - 1, u);
    EntryIsSource(g, p, allowed, l - 1, sub, u, w, x);
    ExitIsDestination(g, p, allowed, l - 1, sub, u, w, x);
    var d := DistanceUpTo(g, p, allowed, l - 1, sub, u, w, x);
    a := Arc(u, x, d);
    IsClique(g, p, allowed, l, id, u, x, d);
  }

  lemma CrossSubCell(g: Graph, p: Partition, allowed: seq<bool>, l: LevelID, id: CellID,
                     u: NodeID, w: Walk, x: NodeID)
    returns (cross: Walk)
    requires Along(g, p) && l > 1 && p.HasLevel(l) && HasDistances(g, p, allowed, l - 1)
    requires InCell(p, l, id, u) && IsBoundary(g, p, l - 1, u) && IsBoundary(g, p, l - 1, x)
    requires IsAllowed(allowed, u)
    requires IsWalk(BaseArcs(g, p, allowed, l - 1, p.GetCell(l - 1, u)), u, w, x)
    ensures IsWalk(CliqueArcs(g, p, allowed, l, id), u, cross, x)
    ensures AtMost(Length(cross), Length(w))
  {
    if u == x {
      cross := Done;
      BaseArcsArePositive(g, p, allowed, l - 1, p.GetCell(l - 1, u));
      PositiveLength(BaseArcs(g, p, allowed, l - 1, p.GetCell(l - 1, u)), u, w, x);
    } else {
      var a := CliqueArcAcross(g, p, allowed, l, id, u, w, x);
      cross := Step(a, Done);
      PlusAssociative(a.cost, ZERO, ZERO);
    }
  }

  /** Where there is a walk between boundary nodes, there is a distance that is no longer. */
  lemma DistanceUpTo(g: Graph, p: Partition, allowed: seq<bool>, l: LevelID, id: CellID,
                     u: NodeID, w: Walk, v: NodeID)
    returns (c: Cost)
    requires HasDistances(g, p, allowed, l)
    requires IsSource(g, p, l, id, u) && IsDestination(g, p, l, id, v) && IsAllowed(allowed, u) && IsAllowed(allowed, v)
    requires IsWalk(BaseArcs(g, p, allowed, l, id), u, w, v)
    ensures IsDistance(BaseArcs(g, p, allowed, l, id), u, v, Reachable(c)) && AtMost(c, Length(w))
  {
    var d :| IsDistance(BaseArcs(g, p, allowed, l, id), u, v, d);
    assert d.Reachable?;
    c := d.cost;
  }

  lemma EntryIsSource(g: Graph, p: Partition, allowed: seq<bool>, l: LevelID, id: CellID,
                      u: NodeID, w: Walk, x: NodeID)
    requires Along(g, p) && w.Step? && IsBoundary(g, p, l, u)
    requires IsWalk(BaseArcs(g, p, allowed, l, id), u, w, x)
    ensures IsSource(g, p, l, id, u)
  {
    assert IsBaseArc(g, p, allowed, l, id, w.arc);
    var e :| g.HasEdge(u, e) && e.forward && e.target == w.arc.to && e.cost == w.arc.cost;
    assert SameCell(p, l, u, e.target);
  }

  lemma {:induction false} ExitIsDestination(g: Graph, p: Partition, allowed: seq<bool>, l: LevelID, id: CellID,
                                             u: NodeID, w: Walk, x: NodeID)
    requires Along(g, p) && w.Step? && IsBoundary(g, p, l, x)
    requires IsWalk(BaseArcs(g, p, allowed, l, id), u, w, x)
    ensures IsDestination(g, p, l, id, x) && IsAllowed(allowed, x)
    decreases w
  {
    if w.rest.Step? {
      ExitIsDestination(g, p, allowed, l, id, w.arc.to, w.rest, x);
    } else {
      assert IsBaseArc(g, p, allowed, l, id, w.arc) && w.arc.to == x;
      var e :| g.HasEdge(u, e) && e.forward && e.target == x && e.cost == w.arc.cost;
      assert HasMirror(g, u, e);
      var b :| IsMirror(g, u, e, b);
      assert SameCell(p, l, x, b.target);
    }
  }

  /**
   A walk over base arcs between boundary nodes of the sub-cells is matched in the overlay.
   `head` is the part already walked inside the sub-cell of `u`, `w` the part to come.
   */
  lemma {:induction false} Contract(g: Graph, p: Partition, allowed: seq<bool>, l: LevelID, id: CellID,
                                    u: NodeID, head: Walk, x: NodeID, w: Walk, v: NodeID)
    returns (overlay: Walk)
    requires Along(g, p) && l > 1 && p.HasLevel(l) && HasDistances(g, p, allowed, l - 1)
    requires InCell(p, l, id, u) && IsAllowed(allowed, u)
    requires IsBoundary(g, p, l - 1, u) && IsBoundary(g, p, l - 1, v)
    requires SameCell(p, l - 1, u, x)
    requires IsWalk(BaseArcs(g, p, allowed, l - 1, p.GetCell(l - 1, u)), u, head, x)
    requires IsWalk(BaseArcs(g, p, allowed, l, id), x, w, v)
    ensures IsWalk(OverlayArcs(g, p, allowed, l, id), u, overlay, v)
    ensures AtMost(Length(overlay), Plus(Length(head), Length(w)))
    decreases w, 0
  {
    var arcs := OverlayArcs(g, p, allowed, l, id);
    match w
    case Done =>
      overlay := CrossSubCell(g, p, allowed, l, id, u, head, v);
      WalkInLarger(CliqueArcs(g, p, allowed, l, id), arcs, u, overlay, v);
      PlusAssociative(Length(head), ZERO, ZERO);
    case Step(a, rest) =>
      assert IsBaseArc(g, p, allowed, l, id, a);
      if SameCell(p, l - 1, x, a.to) {
        assert IsBaseArc(g, p, allowed, l - 1, p.GetCell(l - 1, u), a);
        Extend(BaseArcs(g, p, allowed, l - 1, p.GetCell(l - 1, u)), u, head, a);
        PlusAssociative(Length(head), a.cost, Length(rest));
        overlay := Contract(g, p, allowed, l, id, u, Append(head, Step(a, Done)), a.to, rest, v);
      } else {
        overlay := ContractAcross(g, p, allowed, l, id, u, head, a, rest, v);
      }
  }

  lemma {:induction false} ContractAcross(g: Graph, p: Partition, allowed: seq<bool>, l: LevelID, id: CellID,
                                          u: NodeID, head: Walk, a: Arc, rest: Walk, v: NodeID)
    returns (overlay: Walk)
    requires Along(g, p) && l > 1 && p.HasLevel(l) && HasDistances(g, p, allowed, l - 1)
    requires InCell(p, l, id, u) && IsAllowed(allowed, u)
    requires IsBoundary(g, p, l - 1, u) && IsBoundary(g, p, l - 1, v)
    requires IsWalk(BaseArcs(g, p, allowed, l - 1, p.GetCell(l - 1, u)), u, head, a.from)
    requires a in BorderArcs(g, p, allowed, l, id)
    requires IsWalk(BaseArcs(g, p, allowed, l, id), a.to, rest, v)
    ensures IsWalk(OverlayArcs(g, p, allowed, l, id), u, overlay, v)
    ensures AtMost(Length(overlay), Plus(Length(head), Plus(a.cost, Length(rest))))
    decreases rest, 1
  {
    CrossingIsBoundary(g, p, allowed, l, id, a);
    var tail := Contract(g, p, allowed, l, id, a.to, Done, a.to, rest, v);
    overlay := CrossThen(g, p, allowed, l, id, u, head, a, tail, v);
    ShorterTail(Length(overlay), Length(head), a.cost, Length(tail), Length(rest));
  }

  lemma ShorterTail(whole: Cost, head: Cost, arc: Cost, tail: Cost, rest: Cost)
    requires AtMost(whole, Plus(head, Plus(arc, tail))) && AtMost(tail, Plus(ZERO, rest))
    ensures AtMost(whole, Plus(head, Plus(arc, rest)))
  {}

  lemma CrossingIsBoundary(g: Graph, p: Partition, allowed: seq<bool>, l: LevelID, id: CellID, a: Arc)
    requires Along(g, p) && l > 1 && p.HasLevel(l)
    requires IsBaseArc(g, p, allowed, l, id, a) && !SameCell(p, l - 1, a.from, a.to)
    ensures IsBoundary(g, p, l - 1, a.from) && IsBoundary(g, p, l - 1, a.to)
  {
    var e :| g.HasEdge(a.from, e) && e.forward && e.target == a.to && e.cost == a.cost;
    assert HasMirror(g, a.from, e);
    var b :| IsMirror(g, a.from, e, b);
  }

  lemma CrossThen(g: Graph, p: Partition, allowed: seq<bool>, l: LevelID, id: CellID,
                  u: NodeID, head: Walk, a: Arc, tail: Walk, v: NodeID)
    returns (overlay: Walk)
    requires Along(g, p) && l > 1 && p.HasLevel(l) && HasDistances(g, p, allowed, l - 1)
    requires InCell(p, l, id, u) && IsBoundary(g, p, l - 1, u) && IsBoundary(g, p, l - 1, a.from)
    requires IsAllowed(allowed, u)
    requires IsWalk(BaseArcs(g, p, allowed, l - 1, p.GetCell(l - 1, u)), u, head, a.from)
    requires a in BorderArcs(g, p, allowed, l, id)
    requires IsWalk(OverlayArcs(g, p, allowed, l, id), a.to, tail, v)
    ensures IsWalk(OverlayArcs(g, p, allowed, l, id), u, overlay, v)
    ensures AtMost(Length(overlay), Plus(Length(head), Plus(a.cost, Length(tail))))
  {
    var arcs := OverlayArcs(g, p, allowed, l, id);
    var cross := CrossSubCell(g, p, allowed, l, id, u, head, a.from);
    WalkInLarger(CliqueArcs(g, p, allowed, l, id), arcs, u, cross, a.from);
    overlay := Append(cross, Step(a, tail));
    AppendIsWalk(arcs, u, cross, a.from, Step(a, tail), v);
    AppendLength(cross, Step(a, tail));
    PlusMonotone(Length(cross), Length(head), Length(Step(a, tail)));
  }

  /** On the first level the overlay is the cell itself. */
  lemma FirstLevelOverlay(g: Graph, p: Partition, allowed: seq<bool>, id: CellID)
    ensures OverlayArcs(g, p, allowed, 1, id) == BaseArcs(g, p, allowed, 1, id)
    ensures CliqueArcs(g, p, allowed, 1, id) == iset{}
  {}

  lemma BoundaryBelow(g: Graph, p: Partition, l: LevelID, u: NodeID)
    requires Along(g, p) && l > 1 && p.HasLevel(l) && u < p.numNodes && IsBoundary(g, p, l, u)
    ensures IsBoundary(g, p, l - 1, u)
  {
    var e :| g.HasEdge(u, e) && !SameCell(p, l, u, e.target);
    assert p.NestsAt(l - 1, u, e.target);
  }

  /** No walk over base arcs between boundary nodes beats the overlay. */
  lemma OverlayIsNoLonger(g: Graph, p: Partition, allowed: seq<bool>, l: LevelID, id: CellID,
                          u: NodeID, w: Walk, v: NodeID)
    returns (overlay: Walk)
    requires Along(g, p) && p.HasLevel(l) && l > 1 && HasDistances(g, p, allowed, l - 1)
    requires IsSource(g, p, l, id, u) && IsDestination(g, p, l, id, v) && IsAllowed(allowed, u)
    requires IsWalk(BaseArcs(g, p, allowed, l, id), u, w, v)
    ensures IsWalk(OverlayArcs(g, p, allowed, l, id), u, overlay, v) && AtMost(Length(overlay), Length(w))
  {
    BoundaryBelow(g, p, l, u);
    BoundaryBelow(g, p, l, v);
    overlay := Contract(g, p, allowed, l, id, u, Done, u, w, v);
    PlusAssociative(Length(w), ZERO, ZERO);
  }

  /** What a distance in the overlay says about a walk over base arcs. */
  lemma OverlayIsNotBeaten(g: Graph, p: Partition, allowed: seq<bool>, l: LevelID, id: CellID,
                           u: NodeID, w: Walk, v: NodeID, d: Distance)
    requires Along(g, p) && p.HasLevel(l) && l > 1 && HasDistances(g, p, allowed, l - 1)
    requires IsSource(g, p, l, id, u) && IsDestination(g, p, l, id, v) && IsAllowed(allowed, u)
    requires IsDistance(OverlayArcs(g, p, allowed, l, id), u, v, d)
    requires IsWalk(BaseArcs(g, p, allowed, l, id), u, w, v)
    ensures d.Reachable? && AtMost(d.cost, Length(w))
  {
    var overlay := OverlayIsNoLonger(g, p, allowed, l, id, u, w, v);
    assert d.Reachable? && AtMost(d.cost, Length(overlay));
    AtMostTransitive(d.cost, Length(overlay), Length(w));
  }

  lemma OverlayIsReal(g: Graph, p: Partition, allowed: seq<bool>, l: LevelID, id: CellID,
                      u: NodeID, v: NodeID, c: Cost)
    returns (w: Walk)
    requires Along(g, p) && p.HasLevel(l)
    requires IsDistance(OverlayArcs(g, p, allowed, l, id), u, v, Reachable(c))
    ensures IsWalk(BaseArcs(g, p, allowed, l, id), u, w, v) && Length(w) == c
  {
    var overlay :| IsWalk(OverlayArcs(g, p, allowed, l, id), u, overlay, v) && Length(overlay) == c;
    w := Expand(g, p, allowed, l, id, u, overlay, v);
  }

  /** Between sources and destinations of a cell, distances in the overlay are distances in the cell. */
  lemma OverlayKeepsDistances(g: Graph, p: Partition, allowed: seq<bool>, l: LevelID, id: CellID,
                              u: NodeID, v: NodeID, d: Distance)
    requires Along(g, p) && p.HasLevel(l) && (l > 1 ==> HasDistances(g, p, allowed, l - 1))
    requires IsSource(g, p, l, id, u) && IsDestination(g, p, l, id, v) && IsAllowed(allowed, u)
    requires IsDistance(OverlayArcs(g, p, allowed, l, id), u, v, d)
    ensures IsDistance(BaseArcs(g, p, allowed, l, id), u, v, d)
  {
    var base := BaseArcs(g, p, allowed, l, id);
    if l == 1 {
      FirstLevelOverlay(g, p, allowed, id);
    } else {
      if d.Reachable? {
        var w := OverlayIsReal(g, p, allowed, l, id, u, v, d.cost);
      }
      forall w | IsWalk(base, u, w, v)
        ensures d.Reachable? && AtMost(d.cost, Length(w))
      {
        OverlayIsNotBeaten(g, p, allowed, l, id, u, w, v, d);
      }
    }
  }
}
