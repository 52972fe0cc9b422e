/**
 The label-setting search over two kinds of arcs that cell customization runs: the
 clique arcs of the sub-cells, which are scanned only at nodes that were not themselves
 reached by a clique arc, and the border arcs, which are scanned at every node.

 A `Search` is the state of the heap: the labels of all nodes inserted so far, and the
 nodes that are still in the heap.  The heap is ordered by weight alone, while labels
 are compared by (weight, duration, distance).
 */
module Search {
  import opened Walks

  datatype Label = Label(cost: Cost, fromClique: bool)

  datatype Search = Search(labels: map<NodeID, Label>, open: set<NodeID>) {
    ghost predicate Settled(v: NodeID) {
      v in labels && v !in open
    }
  }

  ghost predicate Covers(s: Search, a: Arc, base: Cost) {
    a.to in s.labels && AtMost(s.labels[a.to].cost, Plus(base, a.cost))
  }

  /** Whenever two clique arcs can be chained, a single one is at least as short. */
  ghost predicate Triangle(clique: iset<Arc>) {
    forall a, b :: a in clique && b in clique && a.to == b.from && a.from != b.to ==>
      exists c :: IsShortcut(clique, a, b, c)
  }

  ghost predicate IsShortcut(clique: iset<Arc>, a: Arc, b: Arc, c: Arc) {
    c in clique && c.from == a.from && c.to == b.to && AtMost(c.cost, Plus(a.cost, b.cost))
  }

  ghost predicate ArcsFit(clique: iset<Arc>, border: iset<Arc>) {
    Positive(clique + border) && Triangle(clique)
  }

  /** `v` was reached from the settled node `a.from` by the clique arc `a`. */
  ghost predicate ReachedBy(s: Search, v: NodeID, a: Arc) {
    && a.to == v && v in s.labels && s.Settled(a.from) && !s.labels[a.from].fromClique
    && s.labels[v].cost == Plus(s.labels[a.from].cost, a.cost)
  }

  ghost predicate HasWalk(arcs: iset<Arc>, source: NodeID, v: NodeID, c: Cost) {
    exists w :: IsWalk(arcs, source, w, v) && Length(w) == c
  }

  // The parts of the invariant.

  ghost predicate Started(source: NodeID, s: Search) {
    && s.open <= s.labels.Keys
    && source in s.labels && s.labels[source] == Label(ZERO, false)
    && (source in s.open ==> s.labels.Keys == {source})
  }

  ghost predicate LabelsAreWalks(arcs: iset<Arc>, source: NodeID, s: Search) {
    forall v :: v in s.labels ==> HasWalk(arcs, source, v, s.labels[v].cost)
  }

  ghost predicate SettledFirst(s: Search) {
    forall v, x :: s.Settled(v) && x in s.open && x in s.labels ==>
      s.labels[v].cost.weight <= s.labels[x].cost.weight
  }

  ghost predicate BorderRelaxed(border: iset<Arc>, s: Search) {
    forall a :: a in border && s.Settled(a.from) ==> Covers(s, a, s.labels[a.from].cost)
  }

  ghost predicate CliqueRelaxed(clique: iset<Arc>, s: Search) {
    forall a :: a in clique && s.Settled(a.from) && !s.labels[a.from].fromClique ==>
      Covers(s, a, s.labels[a.from].cost)
  }

  ghost predicate CliqueParents(clique: iset<Arc>, s: Search) {
    forall v :: v in s.labels && s.labels[v].fromClique ==>
      exists a :: a in clique && ReachedBy(s, v, a)
  }

  ghost predicate SettledExact(arcs: iset<Arc>, source: NodeID, s: Search) {
    forall v, w :: s.Settled(v) && IsWalk(arcs, source, w, v) ==>
      AtMost(s.labels[v].cost, Length(w))
  }

  ghost predicate Inv(clique: iset<Arc>, border: iset<Arc>, source: NodeID, s: Search) {
    && Started(source, s)
    && LabelsAreWalks(clique + border, source, s)
    && SettledFirst(s)
    && AllRelaxed(clique, border, s)
    && SettledExact(clique + border, source, s)
  }

  ghost predicate AllRelaxed(clique: iset<Arc>, border: iset<Arc>, s: Search) {
    BorderRelaxed(border, s) && CliqueRelaxed(clique, s) && CliqueParents(clique, s)
  }

  function Start(source: NodeID): Search {
    Search(map[source := Label(ZERO, false)], {source})
  }

  lemma StartInv(clique: iset<Arc>, border: iset<Arc>, source: NodeID)
    ensures Inv(clique, border, source, Start(source))
  {
    assert IsWalk(clique + border, source, Done, source) && Length(Done) == ZERO;
  }

  /**
   The clique skip loses nothing: even at settled nodes whose clique arcs were never
   scanned, every clique arc is already covered, through the node they were reached from.
   */
  lemma SkippedArcsAreCovered(clique: iset<Arc>, border: iset<Arc>, s: Search, a: Arc)
    requires ArcsFit(clique, border) && AllRelaxed(clique, border, s)
    requires a in clique + border && s.Settled(a.from)
    ensures Covers(s, a, s.labels[a.from].cost)
  {
    if a in clique && s.labels[a.from].fromClique {
      var p :| p in clique && ReachedBy(s, a.from, p);
      ParentCovers(clique, s, p, a);
    }
  }

  lemma ParentCovers(clique: iset<Arc>, s: Search, p: Arc, a: Arc)
    requires Positive(clique) && Triangle(clique) && CliqueRelaxed(clique, s)
    requires p in clique && ReachedBy(s, a.from, p) && a in clique
    ensures Covers(s, a, s.labels[a.from].cost)
  {
    var base := s.labels[p.from].cost;
    PlusAssociative(base, p.cost, a.cost);
    if p.from != a.to {
      var c :| IsShortcut(clique, p, a, c);
      assert Covers(s, c, base);
      PlusMonotone(c.cost, Plus(p.cost, a.cost), base);
      AtMostTransitive(s.labels[a.to].cost, Plus(base, c.cost), Plus(base, Plus(p.cost, a.cost)));
    } else {
      assert p.cost.weight > 0 && a.cost.weight > 0;
    }
  }

  /**
   Following a walk out of the settled nodes: either it ends at a settled node that it
   does not beat, or it passes an open node whose label is no longer than the walk, and
   of smaller weight unless it is the end of the walk.
   */
  lemma {:induction false} Frontier(clique: iset<Arc>, border: iset<Arc>, s: Search,
                                    x: NodeID, base: Cost, w: Walk, v: NodeID)
    returns (y: NodeID)
    requires ArcsFit(clique, border) && AllRelaxed(clique, border, s)
    requires s.Settled(x) && AtMost(s.labels[x].cost, base)
    requires IsWalk(clique + border, x, w, v)
    ensures y in s.labels
    ensures s.Settled(y) ==> y == v && AtMost(s.labels[y].cost, Plus(base, Length(w)))
    ensures !s.Settled(y) ==>
      || (y == v && AtMost(s.labels[y].cost, Plus(base, Length(w))))
      || s.labels[y].cost.weight < Plus(base, Length(w)).weight
    decreases w
  {
    match w
    case Done =>
      y := x;
    case Step(a, rest) =>
      SkippedArcsAreCovered(clique, border, s, a);
      PlusAssociative(base, a.cost, Length(rest));
      if s.Settled(a.to) {
        y := Frontier(clique, border, s, a.to, Plus(base, a.cost), rest, v);
      } else {
        y := a.to;
        PositiveLength(clique + border, a.to, rest, v);
      }
  }

  ghost predicate IsLeastOpen(s: Search, n: NodeID) {
    && n in s.open && s.open <= s.labels.Keys
    && forall x :: x in s.open ==> s.labels[n].cost.weight <= s.labels[x].cost.weight
  }

  /** A node leaves the heap with its exact distance. */
  lemma LeastIsExact(clique: iset<Arc>, border: iset<Arc>, source: NodeID, s: Search, n: NodeID, w: Walk)
    requires ArcsFit(clique, border) && Inv(clique, border, source, s)
    requires IsLeastOpen(s, n) && IsWalk(clique + border, source, w, n)
    ensures AtMost(s.labels[n].cost, Length(w))
  {
    if source in s.open {
      PositiveLength(clique + border, source, w, n);
      assert n in s.labels && s.labels[n].cost == ZERO;
      assert w == Done || Length(w).weight > 0;
    } else {
      var y := Frontier(clique, border, s, source, ZERO, w, n);
      assert Plus(ZERO, Length(w)) == Length(w) by { PlusAssociative(Length(w), ZERO, ZERO); }
      assert !s.Settled(y) ==> y in s.open;
    }
  }

  /** When the heap runs empty, exactly the reachable nodes are settled. */
  lemma ExhaustedIsComplete(clique: iset<Arc>, border: iset<Arc>, source: NodeID, s: Search, v: NodeID, w: Walk)
    requires ArcsFit(clique, border) && Inv(clique, border, source, s)
    requires s.open == {} && IsWalk(clique + border, source, w, v)
    ensures s.Settled(v)
  {
    var y := Frontier(clique, border, s, source, ZERO, w, v);
  }

  /**
   The state `s` after all arcs of `arcs` that leave `n` have been relaxed, starting in
   `pre`, where `n` has already been taken off the heap.
   */
  ghost predicate Relaxed(arcs: iset<Arc>, n: NodeID, fromClique: bool, pre: Search, s: Search)
    requires n in pre.labels
  {
    && pre.labels.Keys <= s.labels.Keys && s.open <= s.labels.Keys
    && (forall v :: v in s.labels ==> Kept(v, pre, s) || exists a :: ImprovedBy(arcs, a, n, v, fromClique, pre, s))
    && (forall a :: a in arcs && a.from == n ==> Covers(s, a, pre.labels[n].cost))
  }

  ghost predicate Kept(v: NodeID, pre: Search, s: Search) {
    v in pre.labels && v in s.labels && s.labels[v] == pre.labels[v] && (v in s.open <==> v in pre.open)
  }

  ghost predicate ImprovedBy(arcs: iset<Arc>, a: Arc, n: NodeID, v: NodeID, fromClique: bool, pre: Search, s: Search) {
    && n in pre.labels && v in s.labels && a in arcs && a.from == n && a.to == v && v in s.open
    && s.labels[v] == Label(Plus(pre.labels[n].cost, a.cost), fromClique)
    && (v in pre.labels ==> v in pre.open && Less(s.labels[v].cost, pre.labels[v].cost))
  }

  /** Settled nodes stay as they are, and labels only get shorter. */
  ghost predicate Descends(pre: Search, s: Search) {
    && (forall v :: pre.Settled(v) ==> s.Settled(v) && s.labels[v] == pre.labels[v])
    && (forall v :: s.Settled(v) ==> pre.Settled(v))
    && (forall v :: v in pre.labels ==> v in s.labels && AtMost(s.labels[v].cost, pre.labels[v].cost))
  }

  lemma RelaxedDescends(arcs: iset<Arc>, n: NodeID, fromClique: bool, pre: Search, s: Search)
    requires n in pre.labels && Relaxed(arcs, n, fromClique, pre, s)
    ensures Descends(pre, s)
  {
    forall v | v in s.labels
      ensures || Kept(v, pre, s)
              || (v in s.open && (v in pre.labels ==> v in pre.open && Less(s.labels[v].cost, pre.labels[v].cost)))
    {
      if !Kept(v, pre, s) {
        var a :| ImprovedBy(arcs, a, n, v, fromClique, pre, s);
      }
    }
  }

  /** Taking the least node off the heap and relaxing first its clique, then its border arcs. */
  ghost predicate IsStep(clique: iset<Arc>, border: iset<Arc>, n: NodeID, s: Search, mid: Search, s': Search) {
    && IsLeastOpen(s, n)
    && (if s.labels[n].fromClique then mid == Pop(s, n) else Relaxed(clique, n, true, Pop(s, n), mid))
    && n in mid.labels && Relaxed(border, n, false, mid, s')
  }

  function Pop(s: Search, n: NodeID): Search {
    s.(open := s.open - {n})
  }

  /** Every label after a step is either that of before, or that of `n` extended by one arc. */
  ghost predicate StepLabel(clique: iset<Arc>, border: iset<Arc>, n: NodeID, s: Search, s': Search, v: NodeID)
    requires n in s.labels && v in s'.labels
  {
    || Kept(v, Pop(s, n), s')
    || (v in s'.open && !s.Settled(v) && v != n
        && exists a :: a in clique + border && a.from == n && a.to == v
                       && s'.labels[v].cost == Plus(s.labels[n].cost, a.cost)
                       && (s'.labels[v].fromClique ==> a in clique && !s.labels[n].fromClique))
  }

  lemma StepDescends(clique: iset<Arc>, border: iset<Arc>, n: NodeID, s: Search, mid: Search, s': Search)
    requires IsStep(clique, border, n, s, mid, s')
    ensures Descends(Pop(s, n), mid) && Descends(mid, s') && Descends(Pop(s, n), s')
  {
    if !s.labels[n].fromClique {
      RelaxedDescends(clique, n, true, Pop(s, n), mid);
    }
    RelaxedDescends(border, n, false, mid, s');
    assert Descends(Pop(s, n), mid);
    forall v | v in s.labels
      ensures v in s'.labels && AtMost(s'.labels[v].cost, s.labels[v].cost)
    {
      assert v in Pop(s, n).labels;
      assert v in mid.labels && AtMost(mid.labels[v].cost, s.labels[v].cost);
    }
  }

  lemma StepLabels(clique: iset<Arc>, border: iset<Arc>, n: NodeID, s: Search, mid: Search, s': Search)
    requires IsStep(clique, border, n, s, mid, s')
    ensures forall v :: v in s'.labels ==> StepLabel(clique, border, n, s, s', v)
  {
    StepDescends(clique, border, n, s, mid, s');
    var popped := Pop(s, n);
    assert popped.Settled(n);
    forall v | v in s'.labels
      ensures StepLabel(clique, border, n, s, s', v)
    {
      if Kept(v, mid, s') {
        if !Kept(v, popped, mid) {
          var a :| ImprovedBy(clique, a, n, v, true, popped, mid);
          assert a in clique + border;
        }
      } else {
        var a :| ImprovedBy(border, a, n, v, false, mid, s');
        assert a in clique + border;
      }
    }
  }

  lemma StepKeepsWalks(clique: iset<Arc>, border: iset<Arc>, source: NodeID, n: NodeID, s: Search, s': Search)
    requires LabelsAreWalks(clique + border, source, s) && n in s.labels
    requires forall v :: v in s'.labels ==> StepLabel(clique, border, n, s, s', v)
    ensures LabelsAreWalks(clique + border, source, s')
  {
    var arcs := clique + border;
    forall v | v in s'.labels
      ensures HasWalk(arcs, source, v, s'.labels[v].cost)
    {
      if Kept(v, Pop(s, n), s') {
        assert HasWalk(arcs, source, v, s.labels[v].cost);
      } else {
        var a :| a in arcs && a.from == n && a.to == v && s'.labels[v].cost == Plus(s.labels[n].cost, a.cost);
        assert HasWalk(arcs, source, n, s.labels[n].cost);
        var w :| IsWalk(arcs, source, w, n) && Length(w) == s.labels[n].cost;
        Extend(arcs, source, w, a);
      }
    }
  }

  lemma StepKeepsOrder(clique: iset<Arc>, border: iset<Arc>, n: NodeID, s: Search, s': Search)
    requires Positive(clique + border) && SettledFirst(s) && IsLeastOpen(s, n)
    requires Descends(Pop(s, n), s') && s'.open <= s'.labels.Keys
    requires forall v :: v in s'.labels ==> StepLabel(clique, border, n, s, s', v)
    ensures SettledFirst(s')
  {
    forall v, x | s'.Settled(v) && x in s'.open && x in s'.labels
      ensures s'.labels[v].cost.weight <= s'.labels[x].cost.weight
    {
      assert Pop(s, n).Settled(v);
      assert s'.labels[v].cost.weight <= s.labels[n].cost.weight;
      if Kept(x, Pop(s, n), s') {
        assert x in s.open;
      }
    }
  }

  lemma StepKeepsParents(clique: iset<Arc>, border: iset<Arc>, n: NodeID, s: Search, s': Search)
    requires CliqueParents(clique, s) && n in s.open && n in s.labels
    requires Descends(Pop(s, n), s')
    requires forall v :: v in s'.labels ==> StepLabel(clique, border, n, s, s', v)
    ensures CliqueParents(clique, s')
  {
    var popped := Pop(s, n);
    assert popped.Settled(n) && s'.Settled(n);
    forall v | v in s'.labels && s'.labels[v].fromClique
      ensures exists a :: a in clique && ReachedBy(s', v, a)
    {
      if Kept(v, popped, s') {
        var a :| a in clique && ReachedBy(s, v, a);
        assert popped.Settled(a.from);
        assert ReachedBy(s', v, a);
      } else {
        var a :| a in clique + border && a.from == n && a.to == v
                 && s'.labels[v].cost == Plus(s.labels[n].cost, a.cost)
                 && (s'.labels[v].fromClique ==> a in clique && !s.labels[n].fromClique);
        assert ReachedBy(s', v, a);
      }
    }
  }

  /** What was covered before a step stays covered. */
  lemma StepKeepsOld(arcs: iset<Arc>, n: NodeID, s: Search, s': Search, a: Arc)
    requires Descends(Pop(s, n), s') && s'.Settled(a.from) && a.from != n
    requires s.Settled(a.from) ==> Covers(s, a, s.labels[a.from].cost)
    ensures Covers(s', a, s'.labels[a.from].cost)
  {
    assert Pop(s, n).Settled(a.from);
    assert Covers(Pop(s, n), a, s.labels[a.from].cost);
  }

  lemma StepKeepsCovers(clique: iset<Arc>, border: iset<Arc>, n: NodeID, s: Search, mid: Search, s': Search)
    requires BorderRelaxed(border, s) && CliqueRelaxed(clique, s) && IsStep(clique, border, n, s, mid, s')
    ensures BorderRelaxed(border, s') && CliqueRelaxed(clique, s')
  {
    StepDescends(clique, border, n, s, mid, s');
    var popped := Pop(s, n);
    assert popped.Settled(n) && mid.Settled(n);
    forall a | a in border && s'.Settled(a.from)
      ensures Covers(s', a, s'.labels[a.from].cost)
    {
      if a.from != n {
        StepKeepsOld(border, n, s, s', a);
      }
    }
    forall a | a in clique && s'.Settled(a.from) && !s'.labels[a.from].fromClique
      ensures Covers(s', a, s'.labels[a.from].cost)
    {
      if a.from != n {
        assert popped.Settled(a.from);
        StepKeepsOld(clique, n, s, s', a);
      } else {
        assert Covers(mid, a, popped.labels[n].cost);
      }
    }
  }

  lemma StepKeepsInv(clique: iset<Arc>, border: iset<Arc>, source: NodeID,
                     n: NodeID, s: Search, mid: Search, s': Search)
    requires ArcsFit(clique, border) && Inv(clique, border, source, s)
    requires IsStep(clique, border, n, s, mid, s')
    ensures Inv(clique, border, source, s')
    ensures forall v :: s'.Settled(v) <==> s.Settled(v) || v == n
  {
    var popped := Pop(s, n);
    StepDescends(clique, border, n, s, mid, s');
    StepLabels(clique, border, n, s, mid, s');
    assert forall v :: popped.Settled(v) <==> s.Settled(v) || v == n;
    StepKeepsWalks(clique, border, source, n, s, s');
    StepKeepsOrder(clique, border, n, s, s');
    StepKeepsParents(clique, border, n, s, s');
    StepKeepsCovers(clique, border, n, s, mid, s');
    assert Started(source, s') by {
      assert popped.Settled(source);
    }
    forall v, w | s'.Settled(v) && IsWalk(clique + border, source, w, v)
      ensures AtMost(s'.labels[v].cost, Length(w))
    {
      assert popped.Settled(v);
      if v == n {
        LeastIsExact(clique, border, source, s, n, w);
      }
    }
  }
}
