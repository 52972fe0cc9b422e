/**
 Walks over weighted arcs, compared by (weight, duration, distance) in that order,
 and the distance between two nodes: the least length of any walk, or no walk at all.
 */
module Walks {
  type NodeID = nat

  datatype Cost = Cost(weight: int, duration: int, distance: real)

  const ZERO := Cost(0, 0, 0.0)

  function Plus(a: Cost, b: Cost): Cost {
    Cost(a.weight + b.weight, a.duration + b.duration, a.distance + b.distance)
  }

  /** The comparison of `std::tie(weight, duration, distance)`. */
  predicate Less(a: Cost, b: Cost) {
    a.weight < b.weight
    || (a.weight == b.weight && a.duration < b.duration)
    || (a.weight == b.weight && a.duration == b.duration && a.distance < b.distance)
  }

  predicate AtMost(a: Cost, b: Cost) {
    a == b || Less(a, b)
  }

  datatype Arc = Arc(from: NodeID, to: NodeID, cost: Cost)

  datatype Walk = Done | Step(arc: Arc, rest: Walk)

  ghost predicate IsWalk(arcs: iset<Arc>, u: NodeID, w: Walk, v: NodeID)
    decreases w
  {
    match w
    case Done => u == v
    case Step(a, rest) => a in arcs && a.from == u && IsWalk(arcs, a.to, rest, v)
  }

  function Length(w: Walk): Cost {
    match w
    case Done => ZERO
    case Step(a, rest) => Plus(a.cost, Length(rest))
  }

  function Append(w: Walk, w': Walk): Walk {
    match w
    case Done => w'
    case Step(a, rest) => Step(a, Append(rest, w'))
  }

  datatype Distance = Unreachable | Reachable(cost: Cost)

  /** `d` is the distance from `u` to `v`. */
  ghost predicate IsDistance(arcs: iset<Arc>, u: NodeID, v: NodeID, d: Distance) {
    match d
    case Unreachable => forall w :: !IsWalk(arcs, u, w, v)
    case Reachable(c) =>
      && (exists w :: IsWalk(arcs, u, w, v) && Length(w) == c)
      && forall w :: IsWalk(arcs, u, w, v) ==> AtMost(c, Length(w))
  }

  /** Every arc has a positive weight. */
  ghost predicate Positive(arcs: iset<Arc>) {
    forall a :: a in arcs ==> a.cost.weight > 0
  }

  lemma PlusAssociative(a: Cost, b: Cost, c: Cost)
    ensures Plus(a, Plus(b, c)) == Plus(Plus(a, b), c)
    ensures Plus(ZERO, a) == a == Plus(a, ZERO)
  {}

  lemma AtMostTransitive(a: Cost, b: Cost, c: Cost)
    requires AtMost(a, b) && AtMost(b, c)
    ensures AtMost(a, c)
  {}

  lemma PlusMonotone(a: Cost, b: Cost, c: Cost)
    requires AtMost(a, b)
    ensures AtMost(Plus(a, c), Plus(b, c)) && AtMost(Plus(c, a), Plus(c, b))
  {}

  /** A walk extended by one arc at its end. */
  lemma Extend(arcs: iset<Arc>, u: NodeID, w: Walk, a: Arc)
    requires IsWalk(arcs, u, w, a.from) && a in arcs
    ensures IsWalk(arcs, u, Append(w, Step(a, Done)), a.to)
    ensures Length(Append(w, Step(a, Done))) == Plus(Length(w), a.cost)
  {
    assert IsWalk(arcs, a.from, Step(a, Done), a.to);
    AppendIsWalk(arcs, u, w, a.from, Step(a, Done), a.to);
    AppendLength(w, Step(a, Done));
    PlusAssociative(a.cost, ZERO, ZERO);
  }

  lemma {:induction false} AppendLength(w: Walk, w': Walk)
    ensures Length(Append(w, w')) == Plus(Length(w), Length(w'))
  {
    match w
    case Done =>
      PlusAssociative(Length(w'), ZERO, ZERO);
    case Step(a, rest) =>
      AppendLength(rest, w');
      PlusAssociative(a.cost, Length(rest), Length(w'));
  }

  lemma {:induction false} AppendIsWalk(arcs: iset<Arc>, u: NodeID, w: Walk, v: NodeID, w': Walk, x: NodeID)
    requires IsWalk(arcs, u, w, v) && IsWalk(arcs, v, w', x)
    ensures IsWalk(arcs, u, Append(w, w'), x)
    decreases w
  {
    match w
    case Done =>
    case Step(a, rest) =>
      AppendIsWalk(arcs, a.to, rest, v, w', x);
      assert Append(w, w') == Step(a, Append(rest, w'));
  }

  lemma {:induction false} WalkInLarger(arcs: iset<Arc>, larger: iset<Arc>, u: NodeID, w: Walk, v: NodeID)
    requires IsWalk(arcs, u, w, v) && arcs <= larger
    ensures IsWalk(larger, u, w, v)
    decreases w
  {
    if w.Step? {
      WalkInLarger(arcs, larger, w.arc.to, w.rest, v);
    }
  }

  lemma {:induction false} PositiveLength(arcs: iset<Arc>, u: NodeID, w: Walk, v: NodeID)
    requires IsWalk(arcs, u, w, v) && Positive(arcs)
    ensures w.Step? ==> Length(w).weight > 0
    decreases w
  {
    if w.Step? {
      PositiveLength(arcs, w.arc.to, w.rest, v);
    }
  }

  lemma DistanceIsUnique(arcs: iset<Arc>, u: NodeID, v: NodeID, d: Distance, d': Distance)
    requires IsDistance(arcs, u, v, d) && IsDistance(arcs, u, v, d')
    ensures d == d'
  {
    if d.Reachable? && d'.Reachable? {
      var w :| IsWalk(arcs, u, w, v) && Length(w) == d.cost;
      var w' :| IsWalk(arcs, u, w', v) && Length(w') == d'.cost;
      assert AtMost(d'.cost, Length(w)) && AtMost(d.cost, Length(w'));
    }
  }

  /** There is an arc of `fewer` that is as good as `a`, or `a` leads nowhere. */
  ghost predicate IsCovered(fewer: iset<Arc>, a: Arc) {
    || (a.from == a.to && AtMost(ZERO, a.cost))
    || exists b :: b in fewer && b.from == a.from && b.to == a.to && AtMost(b.cost, a.cost)
  }

  lemma {:induction false} CoveredWalk(fewer: iset<Arc>, arcs: iset<Arc>, u: NodeID, w: Walk, v: NodeID)
    returns (w': Walk)
    requires IsWalk(arcs, u, w, v) && forall a :: a in arcs ==> IsCovered(fewer, a)
    ensures IsWalk(fewer, u, w', v) && AtMost(Length(w'), Length(w))
    decreases w
  {
    match w
    case Done =>
      w' := Done;
    case Step(a, rest) =>
      var rest' := CoveredWalk(fewer, arcs, a.to, rest, v);
      PlusMonotone(Length(rest'), Length(rest), a.cost);
      if a.from == a.to && AtMost(ZERO, a.cost) {
        w' := rest';
        PlusMonotone(ZERO, a.cost, Length(rest'));
        PlusAssociative(Length(rest'), ZERO, ZERO);
        AtMostTransitive(Length(rest'), Plus(a.cost, Length(rest')), Length(w));
      } else {
        var b :| b in fewer && b.from == a.from && b.to == a.to && AtMost(b.cost, a.cost);
        w' := Step(b, rest');
        PlusMonotone(b.cost, a.cost, Length(rest'));
        AtMostTransitive(Length(w'), Plus(a.cost, Length(rest')), Length(w));
      }
  }

  /** Arcs that are covered by others may be left out. */
  lemma FewerArcsSuffice(fewer: iset<Arc>, arcs: iset<Arc>, u: NodeID, v: NodeID, d: Distance)
    requires fewer <= arcs && forall a :: a in arcs ==> IsCovered(fewer, a)
    ensures IsDistance(arcs, u, v, d) <==> IsDistance(fewer, u, v, d)
  {
    if IsDistance(arcs, u, v, d) {
      DistanceOfFewer(fewer, arcs, u, v, d);
    }
    if IsDistance(fewer, u, v, d) {
      forall w | IsWalk(arcs, u, w, v)
        ensures d.Reachable? && AtMost(d.cost, Length(w))
      {
        var w' := CoveredWalk(fewer, arcs, u, w, v);
        assert d.Reachable?;
        AtMostTransitive(d.cost, Length(w'), Length(w));
      }
      if d.Reachable? {
        var w :| IsWalk(fewer, u, w, v) && Length(w) == d.cost;
        WalkInLarger(fewer, arcs, u, w, v);
      }
    }
  }

  lemma DistanceOfFewer(fewer: iset<Arc>, arcs: iset<Arc>, u: NodeID, v: NodeID, d: Distance)
    requires fewer <= arcs && forall a :: a in arcs ==> IsCovered(fewer, a)
    requires IsDistance(arcs, u, v, d)
    ensures IsDistance(fewer, u, v, d)
  {
    forall w | IsWalk(fewer, u, w, v)
      ensures IsWalk(arcs, u, w, v)
    {
      WalkInLarger(fewer, arcs, u, w, v);
    }
    if d.Reachable? {
      var w :| IsWalk(arcs, u, w, v) && Length(w) == d.cost;
      var w' := CoveredWalk(fewer, arcs, u, w, v);
      assert AtMost(d.cost, Length(w')) && AtMost(Length(w'), d.cost);
      assert Length(w') == d.cost;
    }
  }

  // Lengths and distances, value by value

  function TotalWeight(w: Walk): int {
    if w.Done? then 0 else w.arc.cost.weight + TotalWeight(w.rest)
  }

  function TotalDuration(w: Walk): int {
    if w.Done? then 0 else w.arc.cost.duration + TotalDuration(w.rest)
  }

  function TotalDistance(w: Walk): real {
    if w.Done? then 0.0 else w.arc.cost.distance + TotalDistance(w.rest)
  }

  /** No walk has less weight, nor of the same weight less duration, nor of the same duration less distance. */
  ghost predicate IsNoLonger(c: Cost, w: Walk) {
    if c.weight != TotalWeight(w) then c.weight < TotalWeight(w)
    else if c.duration != TotalDuration(w) then c.duration < TotalDuration(w)
    else c.distance <= TotalDistance(w)
  }

  ghost predicate SumsTo(w: Walk, c: Cost) {
    c.weight == TotalWeight(w) && c.duration == TotalDuration(w) && c.distance == TotalDistance(w)
  }

  lemma {:induction false} LengthInValues(w: Walk)
    ensures SumsTo(w, Length(w))
  {
    if w.Step? {
      LengthInValues(w.rest);
    }
  }

  lemma {:induction false} ComparesInValues(w: Walk, c: Cost)
    ensures Length(w) == c <==> SumsTo(w, c)
    ensures AtMost(c, Length(w)) <==> IsNoLonger(c, w)
  {
    LengthInValues(w);
  }

  /** A distance is the sums of the arcs of some walk, and no walk is shorter. */
  lemma {:induction false} DistanceInValues(arcs: iset<Arc>, u: NodeID, v: NodeID, c: Cost)
    ensures IsDistance(arcs, u, v, Reachable(c)) <==>
            && (exists w :: IsWalk(arcs, u, w, v) && SumsTo(w, c))
            && forall w :: IsWalk(arcs, u, w, v) ==> IsNoLonger(c, w)
  {
    hide AtMost, IsNoLonger, IsWalk, Length, SumsTo;
    forall w: Walk
      ensures Length(w) == c <==> SumsTo(w, c)
      ensures AtMost(c, Length(w)) <==> IsNoLonger(c, w)
    {
      ComparesInValues(w, c);
    }
  }
}
