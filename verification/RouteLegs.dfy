/** Collapsing the legs of a route at those of its coordinates that are not waypoints. */
module RouteLegs {
  import opened Common

  datatype PathData = PathData(fromNode: nat, turnViaNode: nat, weightUntilTurn: int, weightOfTurn: int,
                               durationUntilTurn: int, durationOfTurn: int, datasource: nat, turnEdge: Option<nat>)

  datatype Phantom =
    Phantom(id: nat, forwardWeight: int, reverseWeight: int, forwardDuration: int, reverseDuration: int)

  datatype PhantomEndpoints = PhantomEndpoints(source: Phantom, target: Phantom)

  datatype InternalRouteResult = InternalRouteResult(segments: seq<seq<PathData>>, endpoints: seq<PhantomEndpoints>,
                                                     sourceReverse: seq<bool>, targetReverse: seq<bool>,
                                                     shortestPathWeight: int)
  {
    ghost predicate Valid() {
      |segments| == |endpoints| == |sourceReverse| == |targetReverse|
    }

    /** The route as a list of legs. */
    ghost function Legs(): (legs: seq<Leg>)
      requires Valid()
      ensures |legs| == |segments|
    {
      seq(|segments|, i requires 0 <= i < |segments| =>
        Leg(segments[i], endpoints[i].source, endpoints[i].target, sourceReverse[i], targetReverse[i]))
    }
  }

  datatype Leg = Leg(path: seq<PathData>, source: Phantom, target: Phantom, sourceReverse: bool, targetReverse: bool)

  // Absorbing a leg into the one before

  function SourceWeight(source: Phantom, reverse: bool): int {
    if reverse then source.reverseWeight else source.forwardWeight
  }

  function SourceDuration(source: Phantom, reverse: bool): int {
    if reverse then source.reverseDuration else source.forwardDuration
  }

  function Later(d: PathData, weight: int, duration: int): PathData {
    d.(weightUntilTurn := d.weightUntilTurn + weight, durationUntilTurn := d.durationUntilTurn + duration)
  }

  /** A path whose first segment gets the missing values of its source. */
  function Completed(path: seq<PathData>, source: Phantom, reverse: bool): (r: seq<PathData>)
    ensures |r| == |path|
  {
    if path == [] then []
    else path[0 := Later(path[0], SourceWeight(source, reverse), SourceDuration(source, reverse))]
  }

  function Absorb(a: Leg, b: Leg): Leg {
    Leg(a.path + Completed(b.path, b.source, b.sourceReverse), a.source, b.target, a.sourceReverse, b.targetReverse)
  }

  ghost function Collapsed(legs: seq<Leg>, isWaypoint: seq<bool>): (r: seq<Leg>)
    requires |legs| <= |isWaypoint| && (legs != [] ==> isWaypoint[0])
    ensures legs != [] ==> r != []
  {
    if legs == [] then []
    else
      var n := |legs| - 1;
      var c := Collapsed(legs[..n], isWaypoint);
      if isWaypoint[n] then c + [legs[n]] else c[|c| - 1 := Absorb(c[|c| - 1], legs[n])]
  }

  /** `last_segment.insert(...)` of a path, and what its first segment is missing. */
  method JoinPaths(last: seq<PathData>, path: seq<PathData>, source: Phantom, reverse: bool) returns (r: seq<PathData>)
    ensures r == last + Completed(path, source, reverse)
  {
    r := last + path;
    if path != [] {
      var oldSize := |last|;
      r := r[oldSize := r[oldSize].(weightUntilTurn := r[oldSize].weightUntilTurn
                                      + if reverse then source.reverseWeight else source.forwardWeight)];
      r := r[oldSize := r[oldSize].(durationUntilTurn := r[oldSize].durationUntilTurn
                                      + if reverse then source.reverseDuration else source.forwardDuration)];
    }
  }

  /** Every coordinate but the last starts a leg; those that are no waypoints continue the leg before. */
  method CollapseInternalRouteResult(leggy: InternalRouteResult, isWaypoint: seq<bool>)
    returns (collapsed: InternalRouteResult)
    requires leggy.Valid() && |isWaypoint| == |leggy.segments| + 1 && isWaypoint[0] && isWaypoint[|isWaypoint| - 1]
    ensures collapsed.Valid() && collapsed.shortestPathWeight == leggy.shortestPathWeight
    ensures collapsed.Legs() == Collapsed(leggy.Legs(), isWaypoint)
    ensures IsCollapsedFrom(leggy.Legs(), isWaypoint, collapsed.Legs())
  {
    hide InternalRouteResult.Legs, Absorb, Completed, IsCollapsedFrom;
    CollapsedInFields(leggy.Legs(), isWaypoint);
    ghost var legs := leggy.Legs();
    if |leggy.segments| == 1 {
      assert legs[..0] == [];
      return leggy;
    }
    collapsed := InternalRouteResult([], [], [], [], leggy.shortestPathWeight);
    assert legs[..0] == [];
    for i := 0 to |leggy.segments|
      invariant collapsed.Valid() && collapsed.shortestPathWeight == leggy.shortestPathWeight
      invariant collapsed.Legs() == Collapsed(legs[..i], isWaypoint)
    {
      assert legs[..i + 1][..i] == legs[..i];
      ghost var before := collapsed;
      if isWaypoint[i] {
        collapsed := InternalRouteResult(collapsed.segments + [leggy.segments[i]],
                                         collapsed.endpoints + [leggy.endpoints[i]],
                                         collapsed.sourceReverse + [leggy.sourceReverse[i]],
                                         collapsed.targetReverse + [leggy.targetReverse[i]],
                                         collapsed.shortestPathWeight);
        LegAdded(before, leggy, i, collapsed);
      } else {
        var last := |collapsed.segments| - 1;
        var path := JoinPaths(collapsed.segments[last], leggy.segments[i], leggy.endpoints[i].source,
                              leggy.sourceReverse[i]);
        collapsed := collapsed.(segments := collapsed.segments[last := path],
                                endpoints := collapsed.endpoints[last :=
                                  collapsed.endpoints[last].(target := leggy.endpoints[i].target)],
                                targetReverse := collapsed.targetReverse[last := leggy.targetReverse[i]]);
        LegAbsorbed(before, leggy, i, collapsed);
      }
    }
    assert legs[..|leggy.segments|] == legs;
  }

  lemma LegAdded(r: InternalRouteResult, leggy: InternalRouteResult, i: nat, r': InternalRouteResult)
    requires r.Valid() && leggy.Valid() && i < |leggy.segments|
    requires r' == InternalRouteResult(r.segments + [leggy.segments[i]], r.endpoints + [leggy.endpoints[i]],
                                       r.sourceReverse + [leggy.sourceReverse[i]],
                                       r.targetReverse + [leggy.targetReverse[i]], r.shortestPathWeight)
    ensures r'.Legs() == r.Legs() + [leggy.Legs()[i]]
  {}

  lemma LegAbsorbed(r: InternalRouteResult, leggy: InternalRouteResult, i: nat, r': InternalRouteResult)
    requires r.Valid() && leggy.Valid() && i < |leggy.segments| && r.segments != []
    requires var last := |r.segments| - 1;
             r' == r.(segments := r.segments[last := r.segments[last]
                                    + Completed(leggy.segments[i], leggy.endpoints[i].source, leggy.sourceReverse[i])],
                      endpoints := r.endpoints[last := r.endpoints[last].(target := leggy.endpoints[i].target)],
                      targetReverse := r.targetReverse[last := leggy.targetReverse[i]])
    ensures var last := |r.segments| - 1; r'.Legs() == r.Legs()[last := Absorb(r.Legs()[last], leggy.Legs()[i])]
  {}

  // The blocks that become legs

  /** Legs `i` to `j`, joined to one. */
  ghost function Block(legs: seq<Leg>, i: nat, j: nat): Leg
    requires i < j <= |legs|
  {
    if j == i + 1 then legs[i] else Absorb(Block(legs, i, j - 1), legs[j - 1])
  }

  ghost function Waypoints(isWaypoint: seq<bool>, n: nat): nat
    requires n <= |isWaypoint|
  {
    if n == 0 then 0 else Waypoints(isWaypoint, n - 1) + if isWaypoint[n - 1] then 1 else 0
  }

  /** From one waypoint to the next one, or to the end. */
  ghost predicate IsBlock(isWaypoint: seq<bool>, n: nat, i: nat, j: nat) {
    && i < j <= n <= |isWaypoint| && isWaypoint[i] && (j < n ==> isWaypoint[j])
    && forall k :: i < k < j ==> !isWaypoint[k]
  }

  /** There is one leg for every waypoint start, and it is the join of its block. */
  lemma {:induction false} LegOfWaypoint(legs: seq<Leg>, isWaypoint: seq<bool>, i: nat, j: nat)
    requires |legs| <= |isWaypoint| && (legs != [] ==> isWaypoint[0]) && IsBlock(isWaypoint, |legs|, i, j)
    ensures var c := Collapsed(legs, isWaypoint);
            && |c| == Waypoints(isWaypoint, |legs|) && Waypoints(isWaypoint, i) < |c|
            && c[Waypoints(isWaypoint, i)] == Block(legs, i, j)
            && (j == |legs| ==> Waypoints(isWaypoint, i) == |c| - 1)
  {
    hide Absorb;
    var n := |legs| - 1;
    var front := legs[..n];
    if j <= n {
      BlockOfFront(legs, i, j, n);
      LegOfWaypoint(front, isWaypoint, i, j);
      if !isWaypoint[n] {
        CountMonotone(isWaypoint, i, j, n);
      }
    } else if i < n {
      BlockOfFront(legs, i, n, n);
      LegOfWaypoint(front, isWaypoint, i, n);
    } else {
      LegCount(front, isWaypoint);
    }
  }

  lemma {:induction false} LegCount(legs: seq<Leg>, isWaypoint: seq<bool>)
    requires |legs| <= |isWaypoint| && (legs != [] ==> isWaypoint[0])
    ensures |Collapsed(legs, isWaypoint)| == Waypoints(isWaypoint, |legs|)
  {
    if legs != [] {
      LegCount(legs[..|legs| - 1], isWaypoint);
    }
  }

  lemma {:induction false} CountMonotone(isWaypoint: seq<bool>, i: nat, j: nat, n: nat)
    requires i < j < n < |isWaypoint| && isWaypoint[i] && isWaypoint[j]
    ensures Waypoints(isWaypoint, i) + 2 <= Waypoints(isWaypoint, n)
  {
    CountAtLeast(isWaypoint, i + 1, j);
    CountAtLeast(isWaypoint, j + 1, n);
  }

  lemma {:induction false} CountAtLeast(isWaypoint: seq<bool>, i: nat, n: nat)
    requires i <= n <= |isWaypoint|
    ensures Waypoints(isWaypoint, i) <= Waypoints(isWaypoint, n)
  {
    if i < n {
      CountAtLeast(isWaypoint, i, n - 1);
    }
  }

  lemma {:induction false} BlockOfFront(legs: seq<Leg>, i: nat, j: nat, n: nat)
    requires i < j <= n <= |legs|
    ensures Block(legs[..n], i, j) == Block(legs, i, j)
  {
    if i + 1 < j {
      BlockOfFront(legs, i, j - 1, n);
    }
  }

  // What a joined leg consists of

  /** Where the path of leg `k` starts in the join of the legs from `i` on. */
  ghost function PathStart(legs: seq<Leg>, i: nat, k: nat): nat
    requires i <= k <= |legs|
  {
    if k == i then 0 else PathStart(legs, i, k - 1) + |legs[k - 1].path|
  }

  /** The segment with what the source of its leg adds to it. */
  function WithSource(d: PathData, leg: Leg): PathData {
    if leg.sourceReverse then
      d.(weightUntilTurn := d.weightUntilTurn + leg.source.reverseWeight,
         durationUntilTurn := d.durationUntilTurn + leg.source.reverseDuration)
    else
      d.(weightUntilTurn := d.weightUntilTurn + leg.source.forwardWeight,
         durationUntilTurn := d.durationUntilTurn + leg.source.forwardDuration)
  }

  /**
   The leg goes from the first source to the last target of legs `i` to `j`, along all their segments;
   the first segment of each path but the first one gets what its source adds.
   */
  ghost predicate IsJoined(legs: seq<Leg>, i: nat, j: nat, leg: Leg)
    requires i < j <= |legs|
  {
    && leg.source == legs[i].source && leg.sourceReverse == legs[i].sourceReverse
    && leg.target == legs[j - 1].target && leg.targetReverse == legs[j - 1].targetReverse
    && |leg.path| == PathStart(legs, i, j)
    && forall k: nat, r: nat :: i <= k < j && r < |legs[k].path| ==> HoldsSegment(legs, i, k, r, leg.path)
  }

  /** Segment `r` of leg `k` is in its place. */
  ghost predicate HoldsSegment(legs: seq<Leg>, i: nat, k: nat, r: nat, path: seq<PathData>)
    requires i <= k < |legs| && r < |legs[k].path|
  {
    && PathStart(legs, i, k) + r < |path|
    && path[PathStart(legs, i, k) + r]
       == if i < k && r == 0 then WithSource(legs[k].path[r], legs[k]) else legs[k].path[r]
  }

  /** One leg for every waypoint that starts one. */
  ghost predicate IsCollapsedFrom(legs: seq<Leg>, isWaypoint: seq<bool>, collapsed: seq<Leg>)
    requires |legs| <= |isWaypoint|
  {
    && |collapsed| == Waypoints(isWaypoint, |legs|)
    && forall i: nat, j: nat :: IsBlock(isWaypoint, |legs|, i, j) ==>
         Waypoints(isWaypoint, i) < |collapsed| && IsJoined(legs, i, j, collapsed[Waypoints(isWaypoint, i)])
  }

  lemma CompletedInFields(leg: Leg, r: nat)
    requires r < |leg.path|
    ensures Completed(leg.path, leg.source, leg.sourceReverse)[r]
         == if r == 0 then WithSource(leg.path[r], leg) else leg.path[r]
  {}

  lemma {:induction false} BlockInFields(legs: seq<Leg>, i: nat, j: nat)
    requires i < j <= |legs|
    ensures IsJoined(legs, i, j, Block(legs, i, j))
  {
    hide IsJoined, Absorb;
    if j == i + 1 {
      SingleIsJoined(legs, i);
    } else {
      BlockInFields(legs, i, j - 1);
      OneMoreJoined(legs, i, j, Block(legs, i, j - 1));
    }
  }

  lemma {:induction false} SingleIsJoined(legs: seq<Leg>, i: nat)
    requires i < |legs|
    ensures IsJoined(legs, i, i + 1, legs[i])
  {
    assert PathStart(legs, i, i) == 0;
  }

  lemma {:induction false} OneMoreJoined(legs: seq<Leg>, i: nat, j: nat, leg: Leg)
    requires i < j - 1 && j <= |legs| && IsJoined(legs, i, j - 1, leg)
    ensures IsJoined(legs, i, j, Absorb(leg, legs[j - 1]))
  {
    hide Completed, WithSource;
    var last, joined := legs[j - 1], Absorb(leg, legs[j - 1]);
    forall k: nat, r: nat | i <= k < j && r < |legs[k].path|
      ensures HoldsSegment(legs, i, k, r, joined.path)
    {
      if k < j - 1 {
        assert HoldsSegment(legs, i, k, r, leg.path);
      } else {
        CompletedInFields(last, r);
      }
    }
  }

  lemma {:induction false} CollapsedInFields(legs: seq<Leg>, isWaypoint: seq<bool>)
    requires |legs| <= |isWaypoint| && (legs != [] ==> isWaypoint[0])
    ensures IsCollapsedFrom(legs, isWaypoint, Collapsed(legs, isWaypoint))
  {
    hide IsJoined, Collapsed, IsBlock;
    LegCount(legs, isWaypoint);
    forall i: nat, j: nat | IsBlock(isWaypoint, |legs|, i, j)
      ensures i < j <= |legs| && Waypoints(isWaypoint, i) < |Collapsed(legs, isWaypoint)|
      ensures IsJoined(legs, i, j, Collapsed(legs, isWaypoint)[Waypoints(isWaypoint, i)])
    {
      BlockBounds(isWaypoint, |legs|, i, j);
      LegOfWaypoint(legs, isWaypoint, i, j);
      BlockInFields(legs, i, j);
    }
  }

  lemma BlockBounds(isWaypoint: seq<bool>, n: nat, i: nat, j: nat)
    requires IsBlock(isWaypoint, n, i, j)
    ensures i < j <= n
  {}

  /** The path of a leg without what the absorption changes. */
  function Route(path: seq<PathData>): seq<PathData> {
    if path == [] then []
    else Route(path[..|path| - 1]) + [path[|path| - 1].(weightUntilTurn := 0, durationUntilTurn := 0)]
  }

  ghost function Routes(legs: seq<Leg>, i: nat, j: nat): seq<PathData>
    requires i <= j <= |legs|
  {
    if i == j then [] else Routes(legs, i, j - 1) + Route(legs[j - 1].path)
  }

  /** A joined leg goes along all paths of its block, from the first source to the last target. */
  lemma {:induction false} BlockIsJoined(legs: seq<Leg>, i: nat, j: nat)
    requires i < j <= |legs|
    ensures var leg := Block(legs, i, j);
            && Route(leg.path) == Routes(legs, i, j)
            && leg.source == legs[i].source && leg.sourceReverse == legs[i].sourceReverse
            && leg.target == legs[j - 1].target && leg.targetReverse == legs[j - 1].targetReverse
  {
    if j == i + 1 {
      assert Routes(legs, i, i) == [];
    } else {
      BlockIsJoined(legs, i, j - 1);
      var b := legs[j - 1];
      RouteOfJoined(Block(legs, i, j - 1).path, Completed(b.path, b.source, b.sourceReverse));
      RouteOfCompleted(b.path, b.source, b.sourceReverse);
    }
  }

  lemma {:induction false} RouteOfJoined(p: seq<PathData>, q: seq<PathData>)
    ensures Route(p + q) == Route(p) + Route(q)
  {
    if q == [] {
      assert p + q == p;
    } else {
      assert (p + q)[..|p + q| - 1] == p + q[..|q| - 1];
      RouteOfJoined(p, q[..|q| - 1]);
    }
  }

  lemma RouteOfCompleted(path: seq<PathData>, source: Phantom, reverse: bool)
    ensures Route(Completed(path, source, reverse)) == Route(path)
  {
    if path != [] {
      var c := Completed(path, source, reverse);
      assert path == [path[0]] + path[1..] && c == [c[0]] + path[1..];
      RouteOfJoined([path[0]], path[1..]);
      RouteOfJoined([c[0]], path[1..]);
      RouteOfOne(path[0]);
      RouteOfOne(c[0]);
    }
  }

  lemma RouteOfOne(d: PathData)
    ensures Route([d]) == [d.(weightUntilTurn := 0, durationUntilTurn := 0)]
  {
    assert [d][..0] == [];
  }

  // Durations and weights

  function PathDuration(path: seq<PathData>): int {
    if path == [] then 0 else PathDuration(path[..|path| - 1]) + path[|path| - 1].durationUntilTurn
  }

  function PathWeight(path: seq<PathData>): int {
    if path == [] then 0 else PathWeight(path[..|path| - 1]) + path[|path| - 1].weightUntilTurn
  }

  ghost function Duration(legs: seq<Leg>): int {
    if legs == [] then 0 else Duration(legs[..|legs| - 1]) + PathDuration(legs[|legs| - 1].path)
  }

  ghost function Weight(legs: seq<Leg>): int {
    if legs == [] then 0 else Weight(legs[..|legs| - 1]) + PathWeight(legs[|legs| - 1].path)
  }

  /** The sum over all segments of all legs. */
  method TotalDuration(route: InternalRouteResult) returns (sum: int)
    requires route.Valid()
    ensures sum == Duration(route.Legs())
  {
    sum := 0;
    ghost var legs := route.Legs();
    for i := 0 to |route.segments|
      invariant sum == Duration(legs[..i])
    {
      var leg := route.segments[i];
      for k := 0 to |leg|
        invariant sum == Duration(legs[..i]) + PathDuration(leg[..k])
      {
        assert leg[..k + 1][..k] == leg[..k];
        sum := sum + leg[k].durationUntilTurn;
      }
      assert leg[..|leg|] == leg && legs[..i + 1][..i] == legs[..i];
    }
    assert legs[..|route.segments|] == legs;
  }

  /** The values of the sources of those absorbed legs that have segments. */
  ghost function AddedDuration(legs: seq<Leg>, isWaypoint: seq<bool>): int
    requires |legs| <= |isWaypoint|
  {
    if legs == [] then 0
    else
      var n := |legs| - 1;
      var leg := legs[n];
      AddedDuration(legs[..n], isWaypoint)
      + if isWaypoint[n] || leg.path == [] then 0
        else if leg.sourceReverse then leg.source.reverseDuration else leg.source.forwardDuration
  }

  ghost function AddedWeight(legs: seq<Leg>, isWaypoint: seq<bool>): int
    requires |legs| <= |isWaypoint|
  {
    if legs == [] then 0
    else
      var n := |legs| - 1;
      var leg := legs[n];
      AddedWeight(legs[..n], isWaypoint)
      + if isWaypoint[n] || leg.path == [] then 0
        else if leg.sourceReverse then leg.source.reverseWeight else leg.source.forwardWeight
  }

  lemma {:induction false} SumsOfJoined(p: seq<PathData>, q: seq<PathData>)
    ensures PathDuration(p + q) == PathDuration(p) + PathDuration(q)
    ensures PathWeight(p + q) == PathWeight(p) + PathWeight(q)
  {
    if q == [] {
      assert p + q == p;
    } else {
      assert (p + q)[..|p + q| - 1] == p + q[..|q| - 1];
      SumsOfJoined(p, q[..|q| - 1]);
    }
  }

  lemma SumsOfOne(d: PathData)
    ensures PathDuration([d]) == d.durationUntilTurn && PathWeight([d]) == d.weightUntilTurn
  {
    assert [d][..0] == [];
  }

  lemma SumsOfCompleted(path: seq<PathData>, source: Phantom, reverse: bool)
    ensures PathDuration(Completed(path, source, reverse))
         == PathDuration(path) + if path == [] then 0 else SourceDuration(source, reverse)
    ensures PathWeight(Completed(path, source, reverse))
         == PathWeight(path) + if path == [] then 0 else SourceWeight(source, reverse)
  {
    if path != [] {
      var c := Completed(path, source, reverse);
      assert path == [path[0]] + path[1..] && c == [c[0]] + path[1..];
      SumsOfJoined([path[0]], path[1..]);
      SumsOfJoined([c[0]], path[1..]);
      SumsOfOne(path[0]);
      SumsOfOne(c[0]);
    }
  }

  /** The total duration and weight grow by exactly what the sources of the absorbed legs add. */
  lemma {:induction false} CollapsingAddsSources(legs: seq<Leg>, isWaypoint: seq<bool>)
    requires |legs| <= |isWaypoint| && (legs != [] ==> isWaypoint[0])
    ensures Duration(Collapsed(legs, isWaypoint)) == Duration(legs) + AddedDuration(legs, isWaypoint)
    ensures Weight(Collapsed(legs, isWaypoint)) == Weight(legs) + AddedWeight(legs, isWaypoint)
  {
    if legs != [] {
      var n := |legs| - 1;
      var c, c', b := Collapsed(legs[..n], isWaypoint), Collapsed(legs, isWaypoint), legs[n];
      CollapsingAddsSources(legs[..n], isWaypoint);
      if isWaypoint[n] {
        assert c'[..|c'| - 1] == c;
      } else {
        var last := |c| - 1;
        assert c'[..last] == c[..last];
        SumsOfJoined(c[last].path, Completed(b.path, b.source, b.sourceReverse));
        SumsOfCompleted(b.path, b.source, b.sourceReverse);
      }
    }
  }

  // Collapsing in stages

  predicate AddsNothing(leg: Leg) {
    if leg.sourceReverse then leg.source.reverseWeight == 0 && leg.source.reverseDuration == 0
    else leg.source.forwardWeight == 0 && leg.source.forwardDuration == 0
  }

  /**
   The order of two absorptions matters exactly if the leg in the middle has no segments, the
   last one has, and the source of the middle one would be added to it.
   */
  lemma AbsorbIsAssociative(a: Leg, b: Leg, c: Leg)
    ensures Absorb(a, Absorb(b, c)) == Absorb(Absorb(a, b), c) <==> b.path != [] || c.path == [] || AddsNothing(b)
  {
    var q := Completed(c.path, c.source, c.sourceReverse);
    var left, right := Absorb(a, Absorb(b, c)).path, Absorb(Absorb(a, b), c).path;
    var completed := Completed(b.path + q, b.source, b.sourceReverse);
    assert left == a.path + completed;
    CompletedTwice(b, q);
    if b.path != [] {
      assert left == right;
    } else {
      assert a.path + [] == a.path;
      assert right == a.path + q;
      assert left[|a.path|..] == completed && right[|a.path|..] == q;
    }
  }

  /** Completing a path again changes it exactly if it has a first segment and something is added. */
  lemma CompletedTwice(b: Leg, q: seq<PathData>)
    ensures var completed := Completed(b.path + q, b.source, b.sourceReverse);
            if b.path != [] then completed == Completed(b.path, b.source, b.sourceReverse) + q
            else completed == q <==> q == [] || AddsNothing(b)
  {
    if b.path == [] {
      assert b.path + q == q;
      if q != [] {
        assert q == q[0 := q[0]];
      }
    }
  }

  /** Which of the legs that are left after a first stage start at a waypoint. */
  ghost function Remaining(isWaypoint: seq<bool>, first: seq<bool>, n: nat): (r: seq<bool>)
    requires n <= |isWaypoint| == |first|
    ensures |r| == Waypoints(first, n)
    ensures n > 0 && first[0] && isWaypoint[0] ==> r != [] && r[0]
  {
    if n == 0 then [] else Remaining(isWaypoint, first, n - 1) + if first[n - 1] then [isWaypoint[n - 1]] else []
  }

  /** Leg `k` is absorbed in the first stage into the one that starts with leg `i`. */
  ghost predicate IsAbsorbedInto(first: seq<bool>, i: nat, k: nat) {
    i < k < |first| && first[i] && forall j :: i < j <= k ==> !first[j]
  }

  /**
   No leg without segments whose source adds something gets segments in the first stage, unless it
   starts at a waypoint.
   */
  ghost predicate IsHarmless(legs: seq<Leg>, isWaypoint: seq<bool>, first: seq<bool>)
    requires |legs| <= |isWaypoint| == |first|
  {
    forall i: nat, k: nat :: k < |legs| && IsAbsorbedInto(first, i, k) && !isWaypoint[i] ==>
      legs[i].path != [] || AddsNothing(legs[i]) || legs[k].path == []
  }

  /** The leg that starts the one to which leg `n` is absorbed in the first stage. */
  ghost function Start(first: seq<bool>, n: nat): (i: nat)
    requires n < |first| && first[0]
    ensures i <= n && first[i] && forall j :: i < j <= n ==> !first[j]
  {
    if first[n] then n else Start(first, n - 1)
  }

  lemma {:induction false} EmptyBlock(legs: seq<Leg>, i: nat, j: nat)
    requires i < j <= |legs|
    ensures Block(legs, i, j).path == [] <==> forall k :: i <= k < j ==> legs[k].path == []
    ensures Block(legs, i, j).source == legs[i].source && Block(legs, i, j).sourceReverse == legs[i].sourceReverse
  {
    if i + 1 < j {
      EmptyBlock(legs, i, j - 1);
    }
  }

  lemma BlockIsAbsorbed(first: seq<bool>, n: nat)
    requires n < |first| && first[0] && !first[n]
    ensures Start(first, n) < n
    ensures forall k :: Start(first, n) < k <= n ==> IsAbsorbedInto(first, Start(first, n), k)
    ensures forall i :: IsAbsorbedInto(first, i, n) ==> i == Start(first, n)
  {}

  lemma NothingIsAbsorbed(first: seq<bool>, n: nat)
    requires n < |first| && first[n]
    ensures forall i :: !IsAbsorbedInto(first, i, n)
  {}

  /** One more leg does harm if it has segments, and there are none before it in its block. */
  lemma OneMoreIsHarmless(legs: seq<Leg>, isWaypoint: seq<bool>, first: seq<bool>, n: nat)
    requires 0 < n < |legs| <= |isWaypoint| == |first| && first[0]
    ensures IsHarmless(legs[..n + 1], isWaypoint, first) <==>
            && IsHarmless(legs[..n], isWaypoint, first)
            && var i := Start(first, n);
               (!first[n] && !isWaypoint[i] && legs[n].path != [] && Block(legs, i, n).path == []
                ==> AddsNothing(legs[i]))
  {
    hide Block, AddsNothing, Start;
    var i, front, next := Start(first, n), legs[..n], legs[..n + 1];
    assert forall k :: 0 <= k < n ==> front[k] == next[k] == legs[k];
    if first[n] {
      NothingIsAbsorbed(first, n);
    } else {
      EmptyBlock(legs, i, n);
      BlockIsAbsorbed(first, n);
      if IsHarmless(next, isWaypoint, first) {
        assert IsAbsorbedInto(first, i, n) && next[i] == legs[i] && next[n] == legs[n];
      }
      if IsHarmless(front, isWaypoint, first) && !isWaypoint[i] && Block(legs, i, n).path != [] && legs[i].path == [] {
        var k :| i <= k < n && legs[k].path != [];
        assert IsAbsorbedInto(first, i, k) && front[i] == legs[i] && front[k] == legs[k];
      }
    }
  }

  /** Only the entries for the legs matter. */
  lemma {:induction false} CollapsedByPrefix(legs: seq<Leg>, w: seq<bool>, w': seq<bool>)
    requires |legs| <= |w| && |legs| <= |w'| && w[..|legs|] == w'[..|legs|] && (legs != [] ==> w[0])
    ensures legs != [] ==> w'[0]
    ensures Collapsed(legs, w) == Collapsed(legs, w')
  {
    if legs != [] {
      var n := |legs| - 1;
      assert w[..|legs|][..n] == w[..n] && w'[..|legs|][..n] == w'[..n];
      assert w[..|legs|][0] == w[0] && w'[..|legs|][0] == w'[0];
      assert w[..|legs|][n] == w[n] && w'[..|legs|][n] == w'[n];
      CollapsedByPrefix(legs[..n], w, w');
    }
  }

  /** Absorbing a leg in the first stage shows in the second one: there, or in what is absorbed there. */
  lemma AbsorbInStage(stage: seq<Leg>, rest: seq<bool>, leg: Leg)
    requires stage != [] && |rest| == |stage| && rest[0]
    ensures var m := |stage| - 1;
            var c, t := Collapsed(stage[..m], rest), Collapsed(stage, rest);
            var t' := Collapsed(stage[m := Absorb(stage[m], leg)], rest);
            && (rest[m] ==> t' == t[|t| - 1 := Absorb(t[|t| - 1], leg)])
            && (!rest[m] ==> c != [])
            && (!rest[m] ==> t == c[|c| - 1 := Absorb(c[|c| - 1], stage[m])])
            && (!rest[m] ==> t' == c[|c| - 1 := Absorb(c[|c| - 1], Absorb(stage[m], leg))])
  {
    hide Absorb;
    var m := |stage| - 1;
    var last := Absorb(stage[m], leg);
    assert stage[m := last][..m] == stage[..m];
    var c := Collapsed(stage[..m], rest);
    if rest[m] {
      assert (c + [stage[m]])[|c| := last] == c + [last];
    }
  }

  /** Adding a leg in the first stage shows in the second one as adding or absorbing it there. */
  lemma AddInStage(stage: seq<Leg>, rest: seq<bool>, leg: Leg, atWaypoint: bool)
    requires |rest| == |stage| && if stage == [] then atWaypoint else rest[0]
    ensures var c := Collapsed(stage, rest);
            && (atWaypoint ==> Collapsed(stage + [leg], rest + [atWaypoint]) == c + [leg])
            && (!atWaypoint ==>
                  c != [] && Collapsed(stage + [leg], rest + [atWaypoint]) == c[|c| - 1 := Absorb(c[|c| - 1], leg)])
  {
    hide Collapsed, Absorb;
    assert (stage + [leg])[..|stage|] == stage;
    OneMoreLeg(stage + [leg], rest + [atWaypoint]);
    CollapsedByPrefix(stage, rest + [atWaypoint], rest);
  }

  lemma NothingCollapsed(isWaypoint: seq<bool>, first: seq<bool>)
    requires |isWaypoint| == |first|
    ensures Collapsed([], first) == Collapsed([], isWaypoint) == [] && Remaining(isWaypoint, first, 0) == []
    ensures forall w :: Collapsed([], w) == []
  {}

  lemma OneMoreLeg(legs: seq<Leg>, isWaypoint: seq<bool>)
    requires 0 < |legs| <= |isWaypoint| && isWaypoint[0]
    ensures var n := |legs| - 1;
            var c := Collapsed(legs[..n], isWaypoint);
            && (isWaypoint[n] ==> Collapsed(legs, isWaypoint) == c + [legs[n]])
            && (!isWaypoint[n] ==> c != [] && Collapsed(legs, isWaypoint) == c[|c| - 1 := Absorb(c[|c| - 1], legs[n])])
  {}

  lemma OneMoreRemaining(isWaypoint: seq<bool>, first: seq<bool>, n: nat)
    requires n < |isWaypoint| == |first|
    ensures Remaining(isWaypoint, first, n + 1)
         == if first[n] then Remaining(isWaypoint, first, n) + [isWaypoint[n]] else Remaining(isWaypoint, first, n)
  {
    assert Remaining(isWaypoint, first, n) + [] == Remaining(isWaypoint, first, n);
  }

  // Two results that agree in everything but the values along their paths

  predicate IsSimilarLeg(a: Leg, b: Leg) {
    |a.path| == |b.path| && b == a.(path := b.path)
  }

  ghost predicate AreSimilar(s: seq<Leg>, t: seq<Leg>) {
    |s| == |t| && forall m :: 0 <= m < |s| ==> IsSimilarLeg(s[m], t[m])
  }

  lemma AppendedPaths(p: seq<PathData>, p': seq<PathData>, q: seq<PathData>, q': seq<PathData>)
    requires |p| == |p'|
    ensures p + q == p' + q' <==> p == p' && q == q'
  {
    assert (p + q)[..|p|] == p && (p' + q')[..|p'|] == p';
    assert (p + q)[|p|..] == q && (p' + q')[|p'|..] == q';
  }

  lemma AbsorbBoth(a: Leg, b: Leg, leg: Leg)
    requires IsSimilarLeg(a, b)
    ensures IsSimilarLeg(Absorb(a, leg), Absorb(b, leg))
    ensures Absorb(a, leg) == Absorb(b, leg) <==> a == b
  {
    var q := Completed(leg.path, leg.source, leg.sourceReverse);
    AppendedPaths(a.path, b.path, q, q);
  }

  /** Absorbing a leg too early is wrong exactly if it gets what the source of the leg before adds. */
  lemma AbsorbEarly(a: Leg, b: Leg, leg: Leg, o: Leg)
    requires IsSimilarLeg(Absorb(a, b), o)
    ensures IsSimilarLeg(Absorb(a, Absorb(b, leg)), Absorb(o, leg))
    ensures Absorb(a, Absorb(b, leg)) == Absorb(o, leg) <==>
            Absorb(a, b) == o && (b.path != [] || leg.path == [] || AddsNothing(b))
  {
    var q := Completed(leg.path, leg.source, leg.sourceReverse);
    var completed := Completed(b.path + q, b.source, b.sourceReverse);
    CompletedTwice(b, q);
    if b.path != [] {
      assert Absorb(a, Absorb(b, leg)) == Absorb(Absorb(a, b), leg) by {
        AbsorbIsAssociative(a, b, leg);
      }
      AbsorbBoth(Absorb(a, b), o, leg);
    } else {
      assert a.path + [] == a.path;
      AppendedPaths(a.path, o.path, completed, q);
    }
  }

  lemma ReplaceLast(s: seq<Leg>, t: seq<Leg>, a: Leg, b: Leg)
    requires AreSimilar(s, t) && s != [] && IsSimilarLeg(a, b)
    ensures var last := |s| - 1;
            && AreSimilar(s[last := a], t[last := b])
            && (s == t <==> s[..last] == t[..last] && s[last] == t[last])
            && (s[last := a] == t[last := b] <==> s[..last] == t[..last] && a == b)
  {
    var last := |s| - 1;
    assert s == s[..last] + [s[last]] && t == t[..last] + [t[last]];
    assert s[last := a] == s[..last] + [a] && t[last := b] == t[..last] + [b];
    assert (s[..last] + [a])[..last] == s[..last] && (t[..last] + [b])[..last] == t[..last];
  }

  lemma AddToBoth(s: seq<Leg>, t: seq<Leg>, leg: Leg)
    requires AreSimilar(s, t)
    ensures AreSimilar(s + [leg], t + [leg]) && (s + [leg] == t + [leg] <==> s == t)
  {
    assert (s + [leg])[..|s|] == s && (t + [leg])[..|t|] == t;
  }

  lemma AbsorbInBoth(s: seq<Leg>, t: seq<Leg>, leg: Leg)
    requires AreSimilar(s, t) && s != []
    ensures var last := |s| - 1;
            var s', t' := s[last := Absorb(s[last], leg)], t[last := Absorb(t[last], leg)];
            AreSimilar(s', t') && (s' == t' <==> s == t)
  {
    hide Absorb, IsSimilarLeg;
    var last := |s| - 1;
    AbsorbBoth(s[last], t[last], leg);
    ReplaceLast(s, t, Absorb(s[last], leg), Absorb(t[last], leg));
  }

  lemma AbsorbEarlyInFirst(c: seq<Leg>, b: Leg, leg: Leg, t: seq<Leg>)
    requires c != [] && AreSimilar(c[|c| - 1 := Absorb(c[|c| - 1], b)], t)
    ensures var last := |c| - 1;
            var s := c[last := Absorb(c[last], b)];
            var s', t' := c[last := Absorb(c[last], Absorb(b, leg))], t[last := Absorb(t[last], leg)];
            && AreSimilar(s', t')
            && (s' == t' <==> s == t && (b.path != [] || leg.path == [] || AddsNothing(b)))
  {
    hide Absorb, IsSimilarLeg, AddsNothing;
    var last := |c| - 1;
    var s := c[last := Absorb(c[last], b)];
    AbsorbEarly(c[last], b, leg, t[last]);
    ReplaceLast(s, t, Absorb(c[last], Absorb(b, leg)), Absorb(t[last], leg));
    assert s[last := Absorb(c[last], Absorb(b, leg))] == c[last := Absorb(c[last], Absorb(b, leg))];
  }

  /** The last leg of the first stage, and whether it starts at a waypoint. */
  lemma LastOfStage(legs: seq<Leg>, isWaypoint: seq<bool>, first: seq<bool>, n: nat)
    requires 0 < n < |legs| <= |isWaypoint| == |first| && first[0] && !first[n]
    ensures var stage, rest := Collapsed(legs[..n], first), Remaining(isWaypoint, first, n);
            && |stage| == |rest| > 0 && Start(first, n) < n
            && stage[|stage| - 1] == Block(legs, Start(first, n), n)
            && rest[|rest| - 1] == isWaypoint[Start(first, n)]
  {
    hide Collapsed, Block;
    var i := Start(first, n);
    LegCount(legs[..n], first);
    LegOfWaypoint(legs[..n], first, i, n);
    BlockOfFront(legs, i, n, n);
    RemainingAt(isWaypoint, first, n, i);
  }

  lemma {:induction false} RemainingAt(isWaypoint: seq<bool>, first: seq<bool>, n: nat, i: nat)
    requires i < n <= |isWaypoint| == |first| && first[i]
    ensures Waypoints(first, i) < |Remaining(isWaypoint, first, n)|
    ensures Remaining(isWaypoint, first, n)[Waypoints(first, i)] == isWaypoint[i]
  {
    if i < n - 1 {
      RemainingAt(isWaypoint, first, n - 1, i);
    }
  }

  /** What both stages together make of the legs. */
  ghost function InStages(legs: seq<Leg>, isWaypoint: seq<bool>, first: seq<bool>): seq<Leg>
    requires |legs| <= |isWaypoint| == |first| && (legs != [] ==> isWaypoint[0] && first[0])
  {
    LegCount(legs, first);
    Collapsed(Collapsed(legs, first), Remaining(isWaypoint, first, |legs|))
  }

  /** Both stages together do what a single one does, exactly if the first one does no harm. */
  lemma StagesAgree(legs: seq<Leg>, isWaypoint: seq<bool>, first: seq<bool>)
    requires |legs| <= |isWaypoint| == |first| && (legs != [] ==> isWaypoint[0])
    requires forall i :: 0 <= i < |legs| && isWaypoint[i] ==> first[i]
    ensures InStages(legs, isWaypoint, first) == Collapsed(legs, isWaypoint) <==> IsHarmless(legs, isWaypoint, first)
  {
    CompareStages(legs, isWaypoint, first);
  }

  lemma {:induction false} CompareStages(legs: seq<Leg>, isWaypoint: seq<bool>, first: seq<bool>)
    requires |legs| <= |isWaypoint| == |first| && (legs != [] ==> isWaypoint[0])
    requires forall i :: 0 <= i < |legs| && isWaypoint[i] ==> first[i]
    ensures var t, o := InStages(legs, isWaypoint, first), Collapsed(legs, isWaypoint);
            AreSimilar(t, o) && (t == o <==> IsHarmless(legs, isWaypoint, first))
  {
    if |legs| <= 1 {
      FewLegs(legs, isWaypoint, first);
    } else {
      CompareStages(legs[..|legs| - 1], isWaypoint, first);
      OneMoreInStages(legs, isWaypoint, first);
    }
  }

  lemma FewLegs(legs: seq<Leg>, isWaypoint: seq<bool>, first: seq<bool>)
    requires |legs| <= 1 && |legs| <= |isWaypoint| == |first| && (legs != [] ==> isWaypoint[0] && first[0])
    ensures InStages(legs, isWaypoint, first) == Collapsed(legs, isWaypoint)
    ensures AreSimilar(InStages(legs, isWaypoint, first), Collapsed(legs, isWaypoint))
    ensures IsHarmless(legs, isWaypoint, first)
  {
    hide Collapsed, Remaining, Absorb, AddsNothing;
    NothingCollapsed(isWaypoint, first);
    if legs != [] {
      OneMoreRemaining(isWaypoint, first, 0);
      assert Remaining(isWaypoint, first, |legs|) == [true];
      SingleLeg(legs, first);
      SingleLeg(legs, isWaypoint);
      SingleLeg(legs, [true]);
    }
  }

  lemma SingleLeg(legs: seq<Leg>, isWaypoint: seq<bool>)
    requires |legs| == 1 <= |isWaypoint| && isWaypoint[0]
    ensures Collapsed(legs, isWaypoint) == legs
  {
    assert legs[..0] == [];
  }

  /** A leg without segments that is no waypoint is joined to one with segments first: the stages differ. */
  lemma EmptyLegMatters(a: Leg, b: Leg, c: Leg)
    requires b.path == [] && !AddsNothing(b) && c.path != []
    ensures InStages([a, b, c], [true, false, false], [true, true, false])
         != Collapsed([a, b, c], [true, false, false])
  {
    var legs, isWaypoint, first := [a, b, c], [true, false, false], [true, true, false];
    assert IsAbsorbedInto(first, 1, 2) && legs[1] == b && legs[2] == c;
    StagesAgree(legs, isWaypoint, first);
  }

  lemma OneMoreInStages(legs: seq<Leg>, isWaypoint: seq<bool>, first: seq<bool>)
    requires 1 < |legs| <= |isWaypoint| == |first| && isWaypoint[0]
    requires forall i :: 0 <= i < |legs| && isWaypoint[i] ==> first[i]
    requires var front := legs[..|legs| - 1];
             var t, o := InStages(front, isWaypoint, first), Collapsed(front, isWaypoint);
             AreSimilar(t, o) && (t == o <==> IsHarmless(front, isWaypoint, first))
    ensures var t, o := InStages(legs, isWaypoint, first), Collapsed(legs, isWaypoint);
            AreSimilar(t, o) && (t == o <==> IsHarmless(legs, isWaypoint, first))
  {
    hide Collapsed, Remaining, Absorb, AddsNothing, Block, IsHarmless, IsSimilarLeg, Waypoints;
    var n := |legs| - 1;
    var front, leg := legs[..n], legs[n];
    var stage, rest, o := Collapsed(front, first), Remaining(isWaypoint, first, n), Collapsed(front, isWaypoint);
    LegCount(front, first);
    OneMoreLeg(legs, first);
    OneMoreLeg(legs, isWaypoint);
    OneMoreRemaining(isWaypoint, first, n);
    OneMoreIsHarmless(legs, isWaypoint, first, n);
    assert legs[..n + 1] == legs;
    var t := Collapsed(stage, rest);
    if first[n] {
      AddInStage(stage, rest, leg, isWaypoint[n]);
      if isWaypoint[n] {
        AddToBoth(t, o, leg);
      } else {
        AbsorbInBoth(t, o, leg);
      }
    } else {
      LastOfStage(legs, isWaypoint, first, n);
      var i, m := Start(first, n), |stage| - 1;
      AbsorbInStage(stage, rest, leg);
      if isWaypoint[i] {
        AbsorbInBoth(t, o, leg);
      } else {
        EmptyBlock(legs, i, n);
        SourceOfBlock(legs, i, n);
        AbsorbEarlyInFirst(Collapsed(stage[..m], rest), stage[m], leg, o);
      }
    }
  }

  lemma SourceOfBlock(legs: seq<Leg>, i: nat, n: nat)
    requires i < n <= |legs|
    ensures AddsNothing(Block(legs, i, n)) <==> AddsNothing(legs[i])
  {
    EmptyBlock(legs, i, n);
  }
}
