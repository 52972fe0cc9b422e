/**
 Snapping a coordinate to the road network: which of the segments around it become candidates,
 and which edge stands for a segment that is met at the connection of two of its edges.
 */
module Snapping {
  import opened Common

  datatype Coordinate = Coordinate(lon: int, lat: int)

  datatype SegmentID = SegmentID(id: nat, enabled: bool)

  datatype EdgeData = EdgeData(forward: SegmentID, reverse: SegmentID, position: nat)

  datatype CandidateSegment = CandidateSegment(location: Coordinate, data: EdgeData)

  /** The validity of a segment in its two directions. */
  type Directions = (bool, bool)

  function Both(a: Directions, b: Directions): Directions {
    (a.0 && b.0, a.1 && b.1)
  }

  predicate Any(a: Directions) {
    a.0 || a.1
  }

  /**
   What a query asks of a segment: whether it is in a tiny component, in which directions it
   passes the exclusion, approach, edge and bearing checks, and how far its location is.
   */
  datatype Query = Query(isTiny: nat -> bool, exclude: CandidateSegment -> Directions,
                         approach: CandidateSegment -> Directions, edge: CandidateSegment -> Directions,
                         bearing: CandidateSegment -> Directions, distance: Coordinate -> real,
                         maxDistance: Option<real>)
  {
    function Use(c: CandidateSegment): Directions {
      Both(Both(Both(exclude(c), approach(c)), edge(c)), bearing(c))
    }

    predicate IsValid(c: CandidateSegment) {
      Any(Use(c))
    }

    predicate IsBig(c: CandidateSegment) {
      !isTiny(c.data.forward.id)
    }

    predicate IsTooFar(c: CandidateSegment) {
      maxDistance.Some? && maxDistance.value != -1.0 && distance(c.location) > maxDistance.value
    }

    /** The candidate with only those directions enabled that may be used. */
    function Narrowed(c: CandidateSegment): CandidateSegment {
      var use := Use(c);
      c.(data := c.data.(forward := c.data.forward.(enabled := c.data.forward.enabled && use.0),
                         reverse := c.data.reverse.(enabled := c.data.reverse.enabled && use.1)))
    }
  }

  // What is to be accepted

  /** The first valid candidate, or the first valid one from a big component. */
  function First(q: Query, s: seq<CandidateSegment>, big: bool): (first: Option<Coordinate>)
    ensures first.None? <==> forall c :: c in s ==> !(q.IsValid(c) && (big ==> q.IsBig(c)))
  {
    if s == [] then None
    else
      assert s == s[..|s| - 1] + [s[|s| - 1]];
      var earlier := First(q, s[..|s| - 1], big);
      if earlier.Some? then earlier
      else if q.IsValid(s[|s| - 1]) && (big ==> q.IsBig(s[|s| - 1])) then Some(s[|s| - 1].location)
      else None
  }

  lemma FirstAfter(q: Query, s: seq<CandidateSegment>, c: CandidateSegment, big: bool)
    ensures var first := First(q, s, big);
            First(q, s + [c], big)
            == if first.None? && q.IsValid(c) && (big ==> q.IsBig(c)) then Some(c.location) else first
  {
    assert (s + [c])[..|s|] == s;
  }

  /** Candidates from tiny components count at the nearest location only, others at the first big one. */
  predicate IsChosen(q: Query, nearest: Option<Coordinate>, big: Option<Coordinate>, c: CandidateSegment) {
    q.IsValid(c) && Some(c.location) == if q.IsBig(c) then big else nearest
  }

  function Chosen(q: Query, nearest: Option<Coordinate>, big: Option<Coordinate>, s: seq<CandidateSegment>)
    : seq<CandidateSegment>
  {
    if s == [] then []
    else
      var last := s[|s| - 1];
      Chosen(q, nearest, big, s[..|s| - 1]) + if IsChosen(q, nearest, big, last) then [q.Narrowed(last)] else []
  }

  /** All that is to be accepted of a stream. */
  function Accepted(q: Query, s: seq<CandidateSegment>): seq<CandidateSegment> {
    Chosen(q, First(q, s, false), First(q, s, true), s)
  }

  /** The search ends when the next candidate is farther than the big component, or than allowed. */
  predicate IsEnd(q: Query, before: seq<CandidateSegment>, c: CandidateSegment) {
    var big := First(q, before, true);
    (big.Some? && q.distance(c.location) > q.distance(big.value)) || q.IsTooFar(c)
  }

  /** Where the search ends that has come to the `k`th candidate. */
  function EndOf(q: Query, stream: seq<CandidateSegment>, k: nat): (n: nat)
    requires k <= |stream|
    ensures k <= n <= |stream|
    ensures forall i :: k <= i < n ==> !IsEnd(q, stream[..i], stream[i])
    ensures n < |stream| ==> IsEnd(q, stream[..n], stream[n])
    decreases |stream| - k
  {
    if k == |stream| || IsEnd(q, stream[..k], stream[k]) then k else EndOf(q, stream, k + 1)
  }

  /** The candidates that are looked at. */
  function Searched(q: Query, stream: seq<CandidateSegment>): seq<CandidateSegment> {
    stream[..EndOf(q, stream, 0)]
  }

  // The filter remembers the locations that it has seen

  class LocationFilter {
    const query: Query
    var hasNearest: bool
    var nearest: Coordinate
    var hasBigComponent: bool
    var bigComponent: Coordinate
    var bigComponentDistance: real

    constructor (query: Query)
      ensures this.query == query && Remembers([])
    {
      this.query := query;
      hasNearest, hasBigComponent := false, false;
      nearest, bigComponent := Coordinate(0, 0), Coordinate(0, 0);
      bigComponentDistance := 0.0;
    }

    /** The state after the candidates of `s` were seen. */
    ghost predicate Remembers(s: seq<CandidateSegment>)
      reads this
    {
      && First(query, s, false) == (if hasNearest then Some(nearest) else None)
      && First(query, s, true) == (if hasBigComponent then Some(bigComponent) else None)
      && (hasBigComponent ==> bigComponentDistance == query.distance(bigComponent))
    }

    method Use(c: CandidateSegment, ghost s: seq<CandidateSegment>) returns (use: Directions)
      requires Remembers(s)
      modifies this
      ensures Remembers(s + [c])
      ensures Any(use) <==> IsChosen(query, First(query, s + [c], false), First(query, s + [c], true), c)
      ensures Any(use) ==> use == query.Use(c)
    {
      hide First;
      FirstAfter(query, s, c, false);
      FirstAfter(query, s, c, true);
      var isBig := query.IsBig(c);
      var notNearest := hasNearest && c.location != nearest;
      var notBig := hasBigComponent && c.location != bigComponent;
      if (!isBig && notNearest) || (isBig && notBig) {
        return (false, false);
      }
      use := query.Use(c);
      if Any(use) {
        if !hasNearest {
          hasNearest, nearest := true, c.location;
        }
        if isBig && !hasBigComponent {
          hasBigComponent, bigComponent := true, c.location;
          bigComponentDistance := query.distance(c.location);
        }
      }
    }

    method Terminates(c: CandidateSegment, ghost s: seq<CandidateSegment>) returns (end: bool)
      requires Remembers(s)
      ensures end <==> IsEnd(query, s, c)
    {
      var noMoreCandidates := hasBigComponent && query.distance(c.location) > bigComponentDistance;
      end := noMoreCandidates || query.IsTooFar(c);
    }

    lemma NearestIsFirst(s: seq<CandidateSegment>)
      requires Remembers(s)
      ensures First(query, s, false).Some? ==> First(query, s, false) == Some(nearest)
    {}
  }

  /** Goes through the stream of segments until the search ends. */
  method Nearest(query: Query, stream: seq<CandidateSegment>)
    returns (results: seq<CandidateSegment>, nearest: Coordinate)
    ensures results == Accepted(query, Searched(query, stream))
    ensures results != [] ==> First(query, Searched(query, stream), false) == Some(nearest)
  {
    hide Accepted, First, IsEnd, IsChosen, LocationFilter.Remembers;
    var filter := new LocationFilter(query);
    NothingAccepted(query);
    assert stream[..0] == [];
    results := [];
    ghost var n := 0;
    for i := 0 to |stream|
      invariant n == i && fresh(filter) && filter.query == query && filter.Remembers(stream[..i])
      invariant results == Accepted(query, stream[..i])
      invariant EndOf(query, stream, i) == EndOf(query, stream, 0)
    {
      var c := stream[i];
      ghost var s := stream[..i];
      var end := filter.Terminates(c, s);
      if end {
        break;
      }
      assert stream[..i + 1] == s + [c];
      AcceptsOneMore(query, s, c);
      var use := filter.Use(c, s);
      n := i + 1;
      if !Any(use) {
        continue;
      }
      results := results + [query.Narrowed(c)];
    }
    nearest := filter.nearest;
    filter.NearestIsFirst(stream[..n]);
    AcceptedNotEmpty(query, stream[..n]);
  }

  lemma {:induction false} ChosenOfNone(q: Query, nearest: Option<Coordinate>, big: Option<Coordinate>,
                                        nearest': Option<Coordinate>, big': Option<Coordinate>,
                                        s: seq<CandidateSegment>)
    requires First(q, s, false).None? || nearest == nearest'
    requires First(q, s, true).None? || big == big'
    ensures Chosen(q, nearest, big, s) == Chosen(q, nearest', big', s)
  {
    if s != [] {
      var last := s[|s| - 1];
      ChosenOfNone(q, nearest, big, nearest', big', s[..|s| - 1]);
      assert last in s;
    }
  }

  /** What was accepted once remains so, because the locations do not change. */
  lemma AcceptsOneMore(q: Query, s: seq<CandidateSegment>, c: CandidateSegment)
    ensures var t := s + [c];
            var chosen := IsChosen(q, First(q, t, false), First(q, t, true), c);
            Accepted(q, t) == Accepted(q, s) + if chosen then [q.Narrowed(c)] else []
  {
    var t := s + [c];
    assert t[..|t| - 1] == s;
    ChosenOfNone(q, First(q, s, false), First(q, s, true), First(q, t, false), First(q, t, true), s);
  }

  lemma NothingAccepted(q: Query)
    ensures Accepted(q, []) == []
  {}

  lemma AcceptedNotEmpty(q: Query, s: seq<CandidateSegment>)
    ensures Accepted(q, s) != [] ==> First(q, s, false).Some?
  {
    if First(q, s, false).None? {
      NothingChosen(q, None, First(q, s, true), s);
    }
  }

  lemma {:induction false} NothingChosen(q: Query, nearest: Option<Coordinate>, big: Option<Coordinate>,
                                         s: seq<CandidateSegment>)
    requires First(q, s, false).None?
    ensures Chosen(q, nearest, big, s) == []
  {
    if s != [] {
      NothingChosen(q, nearest, big, s[..|s| - 1]);
      assert s[|s| - 1] in s;
    }
  }

  // Where the accepted candidates lie

  /** Candidates from tiny components lie at the nearest location, others at a single big one. */
  ghost predicate LieTogether(q: Query, results: seq<CandidateSegment>, nearest: Option<Coordinate>,
                              big: Option<Coordinate>)
  {
    forall c :: c in results ==> Some(c.location) == if q.IsBig(c) then big else nearest
  }

  lemma {:induction false} ChosenLieTogether(q: Query, nearest: Option<Coordinate>, big: Option<Coordinate>,
                                             s: seq<CandidateSegment>)
    ensures LieTogether(q, Chosen(q, nearest, big, s), nearest, big)
  {
    if s != [] {
      ChosenLieTogether(q, nearest, big, s[..|s| - 1]);
    }
  }

  /** Whatever is accepted away from the nearest location is big, and lies at one location. */
  lemma AlternativesAreBig(q: Query, s: seq<CandidateSegment>, nearest: Coordinate)
    requires Accepted(q, s) != [] ==> First(q, s, false) == Some(nearest)
    ensures forall c :: c in Accepted(q, s) && c.location != nearest ==>
              q.IsBig(c) && Some(c.location) == First(q, s, true)
  {
    ChosenLieTogether(q, First(q, s, false), First(q, s, true), s);
  }

  // Ending early

  ghost predicate IsOrdered(q: Query, s: seq<CandidateSegment>) {
    forall i, j :: 0 <= i < j < |s| ==> q.distance(s[i].location) <= q.distance(s[j].location)
  }

  lemma {:induction false} FirstIsThere(q: Query, s: seq<CandidateSegment>, big: bool) returns (i: nat)
    requires First(q, s, big).Some?
    ensures i < |s| && s[i].location == First(q, s, big).value
  {
    i := |s| - 1;
    if First(q, s[..|s| - 1], big).Some? {
      i := FirstIsThere(q, s[..|s| - 1], big);
    }
  }

  lemma {:induction false} NearestIsNotFarther(q: Query, s: seq<CandidateSegment>)
    requires IsOrdered(q, s) && First(q, s, true).Some?
    ensures First(q, s, false).Some? && q.distance(First(q, s, false).value) <= q.distance(First(q, s, true).value)
  {
    var front := s[..|s| - 1];
    if First(q, front, true).Some? {
      NearestIsNotFarther(q, front);
    } else if First(q, front, false).Some? {
      var i := FirstIsThere(q, front, false);
      assert front[i] == s[i];
    }
  }

  lemma FartherIsNotAccepted(q: Query, s: seq<CandidateSegment>, c: CandidateSegment)
    requires IsOrdered(q, s) && First(q, s, true).Some? && q.distance(c.location) > q.distance(First(q, s, true).value)
    ensures Accepted(q, s + [c]) == Accepted(q, s)
    ensures First(q, s + [c], true) == First(q, s, true)
  {
    assert (s + [c])[..|s|] == s;
    NearestIsNotFarther(q, s);
    AcceptsOneMore(q, s, c);
  }

  lemma {:induction false} FartherAreNotAccepted(q: Query, stream: seq<CandidateSegment>, n: nat, m: nat,
                                                 big: Coordinate)
    requires n <= m <= |stream| && IsOrdered(q, stream) && First(q, stream[..n], true) == Some(big)
    requires n < m ==> q.distance(stream[n].location) > q.distance(big)
    ensures Accepted(q, stream[..n]) == Accepted(q, stream[..m]) && First(q, stream[..m], true) == Some(big)
    decreases m
  {
    hide Accepted, First;
    if n < m {
      var s, c := stream[..m - 1], stream[m - 1];
      FartherAreNotAccepted(q, stream, n, m - 1, big);
      assert stream[..m] == s + [c];
      assert n < m - 1 ==> q.distance(stream[n].location) <= q.distance(c.location);
      FartherIsNotAccepted(q, s, c);
    }
  }

  /**
   In a stream that is ordered by distance, the search accepts as much as if it went on through all
   of the first `m` candidates, up to the first one that is too far away.
   */
  lemma EndingEarlyLosesNothing(q: Query, stream: seq<CandidateSegment>, m: nat)
    requires m <= |stream| && IsOrdered(q, stream)
    requires forall k :: 0 <= k < m ==> !q.IsTooFar(stream[k])
    requires m < |stream| ==> q.IsTooFar(stream[m])
    ensures Accepted(q, Searched(q, stream)) == Accepted(q, stream[..m])
  {
    var n := EndOf(q, stream, 0);
    if m < n {
      assert IsEnd(q, stream[..m], stream[m]);
    } else if n < m {
      FartherAreNotAccepted(q, stream, n, m, First(q, stream[..n], true).value);
    }
  }

  // One edge for each segment

  predicate SameSegment(a: EdgeData, b: EdgeData) {
    a.forward.id == b.forward.id && a.reverse.id == b.reverse.id
  }

  predicate IsBidirected(d: EdgeData) {
    d.forward.enabled && d.reverse.enabled
  }

  /** The first candidate of the same segment, if there is any. */
  function Find(candidates: seq<EdgeData>, data: EdgeData, i: nat): (k: nat)
    requires i <= |candidates|
    ensures i <= k <= |candidates|
    ensures forall m :: i <= m < k ==> !SameSegment(candidates[m], data)
    ensures k < |candidates| ==> SameSegment(candidates[k], data)
    decreases |candidates| - i
  {
    if i == |candidates| || SameSegment(candidates[i], data) then i else Find(candidates, data, i + 1)
  }

  /** Whether the second edge of a segment takes the place of the first one. */
  predicate IsReplaced(current: EdgeData, data: EdgeData) {
    if current.position < data.position then
      data.forward.enabled && data.reverse.enabled && !(current.forward.enabled && current.reverse.enabled)
    else
      !current.forward.enabled || !current.reverse.enabled || (data.forward.enabled && data.reverse.enabled)
  }

  function Added(candidates: seq<EdgeData>, data: EdgeData): seq<EdgeData> {
    var k := Find(candidates, data, 0);
    if k == |candidates| then candidates + [data]
    else if IsReplaced(candidates[k], data) then candidates[k := data]
    else candidates
  }

  function AllAdded(list: seq<EdgeData>): seq<EdgeData> {
    if list == [] then [] else Added(AllAdded(list[..|list| - 1]), list[|list| - 1])
  }

  method AddToCandidates(candidates: seq<EdgeData>, data: EdgeData) returns (r: seq<EdgeData>)
    ensures r == Added(candidates, data)
  {
    var it := 0;
    while it < |candidates| && !SameSegment(candidates[it], data)
      invariant 0 <= it <= |candidates| && Find(candidates, data, it) == Find(candidates, data, 0)
    {
      it := it + 1;
    }
    if it == |candidates| {
      return candidates + [data];
    }
    r := candidates;
    var candidate := candidates[it];
    if candidate.position < data.position {
      if data.forward.enabled && data.reverse.enabled && !(candidate.forward.enabled && candidate.reverse.enabled) {
        r := candidates[it := data];
      }
    } else {
      if !candidate.forward.enabled || !candidate.reverse.enabled || (data.forward.enabled && data.reverse.enabled) {
        r := candidates[it := data];
      }
    }
  }

  /** The edges at a location, or away from it. */
  function DataAt(results: seq<CandidateSegment>, location: Coordinate, at: bool): (list: seq<EdgeData>)
    ensures forall d :: d in list <==> exists c :: c in results && (c.location == location) == at && c.data == d
  {
    if results == [] then []
    else
      var last := results[|results| - 1];
      assert results == results[..|results| - 1] + [last];
      DataAt(results[..|results| - 1], location, at) + if (last.location == location) == at then [last.data] else []
  }

  method MakeAlternativeBigCandidates(nearest: Coordinate, results: seq<CandidateSegment>)
    returns (nearestCandidates: seq<EdgeData>, bigCandidates: seq<EdgeData>)
    ensures nearestCandidates == AllAdded(DataAt(results, nearest, true))
    ensures bigCandidates == AllAdded(DataAt(results, nearest, false))
  {
    assert DataAt(results[..0], nearest, true) == DataAt(results[..0], nearest, false) == [];
    hide AllAdded, DataAt;
    NoneAdded();
    nearestCandidates, bigCandidates := [], [];
    for i := 0 to |results|
      invariant nearestCandidates == AllAdded(DataAt(results[..i], nearest, true))
      invariant bigCandidates == AllAdded(DataAt(results[..i], nearest, false))
    {
      OneMoreResult(results, i, nearest, true);
      OneMoreResult(results, i, nearest, false);
      if results[i].location == nearest {
        nearestCandidates := AddToCandidates(nearestCandidates, results[i].data);
      } else {
        bigCandidates := AddToCandidates(bigCandidates, results[i].data);
      }
    }
    assert results[..|results|] == results;
  }

  lemma NoneAdded()
    ensures AllAdded([]) == []
  {}

  lemma OneMoreResult(results: seq<CandidateSegment>, i: nat, location: Coordinate, at: bool)
    requires i < |results|
    ensures AllAdded(DataAt(results[..i + 1], location, at))
         == if (results[i].location == location) == at
            then Added(AllAdded(DataAt(results[..i], location, at)), results[i].data)
            else AllAdded(DataAt(results[..i], location, at))
  {
    assert results[..i + 1][..i] == results[..i];
    var list := DataAt(results[..i], location, at);
    assert DataAt(results[..i + 1], location, at)
        == list + if (results[i].location == location) == at then [results[i].data] else [];
    assert list + [] == list;
    OneMoreAdded(list, results[i].data);
  }

  lemma OneMoreAdded(list: seq<EdgeData>, d: EdgeData)
    ensures AllAdded(list + [d]) == Added(AllAdded(list), d)
  {
    assert (list + [d])[..|list|] == list;
  }

  lemma {:induction false} AddedComeFrom(list: seq<EdgeData>)
    ensures forall d :: d in AllAdded(list) ==> d in list
  {
    if list != [] {
      AddedComeFrom(list[..|list| - 1]);
      assert list == list[..|list| - 1] + [list[|list| - 1]];
    }
  }

  /** Where a candidate edge was met. */
  ghost predicate IsMetAt(q: Query, accepted: seq<CandidateSegment>, d: EdgeData, location: Option<Coordinate>,
                          big: bool)
  {
    exists c :: c in accepted && c.data == d && Some(c.location) == location && (big ==> q.IsBig(c))
  }

  /** The edges that were accepted at the nearest location, or away from it. */
  ghost function TakenAt(query: Query, stream: seq<CandidateSegment>, at: bool): seq<EdgeData> {
    var seen := Searched(query, stream);
    match First(query, seen, false)
    case None => []
    case Some(nearest) => DataAt(Accepted(query, seen), nearest, at)
  }

  /**
   The candidates from the nearest location, and those from big components, which all lie at the
   location of the first one; of each segment one that is at least as good as all others.
   */
  method NearestCandidatesWithAlternative(query: Query, stream: seq<CandidateSegment>)
    returns (nearestCandidates: seq<EdgeData>, bigCandidates: seq<EdgeData>)
    ensures nearestCandidates == AllAdded(TakenAt(query, stream, true))
    ensures bigCandidates == AllAdded(TakenAt(query, stream, false))
    ensures IsChoice(nearestCandidates, TakenAt(query, stream, true))
    ensures IsChoice(bigCandidates, TakenAt(query, stream, false))
    ensures IsBestTaken(query, stream, true, nearestCandidates)
    ensures IsBestTaken(query, stream, false, bigCandidates)
    ensures var seen := Searched(query, stream);
            && (forall d :: d in nearestCandidates ==>
                  IsMetAt(query, Accepted(query, seen), d, First(query, seen, false), false))
            && (forall d :: d in bigCandidates ==>
                  IsMetAt(query, Accepted(query, seen), d, First(query, seen, true), true))
  {
    hide Accepted, First, IsEnd, Searched, IsChoice, IsBestTaken;
    var results, nearest := Nearest(query, stream);
    nearestCandidates, bigCandidates := MakeAlternativeBigCandidates(nearest, results);
    AlternativesAreBig(query, Searched(query, stream), nearest);
    AddedComeFrom(DataAt(results, nearest, true));
    AddedComeFrom(DataAt(results, nearest, false));
    AllAddedIsChoice(TakenAt(query, stream, true));
    AllAddedIsChoice(TakenAt(query, stream, false));
    ChoiceInFields(query, stream, true);
    ChoiceInFields(query, stream, false);
  }

  // The choice does not depend on the order

  /** Both directions enabled first, then the lower position. */
  predicate IsBetter(a: EdgeData, b: EdgeData) {
    || (IsBidirected(a) && !IsBidirected(b))
    || (IsBidirected(a) == IsBidirected(b) && a.position < b.position)
  }

  /** No edge of the same segment is better. */
  ghost predicate IsBestOf(list: seq<EdgeData>, d: EdgeData) {
    d in list && forall a :: a in list && SameSegment(a, d) ==> !IsBetter(a, d)
  }

  /** Of the edges of a segment, one is better than all others. */
  ghost predicate HaveUniqueBest(list: seq<EdgeData>) {
    forall a, b :: IsBestOf(list, a) && IsBestOf(list, b) && SameSegment(a, b) ==> a == b
  }

  ghost predicate OnePerSegment(candidates: seq<EdgeData>) {
    forall i, j :: 0 <= i < j < |candidates| ==> !SameSegment(candidates[i], candidates[j])
  }

  /** The candidates have an edge of the same segment. */
  ghost predicate IsCovered(candidates: seq<EdgeData>, d: EdgeData) {
    exists c :: c in candidates && SameSegment(c, d)
  }

  /** For every segment, one edge that no other one is better than. */
  ghost predicate IsChoice(candidates: seq<EdgeData>, list: seq<EdgeData>) {
    && OnePerSegment(candidates) && (forall c :: c in candidates ==> IsBestOf(list, c))
    && forall d :: d in list ==> IsCovered(candidates, d)
  }

  /** Exactly the best edges of all segments. */
  ghost predicate IsSelection(candidates: seq<EdgeData>, list: seq<EdgeData>) {
    OnePerSegment(candidates) && forall d :: d in candidates <==> IsBestOf(list, d)
  }

  lemma ReplacedIfBetter(current: EdgeData, data: EdgeData)
    ensures IsReplaced(current, data) <==> !IsBetter(current, data)
  {}

  lemma AddedIsChoice(candidates: seq<EdgeData>, list: seq<EdgeData>, d: EdgeData)
    requires IsChoice(candidates, list)
    ensures IsChoice(Added(candidates, d), list + [d])
  {
    hide Added, OnePerSegment, IsBestOf, IsCovered, SameSegment;
    AddedOnePerSegment(candidates, d);
    AddedAreBest(candidates, list, d);
    AddedCovers(candidates, list, d);
  }

  lemma AddedOnePerSegment(candidates: seq<EdgeData>, d: EdgeData)
    requires OnePerSegment(candidates)
    ensures OnePerSegment(Added(candidates, d))
  {}

  lemma AddedAreBest(candidates: seq<EdgeData>, list: seq<EdgeData>, d: EdgeData)
    requires IsChoice(candidates, list)
    ensures forall c :: c in Added(candidates, d) ==> IsBestOf(list + [d], c)
  {
    hide IsBestOf, IsReplaced, Find;
    var k, added := Find(candidates, d, 0), Added(candidates, d);
    NewEdgeIsBest(candidates, list, d);
    forall m | 0 <= m < |added|
      ensures IsBestOf(list + [d], added[m])
    {
      if m != k {
        assert candidates[m] in candidates;
        assert k < m ==> !SameSegment(candidates[k], candidates[m]);
        OthersStayBest(list, candidates[m], d);
      }
    }
  }

  lemma OthersStayBest(list: seq<EdgeData>, c: EdgeData, d: EdgeData)
    requires IsBestOf(list, c) && !SameSegment(c, d)
    ensures IsBestOf(list + [d], c)
  {}

  /** The edge that is left of the segment of `d` is one of the best then. */
  lemma NewEdgeIsBest(candidates: seq<EdgeData>, list: seq<EdgeData>, d: EdgeData)
    requires IsChoice(candidates, list)
    ensures var k := Find(candidates, d, 0);
            IsBestOf(list + [d], if k == |candidates| || IsReplaced(candidates[k], d) then d else candidates[k])
  {
    var k := Find(candidates, d, 0);
    if k == |candidates| {
      forall a | a in list
        ensures !SameSegment(a, d)
      {
        var c :| c in candidates && SameSegment(c, a);
      }
    } else {
      assert candidates[k] in candidates && IsBestOf(list, candidates[k]);
      ReplacedIfBetter(candidates[k], d);
    }
  }

  lemma AddedCovers(candidates: seq<EdgeData>, list: seq<EdgeData>, d: EdgeData)
    requires forall x :: x in list ==> IsCovered(candidates, x)
    ensures forall x :: x in list + [d] ==> IsCovered(Added(candidates, d), x)
  {
    var k, added := Find(candidates, d, 0), Added(candidates, d);
    assert k < |added| && SameSegment(added[k], d) && added[k] in added;
    forall x | x in list
      ensures IsCovered(added, x)
    {
      var c :| c in candidates && SameSegment(c, x);
      var m :| 0 <= m < |candidates| && candidates[m] == c;
      assert added[m] in added && SameSegment(added[m], c);
    }
  }

  /** Whatever the edges, one that is at least as good as all others is left of each segment. */
  lemma {:induction false} AllAddedIsChoice(list: seq<EdgeData>)
    ensures IsChoice(AllAdded(list), list)
  {
    if list != [] {
      var front := list[..|list| - 1];
      assert list == front + [list[|list| - 1]];
      AllAddedIsChoice(front);
      AddedIsChoice(AllAdded(front), front, list[|list| - 1]);
    }
  }

  lemma AllAddedIsSelection(list: seq<EdgeData>)
    ensures IsSelection(AllAdded(list), list) <==> HaveUniqueBest(list)
  {
    var c := AllAdded(list);
    AllAddedIsChoice(list);
    if HaveUniqueBest(list) {
      forall d | IsBestOf(list, d)
        ensures d in c
      {
        assert IsCovered(c, d);
      }
    }
    if IsSelection(c, list) {
      forall a, b | IsBestOf(list, a) && IsBestOf(list, b) && SameSegment(a, b)
        ensures a == b
      {
        SameCandidate(c, a, b);
      }
    }
  }

  lemma SameCandidate(c: seq<EdgeData>, a: EdgeData, b: EdgeData)
    requires OnePerSegment(c) && a in c && b in c && SameSegment(a, b)
    ensures a == b
  {
    var i :| 0 <= i < |c| && c[i] == a;
    var j :| 0 <= j < |c| && c[j] == b;
    assert !(i < j) && !(j < i);
  }

  /** The chosen edges are the same in whatever order the results arrive. */
  ghost predicate IsOrderIndependent(list: seq<EdgeData>) {
    forall list' :: multiset(list') == multiset(list) ==> multiset(AllAdded(list')) == multiset(AllAdded(list))
  }

  lemma ChoiceIsOrderIndependent(list: seq<EdgeData>)
    ensures IsOrderIndependent(list) <==> HaveUniqueBest(list)
  {
    if HaveUniqueBest(list) {
      forall list' | multiset(list') == multiset(list)
        ensures multiset(AllAdded(list')) == multiset(AllAdded(list))
      {
        UniqueBestIsChosen(list, list');
      }
    } else {
      var a, b :| IsBestOf(list, a) && IsBestOf(list, b) && SameSegment(a, b) && a != b;
      AllAddedIsChoice(list);
      if a in AllAdded(list) && b in AllAdded(list) {
        SameCandidate(AllAdded(list), a, b);
      }
      var other := if a in AllAdded(list) then b else a;
      var list' := LastBestIsChosen(list, other);
      assert other in multiset(AllAdded(list')) && other !in multiset(AllAdded(list));
    }
  }

  /** Of two edges that are equally good, the last one is chosen. */
  lemma TiesGoToTheLast(a: EdgeData, b: EdgeData)
    requires SameSegment(a, b) && a.position == b.position && IsBidirected(a) == IsBidirected(b)
    ensures AllAdded([a, b]) == [b] && AllAdded([b, a]) == [a]
  {
    assert [a, b][..1] == [a] && [b, a][..1] == [b] && [a][..0] == [] && [b][..0] == [];
    assert AllAdded([a]) == [a] && AllAdded([b]) == [b];
  }

  lemma SameElements(list: seq<EdgeData>, list': seq<EdgeData>)
    requires multiset(list) == multiset(list')
    ensures forall d :: d in list <==> d in list'
    ensures forall d :: IsBestOf(list, d) <==> IsBestOf(list', d)
  {
    forall d
      ensures d in list <==> d in list'
    {
      assert d in list <==> d in multiset(list);
      assert d in list' <==> d in multiset(list');
    }
  }

  lemma UniqueBestIsChosen(list: seq<EdgeData>, list': seq<EdgeData>)
    requires HaveUniqueBest(list) && multiset(list) == multiset(list')
    ensures multiset(AllAdded(list)) == multiset(AllAdded(list'))
  {
    hide AllAdded, IsBestOf;
    SameElements(list, list');
    AllAddedIsSelection(list);
    AllAddedIsSelection(list');
    var c, c' := AllAdded(list), AllAdded(list');
    forall d
      ensures multiset(c)[d] == multiset(c')[d]
    {
      OnceEach(c, d);
      OnceEach(c', d);
      assert d in c <==> d in c';
    }
  }

  /** Of several best edges of a segment, the one that comes last is chosen. */
  lemma LastBestIsChosen(list: seq<EdgeData>, d: EdgeData) returns (list': seq<EdgeData>)
    requires IsBestOf(list, d)
    ensures multiset(list') == multiset(list) && d in AllAdded(list')
  {
    var i :| 0 <= i < |list| && list[i] == d;
    var front := list[..i] + list[i + 1..];
    assert list == list[..i] + [d] + list[i + 1..];
    list' := front + [d];
    assert list'[..|front|] == front;
    var c := AllAdded(front);
    var k := Find(c, d, 0);
    AllAddedIsChoice(front);
    if k < |c| {
      assert c[k] in c && IsBestOf(front, c[k]) && c[k] in list;
      ReplacedIfBetter(c[k], d);
    }
    assert Added(c, d)[k] == d;
  }

  lemma {:induction false} OnceEach(c: seq<EdgeData>, d: EdgeData)
    requires OnePerSegment(c)
    ensures multiset(c)[d] == if d in c then 1 else 0
  {
    if c != [] {
      var front, last := c[..|c| - 1], c[|c| - 1];
      assert c == front + [last];
      OnceEach(front, d);
      assert last !in front;
    }
  }

  // What comes out, in terms of the stream

  /** The candidate passes all checks in one direction. */
  ghost predicate Passes(q: Query, c: CandidateSegment, forward: bool) {
    if forward then q.exclude(c).0 && q.approach(c).0 && q.edge(c).0 && q.bearing(c).0
    else q.exclude(c).1 && q.approach(c).1 && q.edge(c).1 && q.bearing(c).1
  }

  /** It passes them in some direction and, if `big`, is not in a tiny component. */
  ghost predicate IsUsable(q: Query, c: CandidateSegment, big: bool) {
    (Passes(q, c, true) || Passes(q, c, false)) && (big ==> !q.isTiny(c.data.forward.id))
  }

  ghost predicate IsFirst(q: Query, stream: seq<CandidateSegment>, j: nat, big: bool) {
    && j < |stream| && IsUsable(q, stream[j], big)
    && forall k :: 0 <= k < j ==> !IsUsable(q, stream[k], big)
  }

  /** The candidate is near enough, and no farther than the first big one before it. */
  ghost predicate IsNearEnough(q: Query, stream: seq<CandidateSegment>, k: nat)
    requires k < |stream|
  {
    var distance := q.distance(stream[k].location);
    && (q.maxDistance.Some? && q.maxDistance.value != -1.0 ==> distance <= q.maxDistance.value)
    && forall j: nat :: j < k && IsFirst(q, stream, j, true) ==> distance <= q.distance(stream[j].location)
  }

  ghost predicate IsReached(q: Query, stream: seq<CandidateSegment>, i: nat) {
    i < |stream| && forall k :: 0 <= k <= i ==> IsNearEnough(q, stream, k)
  }

  /** The candidate lies where the first usable one lies, or the first big usable one. */
  ghost predicate LiesAtFirst(q: Query, stream: seq<CandidateSegment>, i: nat, big: bool)
    requires i < |stream|
  {
    exists j: nat :: j <= i && IsFirst(q, stream, j, big) && stream[j].location == stream[i].location
  }

  /** Usable candidates count at the first location, those that are big at the first big one. */
  ghost predicate IsAccepted(q: Query, stream: seq<CandidateSegment>, i: nat) {
    && IsReached(q, stream, i) && IsUsable(q, stream[i], false)
    && LiesAtFirst(q, stream, i, !q.isTiny(stream[i].data.forward.id))
  }

  /** The edge of a candidate, with those directions enabled that pass all checks. */
  ghost predicate IsEdgeOf(q: Query, c: CandidateSegment, d: EdgeData) {
    && d.forward.id == c.data.forward.id && d.reverse.id == c.data.reverse.id && d.position == c.data.position
    && (d.forward.enabled <==> c.data.forward.enabled && Passes(q, c, true))
    && (d.reverse.enabled <==> c.data.reverse.enabled && Passes(q, c, false))
  }

  /** An edge of a candidate that is accepted at the nearest location, or away from it. */
  ghost predicate IsTaken(q: Query, stream: seq<CandidateSegment>, at: bool, d: EdgeData) {
    exists i: nat :: IsAccepted(q, stream, i) && LiesAtFirst(q, stream, i, false) == at && IsEdgeOf(q, stream[i], d)
  }

  /**
   One edge for each pair of ids that is taken: if any has both directions enabled, then it has, and
   its position is the lowest one of those that are as good in this.
   */
  ghost predicate IsBestTaken(q: Query, stream: seq<CandidateSegment>, at: bool, candidates: seq<EdgeData>) {
    && (forall d :: d in candidates ==> IsTaken(q, stream, at, d))
    && (forall i, j :: 0 <= i < j < |candidates| ==>
          candidates[i].forward.id != candidates[j].forward.id || candidates[i].reverse.id != candidates[j].reverse.id)
    && forall d :: IsTaken(q, stream, at, d) ==> exists c :: c in candidates && IsAsGood(c, d)
  }

  ghost predicate IsAsGood(c: EdgeData, d: EdgeData) {
    && c.forward.id == d.forward.id && c.reverse.id == d.reverse.id
    && (d.forward.enabled && d.reverse.enabled ==> c.forward.enabled && c.reverse.enabled)
    && ((d.forward.enabled && d.reverse.enabled <==> c.forward.enabled && c.reverse.enabled) ==>
          c.position <= d.position)
  }

  lemma UsableIsValid(q: Query, c: CandidateSegment, big: bool)
    ensures IsUsable(q, c, big) <==> q.IsValid(c) && (big ==> q.IsBig(c))
  {}

  lemma NarrowedIsEdge(q: Query, c: CandidateSegment, d: EdgeData)
    ensures IsEdgeOf(q, c, d) <==> q.Narrowed(c).data == d
  {}

  lemma {:induction false} FirstInStream(q: Query, s: seq<CandidateSegment>, big: bool, location: Coordinate)
    ensures First(q, s, big) == Some(location) <==>
            exists j: nat :: IsFirst(q, s, j, big) && s[j].location == location
  {
    hide First, IsUsable, IsFirst;
    NothingIsFirst(q, s, big);
    if s != [] {
      var n := |s| - 1;
      var front := s[..n];
      FirstInStream(q, front, big, location);
      OneMoreFirst(q, s, big);
      forall j: nat
        ensures IsFirst(q, front, j, big) <==> j < n && IsFirst(q, s, j, big)
      {
        FirstInPrefix(q, s, n, j, big);
      }
      if First(q, s, big) == Some(location) {
        if First(q, front, big).Some? {
          var j: nat :| IsFirst(q, front, j, big) && front[j].location == location;
          assert IsFirst(q, s, j, big) && s[j].location == location;
        }
      }
      if j: nat :| IsFirst(q, s, j, big) && s[j].location == location {
        if j < n {
          assert IsFirst(q, front, j, big) && front[j].location == location;
        }
      }
    }
  }

  /** The first one of a longer stream is that of the shorter one, or else the last candidate. */
  lemma {:induction false} OneMoreFirst(q: Query, s: seq<CandidateSegment>, big: bool)
    requires s != []
    ensures var n := |s| - 1;
            var first := First(q, s[..n], big);
            && First(q, s, big) == (if first.None? && IsUsable(q, s[n], big) then Some(s[n].location) else first)
            && (IsFirst(q, s, n, big) <==> first.None? && IsUsable(q, s[n], big))
            && forall j: nat :: IsFirst(q, s, j, big) ==> j <= n
  {
    var n := |s| - 1;
    UsableIsValid(q, s[n], big);
    NoneIsFirst(q, s[..n], big);
    assert forall k :: 0 <= k < n ==> s[..n][k] == s[k];
  }

  lemma {:induction false} NothingIsFirst(q: Query, s: seq<CandidateSegment>, big: bool)
    ensures s == [] ==> First(q, s, big).None? && forall j :: !IsFirst(q, s, j, big)
  {}

  lemma {:induction false} NoneIsFirst(q: Query, s: seq<CandidateSegment>, big: bool)
    ensures First(q, s, big).None? <==> forall k :: 0 <= k < |s| ==> !IsUsable(q, s[k], big)
  {
    forall k | 0 <= k < |s|
      ensures IsUsable(q, s[k], big) <==> q.IsValid(s[k]) && (big ==> q.IsBig(s[k]))
    {
      UsableIsValid(q, s[k], big);
    }
  }

  lemma {:induction false} FirstInPrefix(q: Query, stream: seq<CandidateSegment>, n: nat, j: nat, big: bool)
    requires n <= |stream|
    ensures IsFirst(q, stream[..n], j, big) <==> j < n && IsFirst(q, stream, j, big)
  {
    hide IsUsable;
    assert forall k :: 0 <= k < n ==> stream[..n][k] == stream[k];
  }

  lemma {:induction false} NearEnoughOrEnd(q: Query, stream: seq<CandidateSegment>, k: nat)
    requires k < |stream|
    ensures IsNearEnough(q, stream, k) <==> !IsEnd(q, stream[..k], stream[k])
  {
    hide First, IsFirst;
    var before := stream[..k];
    var big := First(q, before, true);
    forall j: nat
      ensures IsFirst(q, before, j, true) <==> j < k && IsFirst(q, stream, j, true)
    {
      FirstInPrefix(q, stream, k, j, true);
    }
    forall j: nat | j < k && IsFirst(q, stream, j, true)
      ensures big == Some(stream[j].location)
    {
      FirstInStream(q, before, true, stream[j].location);
      assert before[j] == stream[j] && IsFirst(q, before, j, true);
    }
    if big.Some? {
      FirstInStream(q, before, true, big.value);
      var j: nat :| IsFirst(q, before, j, true) && before[j].location == big.value;
      IsFirstInside(q, before, j, true);
      assert before[j] == stream[j];
    }
  }

  lemma IsFirstInside(q: Query, s: seq<CandidateSegment>, j: nat, big: bool)
    requires IsFirst(q, s, j, big)
    ensures j < |s| && IsUsable(q, s[j], big) && forall k :: 0 <= k < j ==> !IsUsable(q, s[k], big)
  {}

  lemma {:induction false} ReachedIsSearched(q: Query, stream: seq<CandidateSegment>, i: nat)
    ensures i < EndOf(q, stream, 0) <==> IsReached(q, stream, i)
  {
    hide IsNearEnough, IsEnd;
    var n := EndOf(q, stream, 0);
    forall k | 0 <= k < |stream|
      ensures IsNearEnough(q, stream, k) <==> !IsEnd(q, stream[..k], stream[k])
    {
      NearEnoughOrEnd(q, stream, k);
    }
    if i >= n && i < |stream| {
      assert !IsNearEnough(q, stream, n);
    }
  }

  /** A usable candidate lies at the first one of its kind, if that is where the search found it. */
  lemma {:induction false} LiesAtFirstExactly(q: Query, stream: seq<CandidateSegment>, n: nat, i: nat, big: bool)
    requires i < n <= |stream| && IsUsable(q, stream[i], big)
    ensures First(q, stream[..n], big) == Some(stream[i].location) <==> LiesAtFirst(q, stream, i, big)
  {
    hide First, IsUsable;
    var s, location := stream[..n], stream[i].location;
    FirstInStream(q, s, big, location);
    forall j: nat
      ensures IsFirst(q, s, j, big) <==> j < n && IsFirst(q, stream, j, big)
    {
      FirstInPrefix(q, stream, n, j, big);
    }
    if First(q, s, big) == Some(location) {
      var j: nat :| IsFirst(q, s, j, big) && s[j].location == location;
      IsFirstInside(q, s, j, big);
      assert j <= i && s[j] == stream[j] && s[i] == stream[i];
    }
    if LiesAtFirst(q, stream, i, big) {
      var j: nat :| j <= i && IsFirst(q, stream, j, big) && stream[j].location == location;
      assert s[j] == stream[j];
    }
  }

  lemma {:induction false} AcceptedIsChosen(q: Query, stream: seq<CandidateSegment>, n: nat, i: nat)
    requires i < n <= |stream| && n == EndOf(q, stream, 0)
    ensures IsChosen(q, First(q, stream[..n], false), First(q, stream[..n], true), stream[i]) <==>
            IsAccepted(q, stream, i)
  {
    hide First, LiesAtFirst, EndOf;
    var c := stream[i];
    ReachedIsSearched(q, stream, i);
    UsableIsValid(q, c, false);
    UsableIsValid(q, c, true);
    if IsUsable(q, c, q.IsBig(c)) {
      LiesAtFirstExactly(q, stream, n, i, q.IsBig(c));
    }
  }

  lemma {:induction false} ChosenHas(q: Query, nearest: Option<Coordinate>, big: Option<Coordinate>,
                                     s: seq<CandidateSegment>, r: CandidateSegment)
    ensures r in Chosen(q, nearest, big, s) <==>
            exists i :: 0 <= i < |s| && IsChosen(q, nearest, big, s[i]) && r == q.Narrowed(s[i])
  {
    if s != [] {
      var n := |s| - 1;
      ChosenHas(q, nearest, big, s[..n], r);
      assert forall i :: 0 <= i < n ==> s[..n][i] == s[i];
    }
  }

  /** What the choice is made from, in terms of the stream. */
  lemma {:induction false} TakenInFields(q: Query, stream: seq<CandidateSegment>, at: bool, d: EdgeData)
    ensures d in TakenAt(q, stream, at) <==> IsTaken(q, stream, at, d)
  {
    var n := EndOf(q, stream, 0);
    var seen := stream[..n];
    var nearest, big := First(q, seen, false), First(q, seen, true);
    hide First, IsChosen, IsAccepted, LiesAtFirst, EndOf, Chosen, IsEdgeOf, DataAt;
    if d in TakenAt(q, stream, at) {
      var r :| r in Chosen(q, nearest, big, seen) && (r.location == nearest.value) == at && r.data == d;
      ChosenHas(q, nearest, big, seen, r);
      var i :| 0 <= i < n && IsChosen(q, nearest, big, seen[i]) && r == q.Narrowed(seen[i]);
      TakenCandidate(q, stream, n, i, nearest, big);
      NarrowedIsEdge(q, stream[i], d);
    }
    if IsTaken(q, stream, at, d) {
      var i: nat :| IsAccepted(q, stream, i) && LiesAtFirst(q, stream, i, false) == at && IsEdgeOf(q, stream[i], d);
      AcceptedIsReached(q, stream, i);
      TakenCandidate(q, stream, n, i, nearest, big);
      NarrowedIsEdge(q, stream[i], d);
      var r := q.Narrowed(stream[i]);
      assert seen[i] == stream[i];
      ChosenHas(q, nearest, big, seen, r);
    }
  }

  lemma {:induction false} AcceptedIsReached(q: Query, stream: seq<CandidateSegment>, i: nat)
    requires IsAccepted(q, stream, i)
    ensures i < EndOf(q, stream, 0) && IsUsable(q, stream[i], false)
  {
    ReachedIsSearched(q, stream, i);
  }

  lemma {:induction false} TakenCandidate(q: Query, stream: seq<CandidateSegment>, n: nat, i: nat,
                                          nearest: Option<Coordinate>, big: Option<Coordinate>)
    requires n == EndOf(q, stream, 0) && i < n
    requires nearest == First(q, stream[..n], false) && big == First(q, stream[..n], true)
    requires IsChosen(q, nearest, big, stream[i]) || IsAccepted(q, stream, i)
    ensures IsChosen(q, nearest, big, stream[i]) && IsAccepted(q, stream, i) && nearest.Some?
    ensures stream[i].location == nearest.value <==> LiesAtFirst(q, stream, i, false)
  {
    hide First, LiesAtFirst, EndOf;
    AcceptedIsChosen(q, stream, n, i);
    UsableIsValid(q, stream[i], false);
    LiesAtFirstExactly(q, stream, n, i, false);
    NoneIsFirst(q, stream[..n], false);
    assert stream[..n][i] == stream[i];
  }

  /** The choice among what is taken, in terms of the stream. */
  lemma {:induction false} ChoiceInFields(q: Query, stream: seq<CandidateSegment>, at: bool)
    ensures IsBestTaken(q, stream, at, AllAdded(TakenAt(q, stream, at)))
  {
    hide IsTaken, TakenAt, AllAdded, IsAsGood, IsBestOf, SameSegment, OnePerSegment;
    var list := TakenAt(q, stream, at);
    var candidates := AllAdded(list);
    AllAddedIsChoice(list);
    forall d
      ensures d in list <==> IsTaken(q, stream, at, d)
    {
      TakenInFields(q, stream, at, d);
    }
    DistinctIds(candidates);
    forall c | c in candidates
      ensures IsTaken(q, stream, at, c)
    {
      BestIsThere(list, c);
    }
    forall d | d in list
      ensures exists c :: c in candidates && IsAsGood(c, d)
    {
      assert IsCovered(candidates, d);
      var c :| c in candidates && SameSegment(c, d);
      BestIsAsGood(list, c, d);
    }
  }

  lemma BestIsThere(list: seq<EdgeData>, c: EdgeData)
    requires IsBestOf(list, c)
    ensures c in list
  {}

  lemma BestIsAsGood(list: seq<EdgeData>, c: EdgeData, d: EdgeData)
    requires IsBestOf(list, c) && d in list && SameSegment(c, d)
    ensures IsAsGood(c, d)
  {
    assert !IsBetter(d, c);
  }

  lemma DistinctIds(candidates: seq<EdgeData>)
    requires OnePerSegment(candidates)
    ensures forall i, j :: 0 <= i < j < |candidates| ==>
              || candidates[i].forward.id != candidates[j].forward.id
              || candidates[i].reverse.id != candidates[j].reverse.id
  {}
}
