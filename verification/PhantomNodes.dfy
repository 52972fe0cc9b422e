/**
 The weights of a snapped location: a geometry is split at a point of one of its segments, and
 what comes before and behind the point is added up in both directions.
 */
module PhantomNodes {
  const SPECIAL_SEGMENTID: nat := 0x7FFF_FFFF
  const INVALID_SEGMENT_WEIGHT: nat := 0x3F_FFFF

  // The geometries: one array over the nodes of all of them

  function Reversed<T>(s: seq<T>): (r: seq<T>)
    ensures |r| == |s| && forall k :: 0 <= k < |s| ==> r[k] == s[|s| - 1 - k]
  {
    seq(|s|, k requires 0 <= k < |s| => s[|s| - 1 - k])
  }

  /**
   Geometry `id` has the nodes from `index[id]` to `index[id + 1]`.  The value of a segment is
   stored at its later node in forward direction, and at its earlier node in reverse direction.
   */
  datatype SegmentDataContainer =
    SegmentDataContainer(index: seq<nat>, nodes: seq<nat>, forward: seq<nat>, reverse: seq<nat>)
  {
    ghost predicate IsGeometry(id: nat) {
      id + 1 < |index| && index[id] < index[id + 1] <= |nodes| == |forward| == |reverse|
    }

    function ForwardGeometry(id: nat): seq<nat>
      requires IsGeometry(id)
    {
      nodes[index[id]..index[id + 1]]
    }

    function ReverseGeometry(id: nat): seq<nat>
      requires IsGeometry(id)
    {
      Reversed(ForwardGeometry(id))
    }

    function ForwardValues(id: nat): (s: seq<nat>)
      requires IsGeometry(id)
      ensures |s| == index[id + 1] - index[id] - 1
    {
      forward[index[id] + 1..index[id + 1]]
    }

    function ReverseValues(id: nat): (s: seq<nat>)
      requires IsGeometry(id)
      ensures |s| == index[id + 1] - index[id] - 1
    {
      Reversed(reverse[index[id]..index[id + 1] - 1])
    }

    /**
     The mirrored index addresses the same physical segment: the value at `n - 1 - k` in reverse
     order is that of the segment from node `k + 1` back to node `k`, stored with node `k`.
     */
    lemma MirroredIndex(id: nat, k: nat)
      requires IsGeometry(id) && k < |ForwardValues(id)|
      ensures var n := |ForwardValues(id)|;
              && |ReverseValues(id)| == n && |ForwardGeometry(id)| == |ReverseGeometry(id)| == n + 1
              && ReverseGeometry(id)[n - 1 - k] == ForwardGeometry(id)[k + 1]
              && ReverseGeometry(id)[n - k] == ForwardGeometry(id)[k]
              && ForwardValues(id)[k] == forward[index[id] + k + 1]
              && ReverseValues(id)[n - 1 - k] == reverse[index[id] + k]
    {}
  }

  // Sums

  function Sum(s: seq<nat>): nat {
    if s == [] then 0 else Sum(s[..|s| - 1]) + s[|s| - 1]
  }

  method Accumulate(s: seq<nat>, n: nat) returns (sum: nat)
    requires n <= |s|
    ensures sum == Sum(s[..n])
  {
    sum := 0;
    for i := 0 to n
      invariant sum == Sum(s[..i])
    {
      assert s[..i + 1][..i] == s[..i];
      sum := sum + s[i];
    }
  }

  lemma {:induction false} SumOfConcatenation(s: seq<nat>, t: seq<nat>)
    ensures Sum(s + t) == Sum(s) + Sum(t)
  {
    if t == [] {
      assert s + t == s;
    } else {
      assert (s + t)[..|s + t| - 1] == s + t[..|t| - 1];
      SumOfConcatenation(s, t[..|t| - 1]);
    }
  }

  lemma {:induction false} SumOfReversed(s: seq<nat>)
    ensures Sum(Reversed(s)) == Sum(s)
  {
    if s != [] {
      var front, last := s[..|s| - 1], s[|s| - 1];
      assert Reversed(s) == [last] + Reversed(front);
      SumOfConcatenation([last], Reversed(front));
      assert Sum([last]) == last by {
        assert [last][..0] == [];
      }
      SumOfReversed(front);
    }
  }

  /** The greatest number of 31 bits marks what is no segment, and that of 22 bits what has no weight. */
  lemma SpecialValues()
    ensures SPECIAL_SEGMENTID == 0x8000_0000 - 1 && INVALID_SEGMENT_WEIGHT == 0x40_0000 - 1
  {}

  // Splitting a segment

  function Clamped(ratio: real): (r: real)
    ensures 0.0 <= r <= 1.0
    ensures 0.0 <= ratio <= 1.0 ==> r == ratio
    ensures ratio < 0.0 ==> r == 0.0
    ensures ratio > 1.0 ==> r == 1.0
  {
    if ratio < 0.0 then 0.0 else if ratio > 1.0 then 1.0 else ratio
  }

  /** A share of a value, without its fraction. */
  function Part(value: nat, ratio: real): (part: nat)
    requires 0.0 <= ratio <= 1.0
    ensures part <= value
  {
    PartIsBetween(value, ratio);
    (value as real * ratio).Floor
  }

  /** The part is the share rounded down. */
  lemma PartIsRoundedDown(value: nat, ratio: real)
    requires 0.0 <= ratio <= 1.0
    ensures Part(value, ratio) as real <= value as real * ratio < Part(value, ratio) as real + 1.0
    ensures ratio == 0.0 ==> Part(value, ratio) == 0
    ensures ratio == 1.0 ==> Part(value, ratio) == value
  {
    var share := value as real * ratio;
    assert share.Floor as real <= share < share.Floor as real + 1.0;
  }

  lemma PartIsBetween(value: nat, ratio: real)
    requires 0.0 <= ratio <= 1.0
    ensures 0.0 <= value as real * ratio <= value as real
  {}

  /** What is stored with a phantom node of one kind of values: weights or durations. */
  datatype Split = Split(forward: int, forwardOffset: nat, reverse: int, reverseOffset: nat)

  ghost predicate IsSplit(forwardValues: seq<nat>, reverseValues: seq<nat>, position: nat, ratio: real,
                          forwardId: nat, reverseId: nat, split: Split)
    requires |forwardValues| == |reverseValues| && position < |forwardValues|
  {
    var w := reverseValues[|reverseValues| - position - 1];
    && split.forwardOffset == Sum(forwardValues[..position])
    && split.reverseOffset == Sum(reverseValues[..|reverseValues| - position - 1])
    && split.forward == (if forwardId == SPECIAL_SEGMENTID then forwardValues[position]
                         else Part(forwardValues[position], Clamped(ratio)))
    && split.reverse == if reverseId == SPECIAL_SEGMENTID then w else w - Part(w, Clamped(ratio))
  }

  /** Splits the values of a geometry at a point of the segment at `position`. */
  method SplitValues(forwardValues: seq<nat>, reverseValues: seq<nat>, position: nat, ratio: real,
                     forwardId: nat, reverseId: nat)
    returns (split: Split)
    requires |forwardValues| == |reverseValues| && position < |forwardValues|
    ensures IsSplit(forwardValues, reverseValues, position, ratio, forwardId, reverseId, split)
  {
    var size := |reverseValues|;
    var forwardOffset := Accumulate(forwardValues, position);
    var forward := forwardValues[position];
    var reverseOffset := Accumulate(reverseValues, size - position - 1);
    var reverse: int := reverseValues[size - position - 1];
    var clamped := Clamped(ratio);
    if forwardId != SPECIAL_SEGMENTID {
      forward := Part(forward, clamped);
    }
    if reverseId != SPECIAL_SEGMENTID {
      reverse := reverse - Part(reverse, clamped);
    }
    split := Split(forward, forwardOffset, reverse, reverseOffset);
  }

  function Total(split: Split): int {
    split.forward + split.forwardOffset + split.reverse + split.reverseOffset
  }

  lemma SplitSum(w: seq<nat>, position: nat)
    requires position < |w|
    ensures Sum(w) == Sum(w[..position]) + w[position] + Sum(w[position + 1..])
  {
    assert w[..position + 1][..position] == w[..position];
    assert w == w[..position + 1] + w[position + 1..];
    SumOfConcatenation(w[..position + 1], w[position + 1..]);
  }

  /** A direction without a segment has nothing to be split off. */
  predicate IsSplitClean(value: nat, ratio: real, forwardId: nat, reverseId: nat) {
    && (forwardId == SPECIAL_SEGMENTID ==> value == 0 || ratio >= 1.0)
    && (reverseId == SPECIAL_SEGMENTID ==> value as real * Clamped(ratio) < 1.0)
  }

  /** When a part is all of a value, and when it is nothing. */
  lemma PartIsWhole(value: nat, ratio: real)
    ensures Part(value, Clamped(ratio)) == value <==> value == 0 || ratio >= 1.0
    ensures Part(value, Clamped(ratio)) == 0 <==> value as real * Clamped(ratio) < 1.0
  {
    var r := Clamped(ratio);
    PartIsRoundedDown(value, r);
    hide Part;
    if value > 0 && r < 1.0 {
      LessThanWhole(value as real, r);
    }
  }

  lemma CleanParts(value: nat, ratio: real, forwardId: nat, reverseId: nat)
    ensures var part := Part(value, Clamped(ratio));
            IsSplitClean(value, ratio, forwardId, reverseId) <==>
            (forwardId == SPECIAL_SEGMENTID ==> part == value) && (reverseId == SPECIAL_SEGMENTID ==> part == 0)
  {
    PartIsWhole(value, ratio);
  }

  lemma LessThanWhole(x: real, r: real)
    requires x > 0.0 && r < 1.0
    ensures x * r < x
  {}

  /**
   Where the reverse values mirror the forward ones, the split adds up to the whole geometry
   despite truncation, except for a direction that has no segment and is not split.
   */
  lemma SplitConserves(w: seq<nat>, position: nat, ratio: real, forwardId: nat, reverseId: nat, split: Split)
    requires position < |w| && IsSplit(w, Reversed(w), position, ratio, forwardId, reverseId, split)
    ensures var part := Part(w[position], Clamped(ratio));
            && Total(split) == Sum(w)
                               + (if forwardId == SPECIAL_SEGMENTID then w[position] - part else 0)
                               + (if reverseId == SPECIAL_SEGMENTID then part else 0)
            && (Total(split) == Sum(w) <==> IsSplitClean(w[position], ratio, forwardId, reverseId))
  {
    hide Sum, Reversed, Part, Clamped, IsSplit, IsSplitClean, Total;
    CleanParts(w[position], ratio, forwardId, reverseId);
    SplitParts(w, position, ratio, forwardId, reverseId, split);
    SplitSum(w, position);
    AddsUp(Sum(w), Sum(w[..position]), Sum(w[position + 1..]), w[position], Part(w[position], Clamped(ratio)),
           forwardId == SPECIAL_SEGMENTID, reverseId == SPECIAL_SEGMENTID, split);
  }

  /** The split of mirrored values, in terms of the forward ones. */
  lemma SplitParts(w: seq<nat>, position: nat, ratio: real, forwardId: nat, reverseId: nat, split: Split)
    requires position < |w| && IsSplit(w, Reversed(w), position, ratio, forwardId, reverseId, split)
    ensures var value, part := w[position], Part(w[position], Clamped(ratio));
            && split.forwardOffset == Sum(w[..position]) && split.reverseOffset == Sum(w[position + 1..])
            && split.forward == (if forwardId == SPECIAL_SEGMENTID then value else part)
            && split.reverse == if reverseId == SPECIAL_SEGMENTID then value else value - part
  {
    hide Sum, Reversed, Part, Clamped;
    MirroredOffset(w, position);
  }

  /** Without a reverse segment, a point at the end of a segment gets its value in both directions. */
  lemma UnsplitCountsTwice(value: nat)
    requires value > 0
    ensures var split := Split(value, 0, value, 0);
            IsSplit([value], Reversed([value]), 0, 1.0, 0, SPECIAL_SEGMENTID, split) && Total(split) == 2 * Sum([value])
  {
    PartIsRoundedDown(value, 1.0);
    assert Reversed([value]) == [value] && [value][..0] == [];
  }

  lemma MirroredOffset(w: seq<nat>, position: nat)
    requires position < |w|
    ensures Sum(Reversed(w)[..|w| - position - 1]) == Sum(w[position + 1..])
    ensures Reversed(w)[|w| - position - 1] == w[position]
  {
    assert Reversed(w)[..|w| - position - 1] == Reversed(w[position + 1..]);
    SumOfReversed(w[position + 1..]);
  }

  lemma AddsUp(sum: int, before: nat, behind: nat, value: nat, part: nat, noForward: bool, noReverse: bool,
               split: Split)
    requires sum == before + value + behind && split.forwardOffset == before && split.reverseOffset == behind
    requires split.forward == if noForward then value else part
    requires split.reverse == if noReverse then value else value - part
    requires part <= value
    ensures Total(split) == sum + (if noForward then value - part else 0) + (if noReverse then part else 0)
    ensures Total(split) == sum <==> (noForward ==> part == value) && (noReverse ==> part == 0)
  {}

  /** Both directions of an edge are split at the same point: together they make up the segment. */
  lemma SegmentIsSplit(w: seq<nat>, position: nat, ratio: real, forwardId: nat, reverseId: nat, split: Split)
    requires position < |w| && IsSplit(w, Reversed(w), position, ratio, forwardId, reverseId, split)
    requires forwardId != SPECIAL_SEGMENTID && reverseId != SPECIAL_SEGMENTID
    ensures split.forward + split.reverse == w[position] && 0 <= split.forward && 0 <= split.reverse
    ensures split.forward + split.forwardOffset <= Sum(w) && Total(split) == Sum(w)
  {
    SplitConserves(w, position, ratio, forwardId, reverseId, split);
    assert Reversed(w)[|w| - position - 1] == w[position];
  }

  /** The values are the same in both directions. */
  ghost predicate IsMirrored(c: SegmentDataContainer, id: nat)
    requires c.IsGeometry(id)
  {
    forall k :: c.index[id] <= k < c.index[id + 1] - 1 ==> c.reverse[k] == c.forward[k + 1]
  }

  lemma MirroredValues(c: SegmentDataContainer, id: nat)
    requires c.IsGeometry(id)
    ensures IsMirrored(c, id) <==> c.ReverseValues(id) == Reversed(c.ForwardValues(id))
  {
    if IsMirrored(c, id) {
      MirroredIsReversed(c, id);
    }
    if c.ReverseValues(id) == Reversed(c.ForwardValues(id)) {
      ReversedIsMirrored(c, id);
    }
  }

  lemma MirroredIsReversed(c: SegmentDataContainer, id: nat)
    requires c.IsGeometry(id) && IsMirrored(c, id)
    ensures c.ReverseValues(id) == Reversed(c.ForwardValues(id))
  {
    hide SegmentDataContainer.ForwardValues, SegmentDataContainer.ReverseValues;
    var w, r := c.ForwardValues(id), c.ReverseValues(id);
    forall k | 0 <= k < |r|
      ensures r[k] == Reversed(w)[k]
    {
      c.MirroredIndex(id, |w| - 1 - k);
    }
  }

  lemma ReversedIsMirrored(c: SegmentDataContainer, id: nat)
    requires c.IsGeometry(id) && c.ReverseValues(id) == Reversed(c.ForwardValues(id))
    ensures IsMirrored(c, id)
  {
    hide SegmentDataContainer.ForwardValues, SegmentDataContainer.ReverseValues, Reversed;
    forall k | c.index[id] <= k < c.index[id + 1] - 1
      ensures c.reverse[k] == c.forward[k + 1]
    {
      c.MirroredIndex(id, k - c.index[id]);
      ReversedAt(c.ForwardValues(id), k - c.index[id]);
    }
  }

  lemma ReversedAt(s: seq<nat>, k: nat)
    requires k < |s|
    ensures Reversed(s)[|s| - 1 - k] == s[k]
  {}

  /** What a stored geometry is split into adds up to all of it, under the same condition. */
  lemma GeometryIsConserved(c: SegmentDataContainer, id: nat, position: nat, ratio: real, forwardId: nat,
                            reverseId: nat, split: Split)
    requires c.IsGeometry(id) && IsMirrored(c, id) && position < |c.ForwardValues(id)| == |c.ReverseValues(id)|
    requires IsSplit(c.ForwardValues(id), c.ReverseValues(id), position, ratio, forwardId, reverseId, split)
    ensures var w := c.ForwardValues(id);
            Total(split) == Sum(w) <==> IsSplitClean(w[position], ratio, forwardId, reverseId)
  {
    MirroredValues(c, id);
    SplitConserves(c.ForwardValues(id), position, ratio, forwardId, reverseId, split);
  }

  // Distances

  /** The length of a line, given that between two points. */
  function LengthOf<P>(line: seq<P>, length: (P, P) -> real): real {
    if |line| <= 1 then 0.0
    else LengthOf(line[..|line| - 1], length) + length(line[|line| - 2], line[|line| - 1])
  }

  method AccumulateLength<P>(line: seq<P>, first: nat, last: nat, length: (P, P) -> real) returns (sum: real)
    requires first <= last < |line|
    ensures sum == LengthOf(line[first..last + 1], length)
  {
    sum := 0.0;
    for i := first to last
      invariant sum == LengthOf(line[first..i + 1], length)
    {
      assert line[first..i + 2][..i + 1 - first] == line[first..i + 1];
      sum := sum + length(line[i], line[i + 1]);
    }
  }

  datatype SplitLength = SplitLength(forward: real, forwardOffset: real, reverse: real, reverseOffset: real)

  /** Splits the length of a geometry at a point next to the segment at `position`. */
  method SplitDistances<P>(geometry: seq<P>, position: nat, point: P, length: (P, P) -> real)
    returns (split: SplitLength)
    requires position + 1 < |geometry|
    ensures split.forwardOffset == LengthOf(geometry[..position + 1], length)
    ensures split.reverseOffset == LengthOf(geometry[position + 1..], length)
    ensures split.forward == length(geometry[position], point)
    ensures split.reverse == length(point, geometry[position + 1])
  {
    var forwardOffset := AccumulateLength(geometry, 0, position, length);
    var forward := length(geometry[position], point);
    var reverseOffset := AccumulateLength(geometry, position + 1, |geometry| - 1, length);
    var reverse := length(point, geometry[position + 1]);
    assert geometry[0..position + 1] == geometry[..position + 1];
    assert geometry[position + 1..|geometry|] == geometry[position + 1..];
    split := SplitLength(forward, forwardOffset, reverse, reverseOffset);
  }

  lemma {:induction false} LengthOfJoined<P>(line: seq<P>, position: nat, length: (P, P) -> real)
    requires position + 1 < |line|
    ensures LengthOf(line, length)
         == LengthOf(line[..position + 1], length) + length(line[position], line[position + 1])
            + LengthOf(line[position + 1..], length)
    decreases |line|
  {
    var front := line[..|line| - 1];
    if position + 2 < |line| {
      LengthOfJoined(front, position, length);
      assert front[..position + 1] == line[..position + 1];
      assert front[position + 1..] == line[position + 1..][..|line| - position - 2];
    }
  }

  /** The lengths exceed the geometry by exactly the detour over the point. */
  lemma DistancesAddUp<P>(geometry: seq<P>, position: nat, point: P, length: (P, P) -> real, split: SplitLength)
    requires position + 1 < |geometry|
    requires split.forwardOffset == LengthOf(geometry[..position + 1], length)
    requires split.reverseOffset == LengthOf(geometry[position + 1..], length)
    requires split.forward == length(geometry[position], point)
    requires split.reverse == length(point, geometry[position + 1])
    ensures var detour := length(geometry[position], point) + length(point, geometry[position + 1])
                          - length(geometry[position], geometry[position + 1]);
            split.forwardOffset + split.forward + split.reverse + split.reverseOffset
            == LengthOf(geometry, length) + detour
  {
    LengthOfJoined(geometry, position, length);
  }

  // Which directions may be used

  predicate AllValid(s: seq<nat>) {
    INVALID_SEGMENT_WEIGHT !in s
  }

  method AreSegmentsValid(s: seq<nat>, n: nat) returns (valid: bool)
    requires n <= |s|
    ensures valid <==> AllValid(s[..n])
  {
    var i := 0;
    while i < n && s[i] != INVALID_SEGMENT_WEIGHT
      invariant 0 <= i <= n && AllValid(s[..i])
    {
      assert s[..i + 1] == s[..i] + [s[i]];
      i := i + 1;
    }
    valid := i == n;
    assert !valid ==> s[..n][i] == INVALID_SEGMENT_WEIGHT;
  }

  datatype Validity = Validity(forwardSource: bool, forwardTarget: bool, reverseSource: bool, reverseTarget: bool)

  method CheckValidity(forwardWeights: seq<nat>, reverseWeights: seq<nat>, position: nat) returns (v: Validity)
    requires |forwardWeights| == |reverseWeights| && position < |forwardWeights|
    ensures v.forwardSource <==> AllValid(forwardWeights)
    ensures v.forwardTarget <==> AllValid(forwardWeights[..position + 1])
    ensures v.reverseSource <==> AllValid(reverseWeights)
    ensures v.reverseTarget <==> AllValid(reverseWeights[..|reverseWeights| - position])
  {
    var forwardSource := AreSegmentsValid(forwardWeights, |forwardWeights|);
    var forwardTarget := AreSegmentsValid(forwardWeights, position + 1);
    var reverseSource := AreSegmentsValid(reverseWeights, |reverseWeights|);
    var reverseTarget := AreSegmentsValid(reverseWeights, |reverseWeights| - position);
    assert forwardWeights[..|forwardWeights|] == forwardWeights && reverseWeights[..|reverseWeights|] == reverseWeights;
    v := Validity(forwardSource, forwardTarget, reverseSource, reverseTarget);
  }

  /** The two ranges of a target meet in the snapped segment, and leave no other one out. */
  lemma TargetsCoverTheGeometry(w: seq<nat>, position: nat)
    requires position < |w|
    ensures AllValid(w[..position + 1]) && AllValid(Reversed(w)[..|w| - position]) <==> AllValid(w)
    ensures AllValid(w) <==> AllValid(Reversed(w))
    ensures w[position] == INVALID_SEGMENT_WEIGHT ==>
              !AllValid(w[..position + 1]) && !AllValid(Reversed(w)[..|w| - position])
  {
    assert Reversed(w)[..|w| - position] == Reversed(w[position..]);
    hide Reversed;
    ReversedHas(w);
    ReversedHas(w[position..]);
    assert w == w[..position] + w[position..] && w[..position + 1] == w[..position] + [w[position]];
    assert w[position] == w[position..][0];
  }

  lemma ReversedHas(s: seq<nat>)
    ensures forall x :: x in Reversed(s) <==> x in s
  {
    forall x | x in s
      ensures x in Reversed(s)
    {
      var k :| 0 <= k < |s| && s[k] == x;
      assert Reversed(s)[|s| - 1 - k] == x;
    }
  }
}
