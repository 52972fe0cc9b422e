/** Reordering in place along the cycles of a permutation. */
module Permutation {
  ghost predicate IsPermutation(p: seq<nat>) {
    && (forall i :: 0 <= i < |p| ==> p[i] < |p|)
    && (forall i, j :: 0 <= i < j < |p| ==> p[i] != p[j])
    && forall k: nat :: k < |p| ==> k in p
  }

  /** `s` in the order that is given by the indices of its elements. */
  function Reordered<T>(s: seq<T>, ordering: seq<nat>): (r: seq<T>)
    requires forall i :: 0 <= i < |ordering| ==> ordering[i] < |s|
    ensures |r| == |ordering| && forall i :: 0 <= i < |ordering| ==> r[i] == s[ordering[i]]
  {
    seq(|ordering|, i requires 0 <= i < |ordering| => s[ordering[i]])
  }

  function Iota(n: nat): (s: seq<nat>)
    ensures |s| == n && forall i :: 0 <= i < n ==> s[i] == i
  {
    seq(n, i => i)
  }

  lemma {:induction false} AtMostOnce(s: seq<nat>, x: nat)
    requires forall i, j :: 0 <= i < j < |s| ==> s[i] != s[j]
    ensures multiset(s)[x] <= 1
  {
    if s != [] {
      assert s == s[..|s| - 1] + [s[|s| - 1]];
      AtMostOnce(s[..|s| - 1], x);
    }
  }

  lemma TwiceIsTwo(s: seq<nat>, i: nat, j: nat)
    requires i < j < |s| && s[i] == s[j]
    ensures multiset(s)[s[i]] >= 2
  {
    assert s == s[..j] + s[j..];
    assert s[..j][i] == s[i] && s[j..][0] == s[j];
  }

  /** Any order of the indices is a permutation. */
  lemma OrderingIsPermutation(ordering: seq<nat>, n: nat)
    requires multiset(ordering) == multiset(Iota(n))
    ensures |ordering| == n && IsPermutation(ordering)
  {
    var iota := Iota(n);
    assert |ordering| == |multiset(ordering)| == |iota|;
    forall i | 0 <= i < |ordering|
      ensures ordering[i] < n
    {
      assert ordering[i] in multiset(ordering);
      assert ordering[i] in iota;
    }
    forall i, j | 0 <= i < j < |ordering|
      ensures ordering[i] != ordering[j]
    {
      if ordering[i] == ordering[j] {
        TwiceIsTwo(ordering, i, j);
        AtMostOnce(iota, ordering[i]);
      }
    }
    forall k: nat | k < n
      ensures k in ordering
    {
      assert iota[k] == k && k in multiset(iota);
    }
  }

  ghost predicate IsInverse(p: seq<nat>, q: seq<nat>) {
    |p| == |q| && IsPermutation(q) && forall i :: 0 <= i < |p| ==> p[i] < |q| && q[p[i]] == i
  }

  method OrderingToPermutation(ordering: seq<nat>) returns (permutation: seq<nat>)
    requires IsPermutation(ordering)
    ensures IsInverse(ordering, permutation)
  {
    permutation := seq(|ordering|, _ => 0);
    for index := 0 to |ordering|
      invariant |permutation| == |ordering|
      invariant forall i :: 0 <= i < index ==> permutation[ordering[i]] == i
    {
      permutation := permutation[ordering[index] := index];
    }
    InverseIsPermutation(ordering, permutation);
  }

  lemma InverseIsPermutation(p: seq<nat>, q: seq<nat>)
    requires IsPermutation(p) && |q| == |p| && forall i :: 0 <= i < |p| ==> q[p[i]] == i
    ensures IsPermutation(q)
  {
    forall k | 0 <= k < |q|
      ensures q[k] < |q| && p[q[k]] == k
    {
      assert k in p;
      var i :| 0 <= i < |p| && p[i] == k;
    }
    forall k: nat | k < |q|
      ensures k in q
    {
      assert q[p[k]] == k;
    }
  }

  // One cycle at a time

  /** Cycles that were replaced have their final values, and all others are untouched. */
  ghost predicate Between<T>(s: seq<T>, p: seq<nat>, a: seq<T>, replaced: seq<bool>)
    requires |s| == |p| == |a| == |replaced| && IsPermutation(p)
  {
    && (forall i {:trigger p[i]} :: 0 <= i < |p| ==> replaced[p[i]] == replaced[i])
    && (forall i {:trigger p[i]} :: 0 <= i < |p| && replaced[i] ==> a[p[i]] == s[i])
    && (forall i :: 0 <= i < |p| && !replaced[i] ==> a[i] == s[i])
  }

  /** Along the cycle of `index`, everything up to the element before `old` was moved. */
  ghost predicate Within<T>(s: seq<T>, p: seq<nat>, a: seq<T>, replaced: seq<bool>, index: nat, last: nat)
    requires |s| == |p| == |a| == |replaced| && IsPermutation(p)
    requires index < |p| && last < |p|
  {
    AreMarked(p, replaced, index, last) && AreMoved(s, p, a, replaced, last)
  }

  /** The elements of the cycle that are marked lead from `index` to `last`. */
  ghost predicate AreMarked(p: seq<nat>, replaced: seq<bool>, index: nat, last: nat)
    requires |p| == |replaced| && IsPermutation(p) && index < |p| && last < |p|
  {
    && !replaced[last] && (last == index || replaced[index])
    && (last == index || exists k :: 0 <= k < |p| && replaced[k] && p[k] == last)
    && (forall i {:trigger p[i]} :: 0 <= i < |p| && replaced[i] ==> replaced[p[i]] || p[i] == last)
    && (forall i {:trigger p[i]} :: 0 <= i < |p| && replaced[p[i]] ==> replaced[i] || p[i] == index)
  }

  /** Marked elements are in their new places, and the others still in their old ones. */
  ghost predicate AreMoved<T>(s: seq<T>, p: seq<nat>, a: seq<T>, replaced: seq<bool>, last: nat)
    requires |s| == |p| == |a| == |replaced| && IsPermutation(p)
  {
    && (forall i {:trigger p[i]} :: 0 <= i < |p| && replaced[i] ==> a[p[i]] == s[i])
    && (forall i :: 0 <= i < |p| && !replaced[i] && i != last ==> a[i] == s[i])
  }

  method InplacePermutation<T>(a: array<T>, oldToNew: seq<nat>)
    requires IsPermutation(oldToNew) && |oldToNew| == a.Length
    modifies a
    ensures forall i :: 0 <= i < a.Length ==> a[oldToNew[i]] == old(a[i])
  {
    hide Between, IsPermutation;
    ghost var s := a[..];
    var size := a.Length;
    NothingReplaced(s, oldToNew);
    var wasReplaced := seq(size, _ => false);
    for index := 0 to size
      invariant |wasReplaced| == size && Between(s, oldToNew, a[..], wasReplaced)
      invariant forall i :: 0 <= i < index ==> wasReplaced[i]
    {
      if wasReplaced[index] {
        continue;
      }
      if oldToNew[index] == index {
        FixedPoint(s, oldToNew, a[..], wasReplaced, index);
        wasReplaced := wasReplaced[index := true];
        continue;
      }
      wasReplaced := MoveCycle(a, oldToNew, wasReplaced, index, s);
    }
    AllReplaced(s, oldToNew, a[..], wasReplaced);
  }

  lemma NothingReplaced<T>(s: seq<T>, p: seq<nat>)
    requires IsPermutation(p) && |s| == |p|
    ensures Between(s, p, s, seq(|p|, _ => false))
  {}

  lemma FixedPoint<T>(s: seq<T>, p: seq<nat>, a: seq<T>, replaced: seq<bool>, index: nat)
    requires IsPermutation(p) && |s| == |p| == |a| == |replaced| && index < |p|
    requires Between(s, p, a, replaced) && p[index] == index && !replaced[index]
    ensures Between(s, p, a, replaced[index := true])
  {}

  lemma AllReplaced<T>(s: seq<T>, p: seq<nat>, a: seq<T>, replaced: seq<bool>)
    requires IsPermutation(p) && |s| == |p| == |a| == |replaced|
    requires Between(s, p, a, replaced) && forall i :: 0 <= i < |p| ==> replaced[i]
    ensures forall i :: 0 <= i < |p| ==> p[i] < |a| && a[p[i]] == s[i]
  {}

  lemma CycleStarts<T>(s: seq<T>, p: seq<nat>, a: seq<T>, replaced: seq<bool>, index: nat)
    requires IsPermutation(p) && |s| == |p| == |a| == |replaced| && index < |p|
    requires Between(s, p, a, replaced) && !replaced[index] && p[index] != index
    ensures Within(s, p, a, replaced, index, index) && a[index] == s[index]
  {}

  lemma CycleGoesOn<T>(s: seq<T>, p: seq<nat>, a: seq<T>, replaced: seq<bool>, index: nat, last: nat)
    requires IsPermutation(p) && |s| == |p| == |a| == |replaced| && index < |p| && last < |p|
    requires Within(s, p, a, replaced, index, last) && p[last] != index
    ensures !replaced[last] && a[p[last]] == s[p[last]]
    ensures Within(s, p, a[p[last] := s[last]], replaced[last := true], index, p[last])
  {
    NextIsUntouched(s, p, a, replaced, index, last);
    MarksGoOn(p, replaced, index, last);
    MovesGoOn(s, p, a, replaced, last);
  }

  lemma MarksGoOn(p: seq<nat>, replaced: seq<bool>, index: nat, last: nat)
    requires IsPermutation(p) && |p| == |replaced| && index < |p| && last < |p|
    requires AreMarked(p, replaced, index, last) && p[last] != index && !replaced[p[last]] && p[last] != last
    ensures AreMarked(p, replaced[last := true], index, p[last])
  {
    var next, replaced' := p[last], replaced[last := true];
    Injective(p, last);
    assert replaced'[last] && p[last] == next;
  }

  lemma MovesGoOn<T>(s: seq<T>, p: seq<nat>, a: seq<T>, replaced: seq<bool>, last: nat)
    requires IsPermutation(p) && |s| == |p| == |a| == |replaced| && last < |p|
    requires AreMoved(s, p, a, replaced, last) && !replaced[p[last]] && p[last] != last
    ensures AreMoved(s, p, a[p[last] := s[last]], replaced[last := true], p[last])
  {
    Injective(p, last);
  }

  lemma NextIsUntouched<T>(s: seq<T>, p: seq<nat>, a: seq<T>, replaced: seq<bool>, index: nat, last: nat)
    requires IsPermutation(p) && |s| == |p| == |a| == |replaced| && index < |p| && last < |p|
    requires Within(s, p, a, replaced, index, last) && p[last] != index
    ensures !replaced[p[last]] && p[last] != last && a[p[last]] == s[p[last]]
  {}

  lemma Injective(p: seq<nat>, k: nat)
    requires IsPermutation(p) && k < |p|
    ensures forall i :: 0 <= i < |p| ==> p[i] < |p| && (i != k ==> p[i] != p[k])
  {}

  lemma CycleCloses<T>(s: seq<T>, p: seq<nat>, a: seq<T>, replaced: seq<bool>, index: nat, last: nat)
    requires IsPermutation(p) && |s| == |p| == |a| == |replaced| && index < |p| && last < |p|
    requires Within(s, p, a, replaced, index, last) && p[last] == index
    ensures Between(s, p, a[index := s[last]], replaced[last := true]) && replaced[last := true][index]
  {
    var a', replaced' := a[index := s[last]], replaced[last := true];
    forall i | 0 <= i < |p| && replaced'[i]
      ensures a'[p[i]] == s[i]
    {
      assert i != last ==> p[i] != index;
    }
  }

  /** Moves the elements of one cycle, each to the place of the next. */
  method MoveCycle<T>(a: array<T>, oldToNew: seq<nat>, replaced: seq<bool>, index: nat, ghost s: seq<T>)
    returns (wasReplaced: seq<bool>)
    requires IsPermutation(oldToNew) && |oldToNew| == a.Length == |replaced| == |s| && index < a.Length
    requires Between(s, oldToNew, a[..], replaced) && !replaced[index] && oldToNew[index] != index
    modifies a
    ensures |wasReplaced| == a.Length && Between(s, oldToNew, a[..], wasReplaced) && wasReplaced[index]
    ensures forall i :: 0 <= i < a.Length && replaced[i] ==> wasReplaced[i]
  {
    hide Between, Within;
    wasReplaced := replaced;
    var buffer := a[index];
    var oldIndex := index;
    var newIndex := oldToNew[oldIndex];
    CycleStarts(s, oldToNew, a[..], replaced, index);
    assert a[..][index] == a[index];
    ghost var todo := set i | 0 <= i < a.Length && !wasReplaced[i];
    while newIndex != index
      invariant oldIndex < a.Length && newIndex == oldToNew[oldIndex] && buffer == s[oldIndex]
      invariant |wasReplaced| == a.Length
      invariant forall i :: 0 <= i < a.Length && replaced[i] ==> wasReplaced[i]
      invariant Within(s, oldToNew, a[..], wasReplaced, index, oldIndex)
      invariant forall i :: i in todo <==> 0 <= i < a.Length && !wasReplaced[i]
      decreases |todo|
    {
      CycleGoesOn(s, oldToNew, a[..], wasReplaced, index, oldIndex);
      assert a[..][newIndex] == a[newIndex];
      wasReplaced := wasReplaced[oldIndex := true];
      ghost var rest := todo - {oldIndex};
      assert |rest| == |todo| - 1;
      todo := rest;
      ghost var moved := a[..][newIndex := buffer];
      buffer, a[newIndex] := a[newIndex], buffer;
      assert a[..] == moved;
      oldIndex, newIndex := newIndex, oldToNew[newIndex];
    }
    CycleCloses(s, oldToNew, a[..], wasReplaced, index, oldIndex);
    wasReplaced := wasReplaced[oldIndex := true];
    ghost var moved := a[..][index := buffer];
    buffer, a[index] := a[index], buffer;
    assert a[..] == moved;
  }

  /** What the permutation of an ordering does: element `ordering[k]` goes to place `k`. */
  lemma ReorderedByInverse<T>(s: seq<T>, a: seq<T>, ordering: seq<nat>, p: seq<nat>)
    requires IsPermutation(ordering) && IsInverse(ordering, p) && |s| == |a| == |p|
    requires forall i :: 0 <= i < |p| ==> a[p[i]] == s[i]
    ensures a == Reordered(s, ordering)
  {
    forall k | 0 <= k < |a|
      ensures a[k] == s[ordering[k]]
    {
      assert p[ordering[k]] == k;
    }
  }
}
