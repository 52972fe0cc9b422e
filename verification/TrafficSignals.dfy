/** Traffic signals at nodes and on directed segments, and how they survive the compression of a chain. */
module TrafficSignals {
  type NodeID = nat
  type Segment = (NodeID, NodeID)

  datatype Signals = Signals(nodes: set<NodeID>, segments: set<Segment>)

  predicate Signalled(s: Signals, from: NodeID, to: NodeID) {
    to in s.nodes || (from, to) in s.segments
  }

  /** An entry of `via` is moved to the node on the other side. */
  function Moved(segments: set<Segment>, via: NodeID, to: NodeID, from: NodeID): set<Segment> {
    if (via, to) in segments then segments - {(via, to)} + {(from, to)} else segments
  }

  function Compressed(s: Signals, from: NodeID, via: NodeID, to: NodeID): Signals {
    Signals(s.nodes - {via}, Moved(Moved(s.segments, via, to, from), via, from, to))
  }

  class TrafficSignals {
    var bidirectionalNodes: set<NodeID>
    var unidirectionalSegments: set<Segment>

    ghost function State(): Signals
      reads this
    {
      Signals(bidirectionalNodes, unidirectionalSegments)
    }

    constructor (nodes: set<NodeID>, segments: set<Segment>)
      ensures State() == Signals(nodes, segments)
    {
      bidirectionalNodes, unidirectionalSegments := nodes, segments;
    }

    predicate HasSignal(from: NodeID, to: NodeID)
      reads this
      ensures HasSignal(from, to) == Signalled(State(), from, to)
    {
      to in bidirectionalNodes || (from, to) in unidirectionalSegments
    }

    method Compress(from: NodeID, via: NodeID, to: NodeID)
      modifies this
      ensures State() == Compressed(old(State()), from, via, to)
    {
      bidirectionalNodes := bidirectionalNodes - {via};
      if (via, to) in unidirectionalSegments {
        unidirectionalSegments := unidirectionalSegments - {(via, to)};
        unidirectionalSegments := unidirectionalSegments + {(from, to)};
      }
      if (via, from) in unidirectionalSegments {
        unidirectionalSegments := unidirectionalSegments - {(via, from)};
        unidirectionalSegments := unidirectionalSegments + {(to, from)};
      }
    }

    /** Compresses the inner nodes of a chain, each time the one that is chosen next. */
    method CompressChain(chain: seq<NodeID>, choices: seq<nat>)
      requires |chain| >= 2 && AreChoices(choices, |chain|)
      modifies this
      ensures State() == AllCompressed(old(State()), chain, choices)
    {
      var rest := chain;
      assert choices[0..] == choices;
      for i := 0 to |choices|
        invariant |rest| == |chain| - i && AreChoices(choices[i..], |rest|)
        invariant AllCompressed(State(), rest, choices[i..]) == AllCompressed(old(State()), chain, choices)
      {
        var k := choices[i];
        assert choices[i..][0] == k && choices[i..][1..] == choices[i + 1..];
        Compress(rest[k - 1], rest[k], rest[k + 1]);
        rest := Without(rest, k);
      }
      assert choices[|choices|..] == [];
    }
  }

  // Whole chains

  function Without(chain: seq<NodeID>, k: nat): (r: seq<NodeID>)
    requires k < |chain|
    ensures |r| == |chain| - 1
  {
    chain[..k] + chain[k + 1..]
  }

  /** Every choice is an inner node of what is left of the chain, until only its ends are left. */
  predicate AreChoices(choices: seq<nat>, n: nat) {
    if choices == [] then n == 2 else 0 < choices[0] < n - 1 && AreChoices(choices[1..], n - 1)
  }

  function AllCompressed(s: Signals, chain: seq<NodeID>, choices: seq<nat>): Signals
    requires AreChoices(choices, |chain|)
    decreases choices
  {
    if choices == [] then s
    else
      var k := choices[0];
      AllCompressed(Compressed(s, chain[k - 1], chain[k], chain[k + 1]), Without(chain, k), choices[1..])
  }

  function Prepended(k: nat, choices: seq<nat>): (r: seq<nat>)
    ensures r != [] && r[0] == k && r[1..] == choices
  {
    [k] + choices
  }

  lemma CompressFirst(s: Signals, chain: seq<NodeID>, k: nat, choices: seq<nat>)
    requires 0 < k < |chain| - 1 && AreChoices(choices, |chain| - 1)
    ensures AreChoices(Prepended(k, choices), |chain|)
    ensures AllCompressed(s, chain, Prepended(k, choices))
         == AllCompressed(Compressed(s, chain[k - 1], chain[k], chain[k + 1]), Without(chain, k), choices)
  {}

  ghost predicate AreDistinct(chain: seq<NodeID>) {
    forall i, j :: 0 <= i < j < |chain| ==> chain[i] != chain[j]
  }

  lemma CompressedSegment(s: Signals, from: NodeID, via: NodeID, to: NodeID, x: NodeID, y: NodeID)
    requires from != via && via != to && from != to
    ensures (x, y) in Compressed(s, from, via, to).segments
       <==> || ((x, y) in s.segments && (x, y) != (via, to) && (x, y) != (via, from))
            || ((x, y) == (from, to) && (via, to) in s.segments)
            || ((x, y) == (to, from) && (via, from) in s.segments)
  {}

  /** A single compression: the signal of the last link, or one that was already there. */
  lemma OneCompression(s: Signals, from: NodeID, via: NodeID, to: NodeID)
    requires from != via && via != to && from != to
    ensures var s' := Compressed(s, from, via, to);
            && (Signalled(s', from, to) <==> Signalled(s, via, to) || (from, to) in s.segments)
            && (Signalled(s', to, from) <==> Signalled(s, via, from) || (to, from) in s.segments)
  {
    CompressedSegment(s, from, via, to, from, to);
    CompressedSegment(s, from, via, to, to, from);
  }

  /** Where the `i`th node of the chain is found once the `k`th is left out. */
  function Behind(k: nat, i: nat): int {
    if i < k then i else i - 1
  }

  lemma WithoutIsDistinct(chain: seq<NodeID>, k: nat)
    requires 0 < k < |chain| - 1 && AreDistinct(chain)
    ensures AreDistinct(Without(chain, k))
    ensures forall i :: 0 <= i < |chain| && i != k ==> Without(chain, k)[Behind(k, i)] == chain[i]
  {}

  lemma WithoutKeepsEnds(chain: seq<NodeID>, k: nat)
    requires 0 < k < |chain| - 1
    ensures Without(chain, k)[0] == chain[0] && Without(chain, k)[|chain| - 2] == chain[|chain| - 1]
  {}

  function Inner(chain: seq<NodeID>): seq<NodeID>
    requires |chain| >= 2
  {
    chain[1..|chain| - 1]
  }

  /** Signals at the nodes that are left out go, all others stay. */
  lemma {:induction false} InnerSignalsGo(s: Signals, chain: seq<NodeID>, choices: seq<nat>)
    requires |chain| >= 2 && AreChoices(choices, |chain|)
    ensures forall v :: v in AllCompressed(s, chain, choices).nodes <==> v in s.nodes && v !in Inner(chain)
    decreases choices
  {
    if choices != [] {
      var k := choices[0];
      InnerSignalsGo(Compressed(s, chain[k - 1], chain[k], chain[k + 1]), Without(chain, k), choices[1..]);
      InnerNodes(chain, k);
      hide Inner, Without, Moved;
    }
  }

  lemma InnerNodes(chain: seq<NodeID>, k: nat)
    requires 0 < k < |chain| - 1
    ensures forall v :: v in Inner(chain) <==> v == chain[k] || v in Inner(Without(chain, k))
  {
    assert Inner(chain) == chain[1..k] + [chain[k]] + chain[k + 1..|chain| - 1];
    assert Inner(Without(chain, k)) == chain[1..k] + chain[k + 1..|chain| - 1];
  }

  /** A signal that is not between two nodes of the chain stays as it is. */
  lemma {:induction false} ElsewhereNothingChanges(s: Signals, chain: seq<NodeID>, choices: seq<nat>, x: NodeID,
                                                   y: NodeID)
    requires |chain| >= 2 && AreChoices(choices, |chain|) && AreDistinct(chain) && (x !in chain || y !in chain)
    ensures (x, y) in AllCompressed(s, chain, choices).segments <==> (x, y) in s.segments
    decreases choices
  {
    hide Compressed, Without, AreDistinct;
    if choices != [] {
      var k := choices[0];
      WithoutIsDistinct(chain, k);
      WithoutIsPart(chain, k);
      NeighboursDiffer(chain, k);
      CompressedSegment(s, chain[k - 1], chain[k], chain[k + 1], x, y);
      var s' := Compressed(s, chain[k - 1], chain[k], chain[k + 1]);
      ElsewhereNothingChanges(s', Without(chain, k), choices[1..], x, y);
    }
  }

  lemma WithoutIsPart(chain: seq<NodeID>, k: nat)
    requires k < |chain|
    ensures forall v :: v in Without(chain, k) ==> v in chain
  {}

  // What reaches the last node of a chain

  /** The segment from the `i`th node of the chain to its last one has a signal of its own. */
  predicate LeadsToLast(s: Signals, chain: seq<NodeID>, i: nat)
    requires i < |chain|
  {
    (chain[i], chain[|chain| - 1]) in s.segments
  }

  /** The signal of the last link is moved along with it, and nothing else gets to the last node. */
  lemma OneStep(s: Signals, chain: seq<NodeID>, k: nat)
    requires 0 < k < |chain| - 1 && AreDistinct(chain)
    ensures var s', rest, n := Compressed(s, chain[k - 1], chain[k], chain[k + 1]), Without(chain, k), |chain|;
            && (rest[n - 2] in s'.nodes <==> chain[n - 1] in s.nodes)
            && forall i :: 0 <= i < n - 1 && i != k ==>
                 (LeadsToLast(s', rest, Behind(k, i))
                  <==> LeadsToLast(s, chain, i) || (i == n - 3 && k == n - 2 && LeadsToLast(s, chain, k)))
  {
    var s', rest, n := Compressed(s, chain[k - 1], chain[k], chain[k + 1]), Without(chain, k), |chain|;
    WithoutIsDistinct(chain, k);
    assert rest[n - 2] == rest[Behind(k, n - 1)] == chain[n - 1];
    forall i | 0 <= i < n - 1 && i != k
      ensures LeadsToLast(s', rest, Behind(k, i))
         <==> LeadsToLast(s, chain, i) || (i == n - 3 && k == n - 2 && LeadsToLast(s, chain, k))
    {
      CompressedSegment(s, chain[k - 1], chain[k], chain[k + 1], chain[i], chain[n - 1]);
      assert chain[i] == chain[k - 1] ==> i == k - 1;
      assert chain[n - 1] == chain[k + 1] ==> n - 1 == k + 1;
    }
  }

  /** A signal of the last link stays, whatever is compressed. */
  lemma {:induction false} LastLinkStays(s: Signals, chain: seq<NodeID>, choices: seq<nat>)
    requires |chain| >= 2 && AreChoices(choices, |chain|) && AreDistinct(chain)
    requires Signalled(s, chain[|chain| - 2], chain[|chain| - 1])
    ensures Signalled(AllCompressed(s, chain, choices), chain[0], chain[|chain| - 1])
    decreases choices
  {
    hide Compressed, Without, AreDistinct, Signalled, Prepended;
    if choices != [] {
      var k := choices[0];
      LastLinkStaysOnce(s, chain, k);
      WithoutIsDistinct(chain, k);
      WithoutKeepsEnds(chain, k);
      LastLinkStays(Compressed(s, chain[k - 1], chain[k], chain[k + 1]), Without(chain, k), choices[1..]);
    }
  }

  lemma LastLinkStaysOnce(s: Signals, chain: seq<NodeID>, k: nat)
    requires 0 < k < |chain| - 1 && AreDistinct(chain)
    requires Signalled(s, chain[|chain| - 2], chain[|chain| - 1])
    ensures var rest, n := Without(chain, k), |chain|;
            Signalled(Compressed(s, chain[k - 1], chain[k], chain[k + 1]), rest[n - 3], rest[n - 2])
  {
    hide Compressed, Without, AreDistinct;
    var n := |chain|;
    OneStep(s, chain, k);
    WithoutKeepsEnds(chain, k);
    assert LeadsToLast(s, chain, n - 2) <==> (chain[n - 2], chain[n - 1]) in s.segments;
    var i := if k == n - 2 then n - 3 else n - 2;
    assert Behind(k, i) == n - 3;
  }

  ghost predicate NoneReachesLast(s: Signals, chain: seq<NodeID>)
    requires |chain| >= 2
  {
    chain[|chain| - 1] !in s.nodes && forall i :: 0 <= i < |chain| - 1 ==> !LeadsToLast(s, chain, i)
  }

  lemma NoneReachesAfter(s: Signals, chain: seq<NodeID>, k: nat)
    requires 0 < k < |chain| - 1 && AreDistinct(chain) && NoneReachesLast(s, chain)
    ensures NoneReachesLast(Compressed(s, chain[k - 1], chain[k], chain[k + 1]), Without(chain, k))
  {
    var s', rest := Compressed(s, chain[k - 1], chain[k], chain[k + 1]), Without(chain, k);
    OneStep(s, chain, k);
    hide Compressed, Without, AreDistinct, LeadsToLast;
    forall j | 0 <= j < |chain| - 2
      ensures !LeadsToLast(s', rest, j)
    {
      var i := if j < k then j else j + 1;
      assert Behind(k, i) == j;
    }
  }

  /** Without any signal that reaches the last node there never is one. */
  lemma {:induction false} NothingReachesLast(s: Signals, chain: seq<NodeID>, choices: seq<nat>)
    requires |chain| >= 2 && AreChoices(choices, |chain|) && AreDistinct(chain)
    requires NoneReachesLast(s, chain)
    ensures !Signalled(AllCompressed(s, chain, choices), chain[0], chain[|chain| - 1])
    decreases choices
  {
    if choices == [] {
      assert !LeadsToLast(s, chain, 0);
    } else {
      var k := choices[0];
      NoneReachesAfter(s, chain, k);
      WithoutIsDistinct(chain, k);
      hide Compressed, Without, AreDistinct, NoneReachesLast;
      NothingReachesLast(Compressed(s, chain[k - 1], chain[k], chain[k + 1]), Without(chain, k), choices[1..]);
    }
  }

  /** Compressing from the last inner node to the first. */
  function FromTheLast(n: nat): (choices: seq<nat>)
    requires n >= 2
    ensures AreChoices(choices, n)
  {
    if n == 2 then [] else Prepended(n - 2, FromTheLast(n - 1))
  }

  /** In this order, every signal that leads to the last node comes to be one of the last link. */
  lemma {:induction false} FromTheLastReaches(s: Signals, chain: seq<NodeID>, i: nat)
    requires |chain| >= 2 && AreDistinct(chain) && i < |chain| - 1 && LeadsToLast(s, chain, i)
    ensures Signalled(AllCompressed(s, chain, FromTheLast(|chain|)), chain[0], chain[|chain| - 1])
    decreases |chain|
  {
    hide AllCompressed, Compressed, Without, AreDistinct, LeadsToLast, Signalled, AreChoices, Prepended;
    var n := |chain|;
    if n == 2 {
      LastLinkIsSignalled(s, chain);
    } else {
      var k := n - 2;
      StepReaches(s, chain, i);
      WithoutIsDistinct(chain, k);
      WithoutKeepsEnds(chain, k);
      CompressFirst(s, chain, k, FromTheLast(n - 1));
      FromTheLastReaches(Compressed(s, chain[k - 1], chain[k], chain[k + 1]), Without(chain, k),
                         if i == k then n - 3 else i);
    }
  }

  lemma LastLinkIsSignalled(s: Signals, chain: seq<NodeID>)
    requires |chain| == 2 && LeadsToLast(s, chain, 0)
    ensures Signalled(AllCompressed(s, chain, []), chain[0], chain[1])
  {}

  lemma StepReaches(s: Signals, chain: seq<NodeID>, i: nat)
    requires |chain| > 2 && AreDistinct(chain) && i < |chain| - 1 && LeadsToLast(s, chain, i)
    ensures var k := |chain| - 2;
            LeadsToLast(Compressed(s, chain[k - 1], chain[k], chain[k + 1]), Without(chain, k),
                        if i == k then k - 1 else i)
  {
    hide Compressed, Without, AreDistinct, LeadsToLast;
    var k := |chain| - 2;
    OneStep(s, chain, k);
    assert Behind(k, k - 1) == k - 1 && (i != k ==> Behind(k, i) == i);
  }

  /** The signal from the first to the last node is that of the last link, in whatever order. */
  ghost predicate KeepsLast(s: Signals, chain: seq<NodeID>)
    requires |chain| >= 2
  {
    var n := |chain|;
    forall choices | AreChoices(choices, n) ::
      Signalled(AllCompressed(s, chain, choices), chain[0], chain[n - 1]) == Signalled(s, chain[n - 2], chain[n - 1])
  }

  /** The last link has a signal, or no node further away has one that leads to the last node. */
  predicate HasNoSignalPastLast(s: Signals, chain: seq<NodeID>)
    requires |chain| >= 2
  {
    var n := |chain|;
    Signalled(s, chain[n - 2], chain[n - 1]) || forall i :: 0 <= i < n - 2 ==> (chain[i], chain[n - 1]) !in s.segments
  }

  lemma KeepsLastExactly(s: Signals, chain: seq<NodeID>)
    requires |chain| >= 2 && AreDistinct(chain)
    ensures KeepsLast(s, chain) <==> HasNoSignalPastLast(s, chain)
  {
    var n := |chain|;
    if HasNoSignalPastLast(s, chain) {
      forall choices | AreChoices(choices, n)
        ensures Signalled(AllCompressed(s, chain, choices), chain[0], chain[n - 1])
             == Signalled(s, chain[n - 2], chain[n - 1])
      {
        if Signalled(s, chain[n - 2], chain[n - 1]) {
          LastLinkStays(s, chain, choices);
        } else {
          NothingReachesLast(s, chain, choices);
        }
      }
    } else {
      var i: nat :| i < n - 2 && (chain[i], chain[n - 1]) in s.segments;
      FromTheLastReaches(s, chain, i);
    }
  }

  // The other direction is that of the chain read backwards

  function Backwards(chain: seq<NodeID>): (r: seq<NodeID>)
    ensures |r| == |chain| && forall i :: 0 <= i < |chain| ==> r[i] == chain[|chain| - 1 - i]
  {
    seq(|chain|, i requires 0 <= i < |chain| => chain[|chain| - 1 - i])
  }

  /** The same nodes, counted from the other end. */
  function Counted(choices: seq<nat>, n: nat): (r: seq<nat>)
    requires AreChoices(choices, n)
    ensures AreChoices(r, n)
    decreases choices
  {
    if choices == [] then [] else Prepended(n - 1 - choices[0], Counted(choices[1..], n - 1))
  }

  lemma {:induction false} CountedTwice(choices: seq<nat>, n: nat)
    requires AreChoices(choices, n)
    ensures Counted(Counted(choices, n), n) == choices
    decreases choices
  {
    if choices != [] {
      CountedTwice(choices[1..], n - 1);
      assert Counted(Counted(choices, n), n) == [choices[0]] + choices[1..] == choices;
    }
  }

  lemma CompressedBackwards(s: Signals, from: NodeID, via: NodeID, to: NodeID)
    requires from != via && via != to && from != to
    ensures Compressed(s, to, via, from) == Compressed(s, from, via, to)
  {
    forall x: NodeID, y: NodeID
      ensures (x, y) in Compressed(s, to, via, from).segments <==> (x, y) in Compressed(s, from, via, to).segments
    {
      CompressedSegment(s, from, via, to, x, y);
      CompressedSegment(s, to, via, from, x, y);
    }
  }

  lemma WithoutBackwards(chain: seq<NodeID>, k: nat)
    requires k < |chain|
    ensures Without(Backwards(chain), |chain| - 1 - k) == Backwards(Without(chain, k))
  {}

  lemma NeighboursDiffer(chain: seq<NodeID>, k: nat)
    requires 0 < k < |chain| - 1 && AreDistinct(chain)
    ensures chain[k - 1] != chain[k] && chain[k] != chain[k + 1] && chain[k - 1] != chain[k + 1]
  {}

  lemma {:induction false} AllCompressedBackwards(s: Signals, chain: seq<NodeID>, choices: seq<nat>)
    requires |chain| >= 2 && AreChoices(choices, |chain|) && AreDistinct(chain)
    ensures AllCompressed(s, Backwards(chain), Counted(choices, |chain|)) == AllCompressed(s, chain, choices)
    decreases choices
  {
    hide Compressed, Without, Backwards, AreDistinct, Prepended;
    if choices != [] {
      var k, n, back := choices[0], |chain|, Backwards(chain);
      assert k < n - 1;
      var s', rest := Compressed(s, chain[k - 1], chain[k], chain[k + 1]), Without(chain, k);
      AllCompressedBackwards(s', rest, choices[1..]) by {
        WithoutIsDistinct(chain, k);
      }
      assert Compressed(s, back[n - 2 - k], back[n - 1 - k], back[n - k]) == s' by {
        NeighboursDiffer(chain, k);
        CompressedBackwards(s, chain[k - 1], chain[k], chain[k + 1]);
      }
      WithoutBackwards(chain, k);
      CompressFirst(s, back, n - 1 - k, Counted(choices[1..], n - 1));
    }
  }

  /** The signal from the last to the first node is that of the first link, in whatever order. */
  ghost predicate KeepsFirst(s: Signals, chain: seq<NodeID>)
    requires |chain| >= 2
  {
    var n := |chain|;
    forall choices | AreChoices(choices, n) ::
      Signalled(AllCompressed(s, chain, choices), chain[n - 1], chain[0]) == Signalled(s, chain[1], chain[0])
  }

  predicate HasNoSignalPastFirst(s: Signals, chain: seq<NodeID>)
    requires |chain| >= 2
  {
    Signalled(s, chain[1], chain[0]) || forall i :: 2 <= i < |chain| ==> (chain[i], chain[0]) !in s.segments
  }

  lemma KeepsFirstExactly(s: Signals, chain: seq<NodeID>)
    requires |chain| >= 2 && AreDistinct(chain)
    ensures KeepsFirst(s, chain) <==> HasNoSignalPastFirst(s, chain)
  {
    var n, back := |chain|, Backwards(chain);
    KeepsLastExactly(s, back);
    forall choices | AreChoices(choices, n)
      ensures AllCompressed(s, back, Counted(choices, n)) == AllCompressed(s, chain, choices)
      ensures Counted(Counted(choices, n), n) == choices
    {
      AllCompressedBackwards(s, chain, choices);
      CountedTwice(choices, n);
    }
    assert KeepsFirst(s, chain) <==> KeepsLast(s, back);
    PastFirstIsPastLast(s, chain);
  }

  lemma PastFirstIsPastLast(s: Signals, chain: seq<NodeID>)
    requires |chain| >= 2
    ensures HasNoSignalPastFirst(s, chain) <==> HasNoSignalPastLast(s, Backwards(chain))
  {
    var n, back := |chain|, Backwards(chain);
    assert forall i :: 0 <= i < n ==> chain[i] == back[n - 1 - i];
  }

  /** No directed signal joins two nodes of the chain that are not neighbours. */
  ghost predicate HasNoShortcut(s: Signals, chain: seq<NodeID>) {
    forall i, j :: 0 <= i < |chain| && 0 <= j < |chain| && (i + 2 <= j || j + 2 <= i) ==>
      (chain[i], chain[j]) !in s.segments
  }

  /**
   In particular, where signals only join neighbours, a signal from the first node to the last is
   that of the last link, and one from the last to the first that of the first, in every order.
   */
  lemma ChainKeepsSignals(s: Signals, chain: seq<NodeID>, choices: seq<nat>)
    requires |chain| >= 2 && AreChoices(choices, |chain|) && AreDistinct(chain) && HasNoShortcut(s, chain)
    ensures var s', n := AllCompressed(s, chain, choices), |chain|;
            && Signalled(s', chain[0], chain[n - 1]) == Signalled(s, chain[n - 2], chain[n - 1])
            && Signalled(s', chain[n - 1], chain[0]) == Signalled(s, chain[1], chain[0])
  {
    KeepsLastExactly(s, chain);
    KeepsFirstExactly(s, chain);
  }

  /** With a signal from an inner node to one that is not its neighbour, the order does matter. */
  lemma ShortcutMayMatter(a: NodeID, x: NodeID, y: NodeID, b: NodeID)
    requires AreDistinct([a, x, y, b])
    ensures var s, chain := Signals({}, {(x, b)}), [a, x, y, b];
            && AreChoices([2, 1], 4) && AreChoices([1, 1], 4)
            && Signalled(AllCompressed(s, chain, [2, 1]), a, b) && !Signalled(AllCompressed(s, chain, [1, 1]), a, b)
  {
    var s, chain := Signals({}, {(x, b)}), [a, x, y, b];
    assert a != x && a != y && a != b && x != y && x != b && y != b by {
      assert chain[0] != chain[1] && chain[0] != chain[2] && chain[0] != chain[3];
      assert chain[1] != chain[2] && chain[1] != chain[3] && chain[2] != chain[3];
    }
    assert [2, 1][1..] == [1] && [1, 1][1..] == [1] && [1][1..] == [];
    assert Without(chain, 2) == [a, x, b] && Without(chain, 1) == [a, y, b];
    assert Compressed(s, x, y, b) == s;
    assert AllCompressed(s, [a, x, b], [1]) == Compressed(s, a, x, b);
    assert Compressed(s, a, x, y) == s;
    assert AllCompressed(s, [a, y, b], [1]) == Compressed(s, a, y, b) == s;
  }
}
