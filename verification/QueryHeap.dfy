/**
 The addressable heap of the route searches: nodes are inserted once, may get smaller keys
 while they are in the heap, and stay known with their last key after they were removed.
 */
module QueryHeap {
  import opened Walks
  import opened Search

  datatype HeapData = HeapData(fromClique: bool, duration: int, distance: real)

  /** A node of the heap; `inHeap` stands for a handle other than the end handle. */
  datatype HeapNode = HeapNode(inHeap: bool, node: NodeID, weight: int, data: HeapData)

  /** The elements of the d-ary heap, ordered by weight and then by index. */
  datatype HeapEntry = HeapEntry(weight: int, index: nat)

  predicate EntryAtMost(a: HeapEntry, b: HeapEntry) {
    a.weight < b.weight || (a.weight == b.weight && a.index <= b.index)
  }

  lemma {:induction false} TopExists(h: set<HeapEntry>)
    requires h != {}
    ensures exists m :: m in h && forall k :: k in h ==> EntryAtMost(m, k)
  {
    var x :| x in h;
    if h != {x} {
      TopExists(h - {x});
      var m :| m in h - {x} && forall k :: k in h - {x} ==> EntryAtMost(m, k);
      var top := if EntryAtMost(x, m) then x else m;
      forall k | k in h
        ensures EntryAtMost(top, k)
      {
        assert k == x || EntryAtMost(m, k);
      }
    }
  }

  class QueryHeap {
    var insertedNodes: seq<HeapNode>
    var heap: set<HeapEntry>
    // positions of the nodes in `insertedNodes`; never cleared, so entries may be stale
    var nodeIndex: seq<nat>

    // the search state that the heap represents
    ghost var view: Search

    ghost predicate Valid()
      reads this
    {
      && (forall i :: 0 <= i < |insertedNodes| ==>
            insertedNodes[i].node < |nodeIndex| && nodeIndex[insertedNodes[i].node] == i)
      && (forall e :: e in heap <==> IsEntry(e))
      && (forall v: NodeID :: v in view.labels <==> v < |nodeIndex| && WasInserted(v))
      && (forall v :: v in view.labels ==> view.labels[v] == LabelOf(insertedNodes[nodeIndex[v]]))
      && (forall v :: v in view.open <==> v in view.labels && insertedNodes[nodeIndex[v]].inHeap)
    }

    ghost predicate IsEntry(e: HeapEntry)
      reads this
    {
      e.index < |insertedNodes| && insertedNodes[e.index].inHeap && insertedNodes[e.index].weight == e.weight
    }

    ghost function LabelOf(n: HeapNode): Label {
      Label(Cost(n.weight, n.data.duration, n.data.distance), n.data.fromClique)
    }

    constructor (size: nat)
      ensures Valid() && |nodeIndex| == size && view == Search(map[], {})
    {
      insertedNodes := [];
      heap := {};
      nodeIndex := seq(size, _ => 0);
      view := Search(map[], {});
    }

    method Clear()
      modifies this
      ensures Valid() && |nodeIndex| == old(|nodeIndex|)
      ensures view == Search(map[], {})
    {
      heap := {};
      insertedNodes := [];
      view := Search(map[], {});
    }

    predicate WasInserted(node: NodeID)
      requires node < |nodeIndex|
      reads this
    {
      nodeIndex[node] < |insertedNodes| && insertedNodes[nodeIndex[node]].node == node
    }

    predicate Empty()
      reads this
    {
      heap == {}
    }

    lemma EmptyView()
      requires Valid()
      ensures Empty() <==> view.open == {}
    {
      if !Empty() {
        var e :| e in heap;
        assert WasInserted(insertedNodes[e.index].node);
      }
      if view.open != {} {
        var v :| v in view.open;
        assert IsEntry(HeapEntry(insertedNodes[nodeIndex[v]].weight, nodeIndex[v]));
      }
    }

    lemma InsertedView(node: NodeID)
      requires Valid() && node < |nodeIndex|
      ensures WasInserted(node) <==> node in view.labels
    {}

    function GetKey(node: NodeID): (w: int)
      requires Valid() && node < |nodeIndex| && WasInserted(node)
      reads this
      ensures node in view.labels && w == view.labels[node].cost.weight
    {
      insertedNodes[nodeIndex[node]].weight
    }

    function GetData(node: NodeID): (d: HeapData)
      requires Valid() && node < |nodeIndex| && WasInserted(node)
      reads this
      ensures node in view.labels
      ensures view.labels[node] == Label(Cost(GetKey(node), d.duration, d.distance), d.fromClique)
    {
      insertedNodes[nodeIndex[node]].data
    }

    method Insert(node: NodeID, weight: int, data: HeapData)
      requires Valid() && node < |nodeIndex| && !WasInserted(node)
      modifies this
      ensures Valid() && |nodeIndex| == old(|nodeIndex|)
      ensures view == Search(
                          old(view).labels[node := Label(Cost(weight, data.duration, data.distance), data.fromClique)],
                          old(view).open + {node})
    {
      var index := |insertedNodes|;
      heap := heap + {HeapEntry(weight, index)};
      insertedNodes := insertedNodes + [HeapNode(true, node, weight, data)];
      nodeIndex := nodeIndex[node := index];
      view := Search(view.labels[node := LabelOf(insertedNodes[index])], view.open + {node});
      assert forall v :: 0 <= v < |nodeIndex| && v != node ==> WasInserted(v) == old(WasInserted(v));
    }

    lemma TopIsLeastOpen(top: HeapEntry)
      requires Valid() && top in heap && forall k :: k in heap ==> EntryAtMost(top, k)
      ensures IsLeastOpen(view, insertedNodes[top.index].node)
      ensures WasInserted(insertedNodes[top.index].node)
    {
      assert IsEntry(top);
      forall x | x in view.open
        ensures top.weight <= view.labels[x].cost.weight
      {
        assert IsEntry(HeapEntry(insertedNodes[nodeIndex[x]].weight, nodeIndex[x]));
      }
    }

    /** The element of an inserted node, as long as the node is in the heap. */
    function EntryOf(node: NodeID): HeapEntry
      requires node < |nodeIndex| && WasInserted(node)
      reads this
    {
      HeapEntry(insertedNodes[nodeIndex[node]].weight, nodeIndex[node])
    }

    lemma TopComesFirst(top: HeapEntry)
      requires Valid() && top in heap && forall k :: k in heap ==> EntryAtMost(top, k)
      ensures forall x :: x in view.open ==> x < |nodeIndex| && WasInserted(x) && EntryAtMost(top, EntryOf(x))
      ensures var node := insertedNodes[top.index].node; WasInserted(node) && top == EntryOf(node)
    {
      assert IsEntry(top);
      forall x | x in view.open
        ensures x < |nodeIndex| && WasInserted(x) && EntryAtMost(top, EntryOf(x))
      {
        assert IsEntry(EntryOf(x));
      }
    }

    /** Takes the least node off the heap, and of several ones that which was inserted first. */
    method DeleteMin() returns (node: NodeID)
      requires Valid() && !Empty()
      modifies this
      ensures Valid() && |nodeIndex| == old(|nodeIndex|)
      ensures node < |nodeIndex| && WasInserted(node)
      ensures IsLeastOpen(old(view), node)
      ensures view == Pop(old(view), node)
      ensures old(WasInserted(node))
      ensures forall x :: x in old(view).open && x != node ==>
                && x < |nodeIndex| && old(WasInserted(x))
                && var weight, other := old(view).labels[node].cost.weight, old(view).labels[x].cost.weight;
                   weight < other || (weight == other && old(nodeIndex[node]) < old(nodeIndex[x]))
    {
      TopExists(heap);
      var top :| top in heap && forall k :: k in heap ==> EntryAtMost(top, k);
      TopIsLeastOpen(top);
      TopComesFirst(top);
      node := insertedNodes[top.index].node;
      TakeOff(top);
    }

    /** The element is popped, and its handle becomes the end handle. */
    method TakeOff(top: HeapEntry)
      requires Valid() && top in heap
      modifies this
      ensures Valid() && nodeIndex == old(nodeIndex) && |insertedNodes| == old(|insertedNodes|)
      ensures forall i :: 0 <= i < |insertedNodes| ==> insertedNodes[i].node == old(insertedNodes[i].node)
      ensures top.index < |insertedNodes| && view == Pop(old(view), insertedNodes[top.index].node)
    {
      assert IsEntry(top);
      heap := heap - {top};
      insertedNodes := insertedNodes[top.index := insertedNodes[top.index].(inHeap := false)];
      view := Pop(view, insertedNodes[top.index].node);
    }

    method DecreaseKey(node: NodeID, weight: int)
      requires Valid() && node < |nodeIndex| && WasInserted(node)
      requires node in view.open && weight <= GetKey(node)
      modifies this
      ensures Valid() && |nodeIndex| == old(|nodeIndex|)
      ensures node in old(view).labels
      ensures var l := old(view).labels[node];
              view == Search(old(view).labels[node := l.(cost := l.cost.(weight := weight))], old(view).open)
    {
      var index := nodeIndex[node];
      heap := heap - {HeapEntry(insertedNodes[index].weight, index)} + {HeapEntry(weight, index)};
      insertedNodes := insertedNodes[index := insertedNodes[index].(weight := weight)];
      view := Search(view.labels[node := LabelOf(insertedNodes[index])], view.open);
    }

    /** Assignment through the reference that `GetData` returns. */
    method SetData(node: NodeID, data: HeapData)
      requires Valid() && node < |nodeIndex| && WasInserted(node)
      modifies this
      ensures Valid() && |nodeIndex| == old(|nodeIndex|)
      ensures node in old(view).labels
      ensures var l := old(view).labels[node];
              var updated := Label(Cost(l.cost.weight, data.duration, data.distance), data.fromClique);
              view == Search(old(view).labels[node := updated], old(view).open)
    {
      var index := nodeIndex[node];
      insertedNodes := insertedNodes[index := insertedNodes[index].(data := data)];
      view := Search(view.labels[node := LabelOf(insertedNodes[index])], view.open);
    }
  }
}
