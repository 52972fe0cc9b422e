/**
 Contracting one graph for several exclusion filters: what all filters allow is contracted
 once, the remaining core once for every filter, and all edges go into one list.
 */
module ExcludableGraph {
  import opened Walks
  import opened EdgeContainer
  import Sorting

  /** A graph over the nodes below `numNodes`, as the list of its edges. */
  datatype Graph = Graph(numNodes: nat, edges: seq<QueryEdge>)

  ghost predicate IsOver(edges: seq<QueryEdge>, numNodes: nat) {
    forall e :: e in edges ==> e.source < numNodes && e.target < numNodes
  }

  ghost predicate IsEnd(edges: seq<QueryEdge>, n: NodeID) {
    exists e :: e in edges && (e.source == n || e.target == n)
  }

  /**
   The contraction of a graph, given which nodes are core from the start and which may be
   contracted: the edges of the contracted graph, and which nodes are core afterwards.
   */
  type Contraction = (Graph, seq<bool>, seq<bool>) -> (Graph, seq<bool>)

  /** Shortcuts only join nodes that have edges, and nodes that must not be contracted stay in the core. */
  ghost predicate IsContracted(g: Graph, uncontracted: seq<bool>, contractable: seq<bool>, g': Graph, core: seq<bool>) {
    && g'.numNodes == g.numNodes == |core|
    && (forall e :: e in g'.edges ==> IsEnd(g.edges, e.source) && IsEnd(g.edges, e.target))
    && (uncontracted == [] ==>
          forall n :: 0 <= n < |contractable| && n < g.numNodes && !contractable[n] ==> core[n])
  }

  ghost predicate IsContraction(contract: Contraction) {
    forall g, uncontracted, contractable ::
      var (g', core) := contract(g, uncontracted, contractable);
      IsContracted(g, uncontracted, contractable, g', core)
  }

  predicate PairAtMost(a: QueryEdge, b: QueryEdge) {
    a.source < b.source || (a.source == b.source && a.target <= b.target)
  }

  /** The edges of a graph, sorted by source and target. */
  method ToEdges(g: Graph) returns (edges: seq<QueryEdge>)
    ensures multiset(edges) == multiset(g.edges) && IsOrderedByEnds(edges)
    ensures forall e :: e in edges <==> e in g.edges
  {
    assert Sorting.IsOrder(PairAtMost);
    edges := Sorting.Sorted(PairAtMost, g.edges);
    Sorting.SortedIsSorted(PairAtMost, g.edges);
    assert forall e :: e in edges <==> e in multiset(edges);
  }

  /** Both ends of the edge are in a set of nodes. */
  predicate Joins(nodes: seq<bool>, e: QueryEdge) {
    e.source < |nodes| && e.target < |nodes| && IsAllowed(nodes, e)
  }

  /** The edges with both ends in a set of nodes, or the others. */
  function Where(edges: seq<QueryEdge>, nodes: seq<bool>, both: bool): (kept: seq<QueryEdge>)
    ensures forall e :: e in kept <==> e in edges && Joins(nodes, e) == both
  {
    if edges == [] then [] else
    assert edges == [edges[0]] + edges[1..];
    (if Joins(nodes, edges[0]) == both then [edges[0]] else []) + Where(edges[1..], nodes, both)
  }

  lemma {:induction false} WhereIsOrdered(edges: seq<QueryEdge>, nodes: seq<bool>, both: bool)
    requires IsOrderedByEnds(edges)
    ensures IsOrderedByEnds(Where(edges, nodes, both))
  {
    if edges != [] {
      var rest := Where(edges[1..], nodes, both);
      WhereIsOrdered(edges[1..], nodes, both);
      forall j | 0 <= j < |rest|
        ensures edges[0].source < rest[j].source
                || (edges[0].source == rest[j].source && edges[0].target <= rest[j].target)
      {
        assert rest[j] in rest;
        var k :| 1 <= k < |edges| && edges[k] == rest[j];
      }
    }
  }

  /** How often an edge is among them. */
  lemma {:induction false} WhereCounts(edges: seq<QueryEdge>, nodes: seq<bool>, both: bool, e: QueryEdge)
    ensures multiset(Where(edges, nodes, both))[e] == if Joins(nodes, e) == both then multiset(edges)[e] else 0
  {
    if edges != [] {
      WhereCounts(edges[1..], nodes, both, e);
      assert edges == [edges[0]] + edges[1..];
    }
  }

  lemma WhereOfSorted(edges: seq<QueryEdge>, sorted: seq<QueryEdge>, nodes: seq<bool>, both: bool)
    requires multiset(sorted) == multiset(edges)
    ensures multiset(Where(sorted, nodes, both)) == multiset(Where(edges, nodes, both))
  {
    forall e: QueryEdge
      ensures multiset(Where(sorted, nodes, both))[e] == multiset(Where(edges, nodes, both))[e]
    {
      WhereCounts(sorted, nodes, both, e);
      WhereCounts(edges, nodes, both, e);
    }
  }

  /** Nodes that every filter allows. */
  method AlwaysAllowed(filters: seq<seq<bool>>, numNodes: nat) returns (allowed: seq<bool>)
    requires forall f :: f in filters ==> |f| == numNodes
    ensures allowed == AllowedNodes(filters, numNodes)
  {
    allowed := seq(numNodes, _ => true);
    for i := 0 to |filters|
      invariant |allowed| == numNodes
      invariant forall n :: 0 <= n < numNodes ==> (allowed[n] <==> AllowedByAll(filters[..i], n))
    {
      var filter := filters[i];
      assert filters[..i + 1] == filters[..i] + [filter];
      ghost var before := allowed;
      for n := 0 to numNodes
        invariant |allowed| == numNodes
        invariant forall m :: 0 <= m < n ==> (allowed[m] <==> before[m] && filter[m])
        invariant forall m :: n <= m < numNodes ==> allowed[m] == before[m]
      {
        allowed := allowed[n := allowed[n] && filter[n]];
      }
    }
    assert filters[..|filters|] == filters;
  }

  ghost predicate AllowedByAll(filters: seq<seq<bool>>, n: nat) {
    forall f :: f in filters && n < |f| ==> f[n]
  }

  ghost function AllowedNodes(filters: seq<seq<bool>>, numNodes: nat): (allowed: seq<bool>)
    ensures |allowed| == numNodes && forall n :: 0 <= n < numNodes ==> (allowed[n] <==> AllowedByAll(filters, n))
  {
    seq(numNodes, n requires 0 <= n < numNodes => AllowedByAll(filters, n))
  }

  // What is to come out

  /** What is left after contracting what all filters allow. */
  ghost function FirstContracted(g: Graph, filters: seq<seq<bool>>, contract: Contraction): (Graph, seq<bool>) {
    contract(g, [], AllowedNodes(filters, g.numNodes))
  }

  /** The edges with an end outside of the core: they are shared by all filters. */
  ghost function SharedOf(g: Graph, filters: seq<seq<bool>>, contract: Contraction): seq<QueryEdge> {
    var (g', isCore) := FirstContracted(g, filters, contract);
    Where(g'.edges, isCore, false)
  }

  ghost function CoreOf(g: Graph, filters: seq<seq<bool>>, contract: Contraction): Graph {
    var (g', isCore) := FirstContracted(g, filters, contract);
    Graph(g.numNodes, Where(g'.edges, isCore, true))
  }

  /** What the part of a core that a filter allows is contracted to. */
  ghost function CoreContracted(core: Graph, isCore: seq<bool>, filter: seq<bool>, contract: Contraction)
    : seq<QueryEdge>
  {
    contract(Graph(core.numNodes, Where(core.edges, filter, true)), isCore, isCore).0.edges
  }

  /** The edges that only one filter has. */
  ghost function OwnOf(g: Graph, filters: seq<seq<bool>>, contract: Contraction, i: nat): seq<QueryEdge>
    requires i < |filters|
  {
    CoreContracted(CoreOf(g, filters, contract), FirstContracted(g, filters, contract).1, filters[i], contract)
  }

  // What the list exposes for a filter

  /** `key` belongs to an edge whose ends the filter allows. */
  ghost predicate AllowsKey(filter: seq<bool>, key: Key) {
    |key| == 8 && 0 <= key[0] < |filter| && 0 <= key[1] < |filter| && filter[key[0]] && filter[key[1]]
  }

  ghost function AllowedKeys(edges: seq<QueryEdge>, filter: seq<bool>): iset<Key> {
    iset key: Key | HasKey(edges, key) && AllowsKey(filter, key)
  }

  lemma FilterExposes(edges: seq<QueryEdge>, flags: seq<Flags>, filter: seq<bool>, i: nat)
    requires |edges| == |flags| && i < MAX_INDEX && IsOver(edges, |filter|)
    requires forall k :: 0 <= k < |edges| ==> edges[k].source < |filter| && edges[k].target < |filter|
    requires forall k :: 0 <= k < |edges| ==> (Has(flags[k], i) <==> IsAllowed(filter, edges[k]))
    ensures Exposed(edges, flags, i) == AllowedKeys(edges, filter)
  {
    forall key | ExposesKey(edges, flags, i, key)
      ensures HasKey(edges, key) && AllowsKey(filter, key)
    {
      var k :| 0 <= k < |edges| && Has(flags[k], i) && KeyOf(edges[k]) == key;
    }
    forall key | HasKey(edges, key) && AllowsKey(filter, key)
      ensures ExposesKey(edges, flags, i, key)
    {
      var k :| 0 <= k < |edges| && KeyOf(edges[k]) == key;
      assert Has(flags[k], i);
    }
  }

  /** Filtering for one graph leaves the others as they are. */
  lemma OtherFlagsExpose(edges: seq<QueryEdge>, flags: seq<Flags>, flags': seq<Flags>, j: nat)
    requires |edges| == |flags| == |flags'| && j < MAX_INDEX
    requires forall k :: 0 <= k < |edges| ==> Has(flags'[k], j) == Has(flags[k], j)
    ensures Exposed(edges, flags', j) == Exposed(edges, flags, j)
  {
    forall key
      ensures ExposesKey(edges, flags', j, key) <==> ExposesKey(edges, flags, j, key)
    {
      if ExposesKey(edges, flags, j, key) {
        var k :| 0 <= k < |edges| && Has(flags[k], j) && KeyOf(edges[k]) == key;
        assert Has(flags'[k], j);
      }
      if ExposesKey(edges, flags', j, key) {
        var k :| 0 <= k < |edges| && Has(flags'[k], j) && KeyOf(edges[k]) == key;
        assert Has(flags[k], j);
      }
    }
  }

  /** Adds the edges outside of the core, once for every filter. */
  method AddShared(container: ContractedEdgeContainer, edges: seq<QueryEdge>, filters: seq<seq<bool>>, numNodes: nat)
    requires container.Valid() && container.edges == [] && container.flags == [] && container.index == 0
    requires |filters| <= MAX_INDEX && IsOver(edges, numNodes) && forall f :: f in filters ==> |f| == numNodes
    modifies container
    ensures container.Valid() && container.index == 0 && container.edges == edges
    ensures forall i :: 0 <= i < |filters| ==>
              Exposed(container.edges, container.flags, i) == AllowedKeys(edges, filters[i])
  {
    container.Insert(edges);
    for i := 0 to |filters|
      invariant container.Valid() && container.index == 0 && container.edges == edges
      invariant forall j :: 0 <= j < i ==> Exposed(edges, container.flags, j) == AllowedKeys(edges, filters[j])
    {
      assert filters[i] in filters;
      ghost var flags := container.flags;
      container.Filter(filters[i], i);
      FilterExposes(edges, container.flags, filters[i], i);
      forall j | 0 <= j < i
        ensures Exposed(edges, container.flags, j) == Exposed(edges, flags, j)
      {
        OtherFlagsExpose(edges, flags, container.flags, j);
      }
    }
  }

  /** The nodes of a filtered and then contracted core are allowed by the filter. */
  lemma ContractedStaysAllowed(g: Graph, filter: seq<bool>, uncontracted: seq<bool>, contractable: seq<bool>,
                               g': Graph, core: seq<bool>)
    requires IsContracted(g, uncontracted, contractable, g', core) && g.numNodes == |filter|
    requires forall e :: e in g.edges ==> e.source < |filter| && e.target < |filter| && IsAllowed(filter, e)
    ensures forall e :: e in g'.edges ==> e.source < |filter| && e.target < |filter| && IsAllowed(filter, e)
  {}

  ghost predicate OnlyAllowed(edges: seq<QueryEdge>, filter: seq<bool>) {
    forall e :: e in edges ==> e.source < |filter| && e.target < |filter| && IsAllowed(filter, e)
  }

  lemma CoreContractedIsAllowed(core: Graph, isCore: seq<bool>, filter: seq<bool>, contract: Contraction)
    requires IsContraction(contract) && |filter| == core.numNodes
    ensures OnlyAllowed(CoreContracted(core, isCore, filter, contract), filter)
  {
    var filtered := Graph(core.numNodes, Where(core.edges, filter, true));
    var (g', core') := contract(filtered, isCore, isCore);
    ContractedStaysAllowed(filtered, filter, isCore, isCore, g', core');
  }

  lemma SameEdgesSameKeys(edges: seq<QueryEdge>, edges': seq<QueryEdge>)
    requires multiset(edges) == multiset(edges')
    ensures forall key :: HasKey(edges, key) <==> HasKey(edges', key)
    ensures forall e :: e in edges <==> e in edges'
  {
    assert forall e :: (e in edges <==> e in multiset(edges)) && (e in edges' <==> e in multiset(edges'));
    forall key: Key
      ensures HasKey(edges, key) <==> HasKey(edges', key)
    {
      if HasKey(edges, key) {
        var k :| 0 <= k < |edges| && KeyOf(edges[k]) == key;
        assert edges[k] in edges';
      }
      if HasKey(edges', key) {
        var k :| 0 <= k < |edges'| && KeyOf(edges'[k]) == key;
        assert edges'[k] in edges;
      }
    }
  }

  /** Contracts the part of the core that one filter allows. */
  method ContractFiltered(core: Graph, filter: seq<bool>, isCore: seq<bool>, contract: Contraction)
    returns (edges: seq<QueryEdge>)
    ensures multiset(edges) == multiset(CoreContracted(core, isCore, filter, contract))
  {
    var filtered := Graph(core.numNodes, Where(core.edges, filter, true));
    var (g', core') := contract(filtered, isCore, isCore);
    edges := ToEdges(g');
  }

  /** What the list is to expose for each filter, when the cores of the first `n` have been added. */
  ghost predicate IsExposedFor(edges: seq<QueryEdge>, flags: seq<Flags>, shared: seq<QueryEdge>,
                               own: seq<QueryEdge>, filter: seq<bool>, i: nat, n: nat)
    requires |edges| == |flags| && i < MAX_INDEX
  {
    Exposed(edges, flags, i) == AllowedKeys(shared, filter) + if i < n then Keys(own) else iset{}
  }

  /** Every edge of the list is one of the shared edges or of the own edges of one of the first `n` filters. */
  ghost predicate ComesFrom(edges: seq<QueryEdge>, shared: seq<QueryEdge>, core: Graph, isCore: seq<bool>,
                            filters: seq<seq<bool>>, contract: Contraction, n: nat)
    requires n <= |filters|
  {
    && (forall e :: e in shared ==> e in edges)
    && forall e :: e in edges ==> e in shared || IsOwnOfSome(e, core, isCore, filters, contract, n)
  }

  ghost predicate IsOwnOfSome(e: QueryEdge, core: Graph, isCore: seq<bool>, filters: seq<seq<bool>>,
                              contract: Contraction, n: nat)
    requires n <= |filters|
  {
    exists i :: 0 <= i < n && e in CoreContracted(core, isCore, filters[i], contract)
  }

  lemma ComesFromAfter(edges: seq<QueryEdge>, added: seq<QueryEdge>, edges': seq<QueryEdge>, shared: seq<QueryEdge>,
                       core: Graph, isCore: seq<bool>, filters: seq<seq<bool>>, contract: Contraction, n: nat)
    requires n < |filters| && ComesFrom(edges, shared, core, isCore, filters, contract, n)
    requires multiset(added) == multiset(CoreContracted(core, isCore, filters[n], contract))
    requires forall e :: e in edges ==> e in edges'
    requires forall e :: e in edges' ==> e in edges || e in added
    ensures ComesFrom(edges', shared, core, isCore, filters, contract, n + 1)
  {
    hide CoreContracted;
    SameEdgesSameKeys(added, CoreContracted(core, isCore, filters[n], contract));
    forall e | e in edges' && e !in shared
      ensures IsOwnOfSome(e, core, isCore, filters, contract, n + 1)
    {
      if e in edges {
        var i :| 0 <= i < n && e in CoreContracted(core, isCore, filters[i], contract);
      }
    }
  }

  /** The cores of the first `n` filters have been merged into the list. */
  ghost predicate MergedUpTo(edges: seq<QueryEdge>, flags: seq<Flags>, shared: seq<QueryEdge>, core: Graph,
                             isCore: seq<bool>, filters: seq<seq<bool>>, contract: Contraction, n: nat)
    requires |edges| == |flags| && n <= |filters| <= MAX_INDEX
  {
    && (forall j :: 0 <= j < |filters| ==>
          IsExposedFor(edges, flags, shared, CoreContracted(core, isCore, filters[j], contract), filters[j], j, n))
    && ComesFrom(edges, shared, core, isCore, filters, contract, n)
    && (IsOrderedByEnds(shared) ==> IsOrderedByEnds(edges))
  }

  lemma {:induction false} MergedOneMore(edges: seq<QueryEdge>, flags: seq<Flags>, added: seq<QueryEdge>,
                                         edges': seq<QueryEdge>, flags': seq<Flags>, shared: seq<QueryEdge>,
                                         core: Graph, isCore: seq<bool>, filters: seq<seq<bool>>,
                                         contract: Contraction, n: nat)
    requires |edges| == |flags| && |edges'| == |flags'| && n < |filters| <= MAX_INDEX
    requires MergedUpTo(edges, flags, shared, core, isCore, filters, contract, n) && IsOrderedByEnds(edges')
    requires multiset(added) == multiset(CoreContracted(core, isCore, filters[n], contract))
    requires forall j :: 0 <= j < MAX_INDEX ==>
               Exposed(edges', flags', j) == Exposed(edges, flags, j) + if j == n then Keys(added) else iset{}
    requires forall e :: e in edges ==> e in edges'
    requires forall e :: e in edges' ==> e in edges || e in added
    ensures MergedUpTo(edges', flags', shared, core, isCore, filters, contract, n + 1)
  {
    hide Exposed, AllowedKeys, Keys, IsExposedFor, ComesFrom, CoreContracted, IsOrderedByEnds;
    forall j | 0 <= j < |filters|
      ensures IsExposedFor(edges', flags', shared, CoreContracted(core, isCore, filters[j], contract), filters[j],
                           j, n + 1)
    {
      MergedIsExposed(edges, flags, edges', flags', shared, added, CoreContracted(core, isCore, filters[j], contract),
                      filters[j], j, n);
    }
    ComesFromAfter(edges, added, edges', shared, core, isCore, filters, contract, n);
  }

  lemma {:induction false} NothingMerged(edges: seq<QueryEdge>, flags: seq<Flags>, core: Graph, isCore: seq<bool>,
                                         filters: seq<seq<bool>>, contract: Contraction)
    requires |edges| == |flags| && |filters| <= MAX_INDEX
    requires forall i :: 0 <= i < |filters| ==> Exposed(edges, flags, i) == AllowedKeys(edges, filters[i])
    ensures MergedUpTo(edges, flags, edges, core, isCore, filters, contract, 0)
  {}

  /** Contracts the core for every filter, and merges the results into the list. */
  method MergeFiltered(container: ContractedEdgeContainer, core: Graph, isCore: seq<bool>, filters: seq<seq<bool>>,
                       contract: Contraction)
    requires container.Valid() && container.index == 0 && |filters| <= MAX_INDEX
    requires forall i :: 0 <= i < |filters| ==>
               Exposed(container.edges, container.flags, i) == AllowedKeys(container.edges, filters[i])
    modifies container
    ensures container.Valid() && container.index == |filters|
    ensures old(IsOrderedByEnds(container.edges)) ==> IsOrderedByEnds(container.edges)
    ensures forall i :: 0 <= i < |filters| ==>
              Exposed(container.edges, container.flags, i)
              == AllowedKeys(old(container.edges), filters[i])
                 + Keys(CoreContracted(core, isCore, filters[i], contract))
    ensures ComesFrom(container.edges, old(container.edges), core, isCore, filters, contract, |filters|)
  {
    hide Exposed, AllowedKeys, Keys, IsExposedFor, IsStrict, EdgeContainer.IsSorted, ComesFrom, CoreContracted;
    hide IsOrderedByEnds, MergesCleanly, AreApart, EdgeContainer.AreDistinct, MergedUpTo;
    ghost var shared := container.edges;
    NothingMerged(shared, container.flags, core, isCore, filters, contract);
    for i := 0 to |filters|
      invariant container.Valid() && container.index == i
      invariant MergedUpTo(container.edges, container.flags, shared, core, isCore, filters, contract, i)
    {
      var edges := ContractFiltered(core, filters[i], isCore, contract);
      ghost var flags, list := container.flags, container.edges;
      container.Merge(edges);
      MergedOneMore(list, flags, edges, container.edges, container.flags, shared, core, isCore, filters, contract, i);
    }
    FullyMerged(container.edges, container.flags, shared, core, isCore, filters, contract);
  }

  lemma {:induction false} FullyMerged(edges: seq<QueryEdge>, flags: seq<Flags>, shared: seq<QueryEdge>, core: Graph,
                                       isCore: seq<bool>, filters: seq<seq<bool>>, contract: Contraction)
    requires |edges| == |flags| && |filters| <= MAX_INDEX
    requires MergedUpTo(edges, flags, shared, core, isCore, filters, contract, |filters|)
    ensures IsOrderedByEnds(shared) ==> IsOrderedByEnds(edges)
    ensures ComesFrom(edges, shared, core, isCore, filters, contract, |filters|)
    ensures forall i :: 0 <= i < |filters| ==>
              Exposed(edges, flags, i)
              == AllowedKeys(shared, filters[i]) + Keys(CoreContracted(core, isCore, filters[i], contract))
  {
    hide Exposed, AllowedKeys, Keys, IsExposedFor, ComesFrom, CoreContracted, IsOrderedByEnds;
    forall i | 0 <= i < |filters|
      ensures Exposed(edges, flags, i)
           == AllowedKeys(shared, filters[i]) + Keys(CoreContracted(core, isCore, filters[i], contract))
    {
      FullyExposed(edges, flags, shared, CoreContracted(core, isCore, filters[i], contract), filters[i], i, |filters|);
    }
  }

  lemma FullyExposed(edges: seq<QueryEdge>, flags: seq<Flags>, shared: seq<QueryEdge>, own: seq<QueryEdge>,
                     filter: seq<bool>, i: nat, n: nat)
    requires |edges| == |flags| && i < n <= MAX_INDEX && IsExposedFor(edges, flags, shared, own, filter, i, n)
    ensures Exposed(edges, flags, i) == AllowedKeys(shared, filter) + Keys(own)
  {}

  lemma MergedIsExposed(edges: seq<QueryEdge>, flags: seq<Flags>, edges': seq<QueryEdge>, flags': seq<Flags>,
                        shared: seq<QueryEdge>, added: seq<QueryEdge>, own: seq<QueryEdge>, filter: seq<bool>,
                        j: nat, i: nat)
    requires |edges| == |flags| && |edges'| == |flags'| && i < MAX_INDEX && j < MAX_INDEX
    requires IsExposedFor(edges, flags, shared, own, filter, j, i)
    requires j == i ==> multiset(added) == multiset(own)
    requires Exposed(edges', flags', j) == Exposed(edges, flags, j) + if j == i then Keys(added) else iset{}
    ensures IsExposedFor(edges', flags', shared, own, filter, j, i + 1)
  {
    if j == i {
      SameEdgesSameKeys(added, own);
    }
  }

  /** No edge that is exposed for a filter touches a node that the filter excludes. */
  lemma ExposedIsAllowed(edges: seq<QueryEdge>, flags: seq<Flags>, shared: seq<QueryEdge>, own: seq<QueryEdge>,
                         filter: seq<bool>, i: nat, k: nat)
    requires |edges| == |flags| && i < MAX_INDEX && k < |edges| && Has(flags[k], i) && OnlyAllowed(own, filter)
    requires Exposed(edges, flags, i) == AllowedKeys(shared, filter) + Keys(own)
    ensures edges[k].source < |filter| && edges[k].target < |filter| && IsAllowed(filter, edges[k])
  {
    var key := KeyOf(edges[k]);
    assert ExposesKey(edges, flags, i, key) && key in Exposed(edges, flags, i);
    if key in Keys(own) {
      var m :| 0 <= m < |own| && KeyOf(own[m]) == key;
      assert own[m] in own;
      assert key[0] == own[m].source && key[1] == own[m].target;
    }
    assert key[0] == edges[k].source && key[1] == edges[k].target;
  }

  /** The result for one filter: which edges it is to use. */
  ghost predicate IsEdgeFilter(edges: seq<QueryEdge>, edgeFilter: seq<bool>, filter: seq<bool>) {
    && |edgeFilter| == |edges|
    && forall k :: 0 <= k < |edges| && edgeFilter[k] ==>
         edges[k].source < |filter| && edges[k].target < |filter| && IsAllowed(filter, edges[k])
  }

  /** An edge outside of the core has an end that every filter allows. */
  ghost predicate IsShared(edges: seq<QueryEdge>, filters: seq<seq<bool>>) {
    forall e :: e in edges ==> AllowedByAll(filters, e.source) || AllowedByAll(filters, e.target)
  }

  lemma FirstContractedShares(g: Graph, filters: seq<seq<bool>>, contract: Contraction)
    requires IsContraction(contract) && IsOver(g.edges, g.numNodes)
    ensures var shared := SharedOf(g, filters, contract); IsOver(shared, g.numNodes) && IsShared(shared, filters)
    ensures |FirstContracted(g, filters, contract).1| == g.numNodes
  {
    var allowed := AllowedNodes(filters, g.numNodes);
    var (g', isCore) := contract(g, [], allowed);
    assert IsContracted(g, [], allowed, g', isCore);
    assert FirstContracted(g, filters, contract) == (g', isCore);
    forall e | e in Where(g'.edges, isCore, false)
      ensures e.source < g.numNodes && e.target < g.numNodes
      ensures AllowedByAll(filters, e.source) || AllowedByAll(filters, e.target)
    {
      assert e in g'.edges && !Joins(isCore, e);
      assert !isCore[e.source] ==> allowed[e.source];
      assert !isCore[e.target] ==> allowed[e.target];
    }
  }

  lemma SharedStaysShared(edges: seq<QueryEdge>, shared: seq<QueryEdge>, filters: seq<seq<bool>>, numNodes: nat)
    requires multiset(edges) == multiset(shared) && IsOver(shared, numNodes) && IsShared(shared, filters)
    ensures IsOver(edges, numNodes) && IsShared(edges, filters)
  {
    SameEdgesSameKeys(edges, shared);
  }

  method ContractShared(g: Graph, filters: seq<seq<bool>>, contract: Contraction)
    returns (nonCore: seq<QueryEdge>, core: Graph, isCore: seq<bool>)
    requires IsContraction(contract) && IsOver(g.edges, g.numNodes) && forall f :: f in filters ==> |f| == g.numNodes
    ensures multiset(nonCore) == multiset(SharedOf(g, filters, contract)) && IsShared(nonCore, filters)
    ensures IsOrderedByEnds(nonCore)
    ensures core == CoreOf(g, filters, contract) && isCore == FirstContracted(g, filters, contract).1
    ensures IsOver(nonCore, g.numNodes) && |isCore| == g.numNodes
  {
    var alwaysAllowed := AlwaysAllowed(filters, g.numNodes);
    FirstContractedShares(g, filters, contract);
    hide IsContraction, IsOver, IsShared, AllowedNodes;
    var (g', core') := contract(g, [], alwaysAllowed);
    isCore := core';
    var edges := ToEdges(g');
    nonCore := Where(edges, isCore, false);
    WhereOfSorted(g'.edges, edges, isCore, false);
    WhereIsOrdered(edges, isCore, false);
    SharedStaysShared(nonCore, SharedOf(g, filters, contract), filters, g.numNodes);
    core := Graph(g.numNodes, Where(g'.edges, isCore, true));
  }

  ghost predicate SelectsKey(edges: seq<QueryEdge>, edgeFilter: seq<bool>, key: Key) {
    exists k :: 0 <= k < |edges| && k < |edgeFilter| && edgeFilter[k] && KeyOf(edges[k]) == key
  }

  /** The edges that a filter of the result selects. */
  ghost function Selected(edges: seq<QueryEdge>, edgeFilter: seq<bool>): iset<Key> {
    iset key: Key | SelectsKey(edges, edgeFilter, key)
  }

  lemma SelectedIsExposed(edges: seq<QueryEdge>, flags: seq<Flags>, edgeFilter: seq<bool>, i: nat)
    requires |edges| == |flags| && i < MAX_INDEX && IsFilterOf(edgeFilter, flags, i)
    ensures Selected(edges, edgeFilter) == Exposed(edges, flags, i)
  {
    forall key: Key
      ensures SelectsKey(edges, edgeFilter, key) <==> ExposesKey(edges, flags, i, key)
    {
      if SelectsKey(edges, edgeFilter, key) {
        var k :| 0 <= k < |edges| && k < |edgeFilter| && edgeFilter[k] && KeyOf(edges[k]) == key;
        assert Has(flags[k], i);
      }
      if ExposesKey(edges, flags, i, key) {
        var k :| 0 <= k < |edges| && Has(flags[k], i) && KeyOf(edges[k]) == key;
        assert edgeFilter[k];
      }
    }
  }

  /** What a filter is to select: the shared edges that it allows, and those that are its own. */
  ghost function ToSelect(g: Graph, filters: seq<seq<bool>>, contract: Contraction, i: nat): iset<Key>
    requires i < |filters|
  {
    AllowedKeys(SharedOf(g, filters, contract), filters[i]) + Keys(OwnOf(g, filters, contract, i))
  }

  /** The result selects exactly that for every filter, and nothing that the filter excludes. */
  ghost predicate SelectsExactly(edges: seq<QueryEdge>, edgeFilters: seq<seq<bool>>, g: Graph,
                                 filters: seq<seq<bool>>, contract: Contraction)
  {
    && |edgeFilters| == |filters|
    && forall i :: 0 <= i < |filters| ==>
         && IsEdgeFilter(edges, edgeFilters[i], filters[i])
         && Selected(edges, edgeFilters[i]) == ToSelect(g, filters, contract, i)
  }

  /** The list consists of edges that were contracted, and nothing that is shared gets lost. */
  ghost predicate ConsistsOf(edges: seq<QueryEdge>, g: Graph, filters: seq<seq<bool>>, contract: Contraction) {
    && (forall e :: e in SharedOf(g, filters, contract) ==> e in edges)
    && forall e :: e in edges ==> e in SharedOf(g, filters, contract) || IsOwn(e, g, filters, contract)
  }

  ghost predicate IsOwn(e: QueryEdge, g: Graph, filters: seq<seq<bool>>, contract: Contraction) {
    exists i :: 0 <= i < |filters| && e in OwnOf(g, filters, contract, i)
  }

  method ContractWithFilters(g: Graph, filters: seq<seq<bool>>, contract: Contraction)
    returns (edges: seq<QueryEdge>, edgeFilters: seq<seq<bool>>)
    requires IsContraction(contract) && IsOver(g.edges, g.numNodes)
    requires |filters| <= MAX_INDEX && forall f :: f in filters ==> |f| == g.numNodes
    ensures SelectsExactly(edges, edgeFilters, g, filters, contract) && ConsistsOf(edges, g, filters, contract)
    ensures IsOrderedByEnds(edges)
  {
    var nonCore, core, isCore := ContractShared(g, filters, contract);
    var container := new ContractedEdgeContainer();
    AddShared(container, nonCore, filters, g.numNodes);
    MergeFiltered(container, core, isCore, filters, contract);
    edges := container.edges;
    edgeFilters := container.MakeEdgeFilters();
    ListConsists(edges, nonCore, g, filters, contract);
    forall i | 0 <= i < |filters|
      ensures IsEdgeFilter(edges, edgeFilters[i], filters[i])
      ensures Selected(edges, edgeFilters[i]) == ToSelect(g, filters, contract, i)
    {
      ListSelects(edges, container.flags, nonCore, g, filters, contract, edgeFilters[i], i);
    }
  }

  lemma ListConsists(edges: seq<QueryEdge>, nonCore: seq<QueryEdge>, g: Graph, filters: seq<seq<bool>>,
                     contract: Contraction)
    requires multiset(nonCore) == multiset(SharedOf(g, filters, contract))
    requires ComesFrom(edges, nonCore, CoreOf(g, filters, contract), FirstContracted(g, filters, contract).1,
                       filters, contract, |filters|)
    ensures ConsistsOf(edges, g, filters, contract)
  {
    hide SharedOf, CoreOf, FirstContracted, CoreContracted;
    SameEdgesSameKeys(nonCore, SharedOf(g, filters, contract));
    forall e | e in edges && e !in nonCore
      ensures IsOwn(e, g, filters, contract)
    {
      var i :| 0 <= i < |filters| && e in CoreContracted(CoreOf(g, filters, contract),
                                                        FirstContracted(g, filters, contract).1, filters[i], contract);
      assert e in OwnOf(g, filters, contract, i);
    }
  }

  lemma ListSelects(edges: seq<QueryEdge>, flags: seq<Flags>, nonCore: seq<QueryEdge>, g: Graph,
                    filters: seq<seq<bool>>, contract: Contraction, edgeFilter: seq<bool>, i: nat)
    requires |edges| == |flags| && i < |filters| <= MAX_INDEX && IsFilterOf(edgeFilter, flags, i)
    requires IsContraction(contract) && |filters[i]| == g.numNodes
    requires multiset(nonCore) == multiset(SharedOf(g, filters, contract))
    requires Exposed(edges, flags, i) == AllowedKeys(nonCore, filters[i]) + Keys(OwnOf(g, filters, contract, i))
    ensures IsEdgeFilter(edges, edgeFilter, filters[i])
    ensures Selected(edges, edgeFilter) == ToSelect(g, filters, contract, i)
  {
    var own, isCore := OwnOf(g, filters, contract, i), FirstContracted(g, filters, contract).1;
    CoreContractedIsAllowed(CoreOf(g, filters, contract), isCore, filters[i], contract);
    SelectedIsExposed(edges, flags, edgeFilter, i);
    SelectedIsAllowed(edges, flags, nonCore, own, filters[i], edgeFilter, i);
    SameEdgesSameKeys(nonCore, SharedOf(g, filters, contract));
  }

  lemma SelectedIsAllowed(edges: seq<QueryEdge>, flags: seq<Flags>, shared: seq<QueryEdge>, own: seq<QueryEdge>,
                          filter: seq<bool>, edgeFilter: seq<bool>, i: nat)
    requires |edges| == |flags| && i < MAX_INDEX && IsFilterOf(edgeFilter, flags, i) && OnlyAllowed(own, filter)
    requires Exposed(edges, flags, i) == AllowedKeys(shared, filter) + Keys(own)
    ensures IsEdgeFilter(edges, edgeFilter, filter)
  {
    forall k | 0 <= k < |edges| && edgeFilter[k]
      ensures edges[k].source < |filter| && edges[k].target < |filter| && IsAllowed(filter, edges[k])
    {
      ExposedIsAllowed(edges, flags, shared, own, filter, i, k);
    }
  }

  /** A single filter that allows everything needs no filtering at all. */
  method ContractFullGraph(g: Graph, contract: Contraction) returns (edges: seq<QueryEdge>, edgeFilter: seq<bool>)
    requires IsContraction(contract) && IsOver(g.edges, g.numNodes)
    ensures IsOrderedByEnds(edges)
    ensures IsOver(edges, g.numNodes) && multiset(edges) == multiset(contract(g, [], []).0.edges)
    ensures |edgeFilter| == |edges| && forall k :: 0 <= k < |edges| ==> edgeFilter[k]
  {
    var (g', core) := contract(g, [], []);
    assert IsContracted(g, [], [], g', core);
    edges := ToEdges(g');
    edgeFilter := seq(|edges|, _ => true);
  }

  /** Whether there is nothing to exclude at all. */
  predicate ExcludesNothing(filters: seq<seq<bool>>) {
    |filters| == 1 && forall n :: 0 <= n < |filters[0]| ==> filters[0][n]
  }

  method ContractExcludableGraph(g: Graph, filters: seq<seq<bool>>, contract: Contraction)
    returns (edges: seq<QueryEdge>, edgeFilters: seq<seq<bool>>)
    requires IsContraction(contract) && IsOver(g.edges, g.numNodes)
    requires |filters| <= MAX_INDEX && forall f :: f in filters ==> |f| == g.numNodes
    ensures |edgeFilters| == |filters| && IsOrderedByEnds(edges)
    ensures forall i :: 0 <= i < |filters| ==> IsEdgeFilter(edges, edgeFilters[i], filters[i])
    ensures ExcludesNothing(filters) ==>
              && multiset(edges) == multiset(contract(g, [], []).0.edges)
              && |edgeFilters[0]| == |edges| && forall k :: 0 <= k < |edges| ==> edgeFilters[0][k]
    ensures !ExcludesNothing(filters) ==>
              SelectsExactly(edges, edgeFilters, g, filters, contract) && ConsistsOf(edges, g, filters, contract)
  {
    if |filters| == 1 && forall n :: 0 <= n < |filters[0]| ==> filters[0][n] {
      assert filters[0] in filters;
      var edgeFilter;
      edges, edgeFilter := ContractFullGraph(g, contract);
      edgeFilters := [edgeFilter];
      assert forall k :: 0 <= k < |edges| ==> edges[k] in edges;
    } else {
      edges, edgeFilters := ContractWithFilters(g, filters, contract);
    }
  }
}
