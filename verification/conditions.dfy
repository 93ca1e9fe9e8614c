/**
 The unlocking-condition compiler: for every node of a rooted supercluster it
 records `None` when the node is a root and otherwise the pair of its hard
 prerequisites (`allOf`, all required) and its admissible motivators
 (`oneOf`, at least one required).
 */
module UnlockingConditions {
  import opened Wrappers
  import opened Supercluster
  import opened Reachability
  import opened DependencyViews

  /** The gate of a non-root node. */
  datatype UnlockingCondition = UnlockingCondition(allOf: set<NodeID>, oneOf: set<NodeID>)

  /** Node id to condition; roots map to `None`. */
  type ConditionMap = map<NodeID, Option<UnlockingCondition>>

  /** The one way compilation can abort: a node the dependency subgraph does not hold. */
  datatype CompileError = NodeMissingFromSubgraph(id: NodeID)

  /** `id` together with everything the dependent view says it unlocks. */
  function DependentSet(views: Views, id: NodeID): (ds: set<NodeID>)
    requires id in views.dependents
    ensures id in ds && views.dependents[id] <= ds
    ensures forall d :: d in ds ==> d == id || d in views.dependents[id]
  {
    views.dependents[id] + {id}
  }

  /** The motivators some of whose motivated nodes lie in `targets`. */
  function Motivators(motivations: map<NodeID, set<NodeID>>, targets: set<NodeID>): (ms: set<NodeID>)
    ensures ms <= motivations.Keys
    ensures forall m :: m in ms <==> m in motivations && exists t :: t in motivations[m] && t in targets
  {
    set m | m in motivations && !(motivations[m] !! targets)
  }

  /** The condition of the non-root node `id`, or the failed subgraph lookup. */
  function ConditionFor(views: Views, id: NodeID): (r: Result<UnlockingCondition, CompileError>)
    ensures r.Failure? <==> id !in views.dependents || id !in views.hardDependencies
    ensures r.Failure? ==> r.error == NodeMissingFromSubgraph(id)
    ensures r.Success? ==> r.value.allOf == views.hardDependencies[id]
  {
    if id !in views.dependents || id !in views.hardDependencies then
      Failure(NodeMissingFromSubgraph(id))
    else
      Success(UnlockingCondition(
        views.hardDependencies[id],
        Motivators(views.motivations, DependentSet(views, id))))
  }

  /** Visits `nodes` in order and inserts each node's entry, the later of two
      equal ids overwriting the earlier; aborts at the first non-root node the
      views do not hold. */
  function CompileNodes(nodes: seq<Node>, roots: seq<NodeID>, views: Views): (r: Result<ConditionMap, CompileError>)
    ensures r.Success? <==> forall i :: 0 <= i < |nodes| && nodes[i].id !in roots ==> ConditionFor(views, nodes[i].id).Success?
    ensures r.Failure? ==> exists i :: 0 <= i < |nodes| && nodes[i].id !in roots && r.error == NodeMissingFromSubgraph(nodes[i].id)
    ensures r.Success? ==> r.value.Keys == IdsOf(nodes)
    ensures r.Success? ==> forall id :: id in r.value && id in roots ==> r.value[id] == None
    ensures r.Success? ==> forall id :: id in r.value && id !in roots ==> r.value[id] == Some(ConditionFor(views, id).value)
    decreases |nodes|
  {
    if |nodes| == 0 then Success(map[])
    else
      var last := nodes[|nodes| - 1];
      assert IdsOf(nodes) == IdsOf(nodes[..|nodes| - 1]) + {last.id};
      match CompileNodes(nodes[..|nodes| - 1], roots, views)
      case Failure(e) => Failure(e)
      case Success(m) =>
        if last.id in roots then Success(m[last.id := None])
        else
          match ConditionFor(views, last.id)
          case Failure(e) => Failure(e)
          case Success(c) => Success(m[last.id := Some(c)])
  }

  /** The condition map of a rooted supercluster: when it is produced, it has
      one entry per node of the graph, `None` exactly for the roots. */
  function Compile(sc: RootedSupercluster): (r: Result<ConditionMap, CompileError>)
    ensures r.Success? ==> r.value.Keys == NodeIds(sc.graph)
    ensures r.Success? ==> forall n :: n in r.value ==> (r.value[n].None? <==> n in sc.roots)
  {
    CompileNodes(sc.graph.nodes, sc.roots, BuildViews(sc.graph))
  }

  /** The entry recorded for node `n` of `sc`. */
  function ConditionOf(sc: RootedSupercluster, n: NodeID): Option<UnlockingCondition>
    requires n in NodeIds(sc.graph)
  {
    if n in sc.roots then None else Some(ConditionFor(BuildViews(sc.graph), n).value)
  }

  /** Compilation of a supercluster never aborts and gives every node of the
      graph exactly one entry and no other key. */
  lemma CompileSucceeds(sc: RootedSupercluster)
    ensures Compile(sc).Success?
    ensures Compile(sc).value.Keys == NodeIds(sc.graph)
  {
    var views := BuildViews(sc.graph);
    var nodes := sc.graph.nodes;
    forall i | 0 <= i < |nodes| && nodes[i].id !in sc.roots
      ensures ConditionFor(views, nodes[i].id).Success?
    {
      assert nodes[i].id in NodeIds(sc.graph);
    }
  }

  /** Every entry of the compiled map is the node's condition: `None` exactly
      for the roots, and a condition for every other node. */
  lemma CompileTotal(sc: RootedSupercluster)
    ensures Compile(sc).Success?
    ensures Compile(sc).value.Keys == NodeIds(sc.graph)
    ensures forall n :: n in Compile(sc).value ==> Compile(sc).value[n] == ConditionOf(sc, n)
    ensures forall n :: n in Compile(sc).value ==> (Compile(sc).value[n].None? <==> n in sc.roots)
  {
    CompileSucceeds(sc);
  }

  /** The `allOf` set of a non-root node is exactly the set of its transitive
      hard prerequisites, not only its direct ones. */
  lemma AllOfExact(sc: RootedSupercluster, n: NodeID, m: NodeID)
    requires n in NodeIds(sc.graph) && n !in sc.roots
    ensures ConditionOf(sc, n).Some?
    ensures m in ConditionOf(sc, n).value.allOf <==> HardDependency(sc.graph, m, n)
  {
    HardDependenciesExact(sc.graph, n, m);
  }

  /** The dependent set of `n` is `n` itself and everything downstream of it. */
  lemma DependentSetExact(g: Graph, n: NodeID, d: NodeID)
    requires n in NodeIds(g)
    ensures d in DependentSet(BuildViews(g), n) <==> Downstream(g, n, d)
  {
    DependentsExact(g, n, d);
  }

  /** `m` is an admissible motivator of the non-root node `n` exactly when `m`
      directly motivates `n` or something downstream of `n`. */
  lemma OneOfExact(sc: RootedSupercluster, n: NodeID, m: NodeID)
    requires n in NodeIds(sc.graph) && n !in sc.roots
    ensures ConditionOf(sc, n).Some?
    ensures m in ConditionOf(sc, n).value.oneOf <==> exists t :: Motivates(sc.graph, m, t) && Downstream(sc.graph, n, t)
  {
    var g := sc.graph;
    var views := BuildViews(g);
    var c := ConditionOf(sc, n).value;
    if m in c.oneOf {
      var t :| t in views.motivations[m] && (t == n || t in views.dependents[n]);
      MotivationsExact(g, m, t);
      DependentSetExact(g, n, t);
    }
    if exists t :: Motivates(g, m, t) && Downstream(g, n, t) {
      var t :| Motivates(g, m, t) && Downstream(g, n, t);
      RelatedAreNodes(g, AtLeastOne, m, t);
      MotivationsExact(g, m, t);
      DependentSetExact(g, n, t);
      assert t in views.motivations[m] && (t == n || t in views.dependents[n]);
    }
  }

  /** The `allOf` set of a non-root node equals any set holding exactly its
      transitive hard prerequisites. */
  lemma AllOfIs(sc: RootedSupercluster, n: NodeID, allOf: set<NodeID>)
    requires n in NodeIds(sc.graph) && n !in sc.roots
    requires forall m :: m in allOf <==> HardDependency(sc.graph, m, n)
    ensures ConditionOf(sc, n).Some? && ConditionOf(sc, n).value.allOf == allOf
  {
    var c := ConditionOf(sc, n).value;
    forall m
      ensures m in c.allOf <==> m in allOf
    {
      AllOfExact(sc, n, m);
    }
    SameMembers(c.allOf, allOf);
  }

  /** The `oneOf` set of a non-root node equals any set holding exactly its
      admissible motivators. */
  lemma OneOfIs(sc: RootedSupercluster, n: NodeID, oneOf: set<NodeID>)
    requires n in NodeIds(sc.graph) && n !in sc.roots
    requires forall m :: m in oneOf <==> exists t :: Motivates(sc.graph, m, t) && Downstream(sc.graph, n, t)
    ensures ConditionOf(sc, n).Some? && ConditionOf(sc, n).value.oneOf == oneOf
  {
    var c := ConditionOf(sc, n).value;
    forall m
      ensures m in c.oneOf <==> m in oneOf
    {
      OneOfExact(sc, n, m);
    }
    SameMembers(c.oneOf, oneOf);
  }

  /** The entry of a non-root node is the pair of its transitive hard
      prerequisites and its admissible motivators, whatever sets denote them. */
  lemma ConditionIs(sc: RootedSupercluster, n: NodeID, allOf: set<NodeID>, oneOf: set<NodeID>)
    requires n in NodeIds(sc.graph) && n !in sc.roots
    requires forall m :: m in allOf <==> HardDependency(sc.graph, m, n)
    requires forall m :: m in oneOf <==> exists t :: Motivates(sc.graph, m, t) && Downstream(sc.graph, n, t)
    ensures ConditionOf(sc, n) == Some(UnlockingCondition(allOf, oneOf))
  {
    AllOfIs(sc, n, allOf);
    OneOfIs(sc, n, oneOf);
  }

  /** On a graph without `AtLeastOne` edges a node's condition is its
      reverse `All` closure and an empty one-of set. */
  lemma UnmotivatedCondition(sc: RootedSupercluster, n: NodeID, allOf: set<NodeID>)
    requires n in NodeIds(sc.graph) && n !in sc.roots
    requires ReachFrom(DependentToDependency(sc.graph), n) == allOf
    requires EdgeRelation(sc.graph, AtLeastOne) == {}
    ensures ConditionOf(sc, n) == Some(UnlockingCondition(allOf, {}))
  {
    forall m
      ensures m in allOf <==> HardDependency(sc.graph, m, n)
    {
      HardDependencyByClosure(sc.graph, n, m);
    }
    var none: set<NodeID> := {};
    forall m
      ensures m in none <==> exists t :: Motivates(sc.graph, m, t) && Downstream(sc.graph, n, t)
    {
    }
    ConditionIs(sc, n, allOf, none);
  }

  /** A node without outgoing `AtLeastOne` edges is nobody's motivator. */
  lemma NonMotivatorNeverInOneOf(sc: RootedSupercluster, n: NodeID, m: NodeID)
    requires n in NodeIds(sc.graph) && n !in sc.roots
    requires forall t :: !Motivates(sc.graph, m, t)
    ensures ConditionOf(sc, n).Some? && m !in ConditionOf(sc, n).value.oneOf
  {
    OneOfExact(sc, n, m);
  }

  /** On an acyclic `All` subgraph no node is its own hard prerequisite. */
  lemma NotOwnHardDependency(sc: RootedSupercluster, n: NodeID)
    requires n in NodeIds(sc.graph) && n !in sc.roots
    requires !Reaches(EdgeRelation(sc.graph, All), n, n)
    ensures ConditionOf(sc, n).Some? && n !in ConditionOf(sc, n).value.allOf
  {
    AllOfExact(sc, n, n);
  }
}
