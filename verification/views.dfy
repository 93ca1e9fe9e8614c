/**
 The three derived views the condition compiler queries: the hard-dependency
 closure (dependent -> dependency), the dependent closure (dependency ->
 dependent) and the motivation adjacency. Each view is keyed by `NodeID`.
 The graph library renumbers nodes in its filtered subgraphs and bridges the
 numbering with remap tables; keying by id states the meaning of that
 bridging, namely that both filtered subgraphs hold every node of the
 supercluster and agree on which index denotes which node.
 */
module DependencyViews {
  import opened Supercluster
  import opened Reachability

  /** Steps from a dependency to a node that hard-depends on it: the `All` edges as drawn. */
  function DependencyToDependent(g: Graph): set<(NodeID, NodeID)> {
    EdgeRelation(g, All)
  }

  /** Steps from a dependent to one of its hard dependencies: the `All` edges turned around. */
  function DependentToDependency(g: Graph): set<(NodeID, NodeID)> {
    Reverse(EdgeRelation(g, All))
  }

  /** `m` must be completed before `n`: a chain of one or more `All` edges runs from `m` to `n`. */
  ghost predicate HardDependency(g: Graph, m: NodeID, n: NodeID) {
    Reaches(EdgeRelation(g, All), m, n)
  }

  /** `d` is `n` itself or is transitively unlocked by `n` through `All` edges. */
  ghost predicate Downstream(g: Graph, n: NodeID, d: NodeID) {
    d == n || Reaches(EdgeRelation(g, All), n, d)
  }

  /** An `AtLeastOne` edge runs from `m` to `t`: completing `m` can motivate `t`. */
  ghost predicate Motivates(g: Graph, m: NodeID, t: NodeID) {
    (m, t) in EdgeRelation(g, AtLeastOne)
  }

  /** The derived views, each a map from a node id to a set of node ids. */
  datatype Views = Views(
    hardDependencies: map<NodeID, set<NodeID>>,
    dependents: map<NodeID, set<NodeID>>,
    motivations: map<NodeID, set<NodeID>>)

  /** The view that gives each node of `nodes` the set `f` assigns its id,
      built one node at a time. */
  function PerNode(nodes: seq<Node>, f: NodeID -> set<NodeID>): (view: map<NodeID, set<NodeID>>)
    ensures view.Keys == IdsOf(nodes)
    ensures forall n {:trigger view[n]} :: n in view ==> view[n] == f(n)
    decreases |nodes|
  {
    if nodes == [] then map[]
    else
      var last := nodes[|nodes| - 1];
      assert IdsOf(nodes) == IdsOf(nodes[..|nodes| - 1]) + {last.id};
      PerNode(nodes[..|nodes| - 1], f)[last.id := f(last.id)]
  }

  /** The transitive closure of `rel` for every node of `g`: the neighbours of
      each node in the closure graph. */
  function ClosureView(g: Graph, rel: set<(NodeID, NodeID)>): (view: map<NodeID, set<NodeID>>)
    ensures view.Keys == NodeIds(g)
    ensures forall n {:trigger view[n]} :: n in view ==> view[n] == ReachFrom(rel, n)
  {
    PerNode(g.nodes, (n: NodeID) => ReachFrom(rel, n))
  }

  /** The direct `AtLeastOne` successors of every node of `g`. */
  function MotivationView(g: Graph): (view: map<NodeID, set<NodeID>>)
    ensures view.Keys == NodeIds(g)
    ensures forall n {:trigger view[n]} :: n in view ==> view[n] == Image(EdgeRelation(g, AtLeastOne), {n})
  {
    PerNode(g.nodes, (n: NodeID) => Image(EdgeRelation(g, AtLeastOne), {n}))
  }

  /** The views for `g`, with every node of `g` present in each of them. */
  function BuildViews(g: Graph): (v: Views)
    ensures v.hardDependencies.Keys == NodeIds(g)
    ensures v.dependents.Keys == NodeIds(g)
    ensures v.motivations.Keys == NodeIds(g)
  {
    Views(
      ClosureView(g, DependentToDependency(g)),
      ClosureView(g, DependencyToDependent(g)),
      MotivationView(g))
  }

  /** Both ends of a related pair are nodes of `g`. */
  lemma RelatedAreNodes(g: Graph, kind: EdgeType, a: NodeID, b: NodeID)
    requires (a, b) in EdgeRelation(g, kind)
    ensures a in NodeIds(g) && b in NodeIds(g)
  {
    EdgeRelationExact(g, kind, a, b);
    var e :| e in g.edges && Connects(g, e, kind, a, b);
    assert g.nodes[e.source] in g.nodes && g.nodes[e.target] in g.nodes;
  }

  /** The hard-dependency view of `n` holds exactly its transitive `All` predecessors. */
  lemma HardDependenciesExact(g: Graph, n: NodeID, m: NodeID)
    requires n in NodeIds(g)
    ensures m in BuildViews(g).hardDependencies[n] <==> HardDependency(g, m, n)
  {
    var rel := EdgeRelation(g, All);
    assert BuildViews(g).hardDependencies[n] == ReachFrom(Reverse(rel), n);
    ReachFromExact(Reverse(rel), n, m);
    ReachesReverse(rel, n, m);
  }

  /** A node's hard prerequisites are the closure of the dependent-to-dependency relation from it. */
  lemma HardDependencyByClosure(g: Graph, n: NodeID, m: NodeID)
    ensures HardDependency(g, m, n) <==> m in ReachFrom(DependentToDependency(g), n)
  {
    ReachFromExact(DependentToDependency(g), n, m);
    ReachesReverse(EdgeRelation(g, All), n, m);
  }

  /** The dependent view of `n` holds exactly its transitive `All` successors. */
  lemma DependentsExact(g: Graph, n: NodeID, d: NodeID)
    requires n in NodeIds(g)
    ensures d in BuildViews(g).dependents[n] <==> Reaches(EdgeRelation(g, All), n, d)
  {
    var rel := EdgeRelation(g, All);
    assert BuildViews(g).dependents[n] == ReachFrom(rel, n);
    ReachFromExact(rel, n, d);
  }

  /** The motivation view of `m` is the one-step image of `m`. */
  lemma MotivationViewIsImage(g: Graph, m: NodeID)
    requires m in NodeIds(g)
    ensures BuildViews(g).motivations[m] == Image(EdgeRelation(g, AtLeastOne), {m})
  {
  }

  /** The motivation view of `m` holds exactly the nodes `m` motivates directly. */
  lemma MotivationsExact(g: Graph, m: NodeID, t: NodeID)
    requires m in NodeIds(g)
    ensures t in BuildViews(g).motivations[m] <==> Motivates(g, m, t)
  {
    MotivationViewIsImage(g, m);
    ImageOfOne(EdgeRelation(g, AtLeastOne), m, t);
  }
}
