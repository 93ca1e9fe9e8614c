/**
 The rooted supercluster graph: nodes are learning units identified by a
 `NodeID`, edges are typed prerequisite relations between node indices, and
 the roots are the nodes that are always unlocked.
 */
module Supercluster {

  /** An opaque node identifier; two nodes are the same unit iff their ids are equal. */
  datatype NodeID = NodeID(key: string)

  /** A node weight: its identity and a display-only title. */
  datatype Node = Node(id: NodeID, title: string)

  /** `All` is a hard (AND) prerequisite, `AtLeastOne` a soft (OR) motivator. */
  datatype EdgeType = All | AtLeastOne

  /** A directed edge between two node indices, labelled with its type.
      An `All` edge `a -> b` means that `b` depends on `a`;
      an `AtLeastOne` edge `a -> b` means that `a` motivates `b`. */
  datatype Edge = Edge(source: nat, target: nat, kind: EdgeType)

  /** An index-based directed multigraph, as the graph library stores it. */
  datatype Graph = Graph(nodes: seq<Node>, edges: seq<Edge>)

  /** The input of one invocation: the graph and its roots, listed in the
      iteration order of the roots' hash set. */
  datatype RootedSupercluster = RootedSupercluster(graph: Graph, roots: seq<NodeID>)

  /** Both endpoints of `e` are nodes of `g`. */
  predicate ValidEdge(g: Graph, e: Edge) {
    e.source < |g.nodes| && e.target < |g.nodes|
  }

  /** The ids carried by a sequence of nodes. */
  function IdsOf(nodes: seq<Node>): (ids: set<NodeID>)
    ensures forall i :: 0 <= i < |nodes| ==> nodes[i].id in ids
    ensures forall id :: id in ids ==> exists i :: 0 <= i < |nodes| && nodes[i].id == id
  {
    set n | n in nodes :: n.id
  }

  /** Two sets of ids with the same members are equal. */
  lemma SameMembers(s1: set<NodeID>, s2: set<NodeID>)
    requires forall m :: m in s1 <==> m in s2
    ensures s1 == s2
  {
  }

  /** The ids of all nodes of `g`. */
  function NodeIds(g: Graph): set<NodeID> {
    IdsOf(g.nodes)
  }

  /** Edge `e` of `g` has type `kind` and runs from the node with id `a` to the node with id `b`. */
  predicate Connects(g: Graph, e: Edge, kind: EdgeType, a: NodeID, b: NodeID) {
    ValidEdge(g, e) && e.kind == kind && g.nodes[e.source].id == a && g.nodes[e.target].id == b
  }

  /** The id-level relation formed by the `kind` edges of `g`. */
  function EdgeRelation(g: Graph, kind: EdgeType): set<(NodeID, NodeID)> {
    set e | e in g.edges && e.kind == kind && ValidEdge(g, e) :: (g.nodes[e.source].id, g.nodes[e.target].id)
  }

  /** A pair is in the `kind` relation iff some `kind` edge of `g` connects it. */
  lemma EdgeRelationExact(g: Graph, kind: EdgeType, a: NodeID, b: NodeID)
    ensures (a, b) in EdgeRelation(g, kind) <==> exists e :: e in g.edges && Connects(g, e, kind, a, b)
  {
  }

  /** The structural invariants of a rooted supercluster: every edge endpoint
      and every root is a node, node ids are unique, and the roots (a set) are
      listed without repetition. */
  predicate WellFormed(sc: RootedSupercluster) {
    && (forall e :: e in sc.graph.edges ==> ValidEdge(sc.graph, e))
    && (forall i, j :: 0 <= i < j < |sc.graph.nodes| ==> sc.graph.nodes[i].id != sc.graph.nodes[j].id)
    && (forall r :: r in sc.roots ==> r in NodeIds(sc.graph))
    && (forall i, j :: 0 <= i < j < |sc.roots| ==> sc.roots[i] != sc.roots[j])
  }
}
