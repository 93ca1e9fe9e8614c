/**
 Worked examples of the condition compiler on small superclusters: a linear
 chain, a node reached only through a motivator, and a diamond whose far
 corner needs the full transitive closure. The node ids are parameters, so
 each example holds for any distinct ids.
 */
module ConditionScenarios {
  import opened Wrappers
  import opened Supercluster
  import opened Reachability
  import opened DependencyViews
  import opened UnlockingConditions
  import opened GraphYaml

  /** A map with keys `a` and `b` is determined by its two values. */
  lemma TwoEntries(cm: ConditionMap, a: NodeID, b: NodeID, va: Option<UnlockingCondition>, vb: Option<UnlockingCondition>)
    requires a != b
    requires cm.Keys == {a, b} && cm[a] == va && cm[b] == vb
    ensures cm == map[a := va, b := vb]
  {
    assert cm.Keys == map[a := va, b := vb].Keys;
  }

  // ---------------------------------------------------------------------
  // Linear chain

  /** a -> b (All); a is the root. */
  function Chain(a: NodeID, b: NodeID): RootedSupercluster {
    RootedSupercluster(Graph([Node(a, "a"), Node(b, "b")], [Edge(0, 1, All)]), [a])
  }

  /** The relations of the chain. */
  lemma ChainRelation(a: NodeID, b: NodeID)
    ensures EdgeRelation(Chain(a, b).graph, All) == {(a, b)}
    ensures EdgeRelation(Chain(a, b).graph, AtLeastOne) == {}
  {
  }

  /** The chain's nodes are a and b. */
  lemma ChainIds(a: NodeID, b: NodeID)
    ensures NodeIds(Chain(a, b).graph) == {a, b}
  {
    var g := Chain(a, b).graph;
    assert g.nodes[0].id == a && g.nodes[1].id == b;
  }

  /** In the chain, a is the one hard prerequisite of b. */
  lemma ChainHard(a: NodeID, b: NodeID, m: NodeID)
    requires a != b
    ensures HardDependency(Chain(a, b).graph, m, b) <==> m == a
  {
    var rel := EdgeRelation(Chain(a, b).graph, All);
    ChainRelation(a, b);
    assert Reverse(rel) == {(b, a)};
    ImageOfOne(Reverse(rel), b, a);
    assert Image(Reverse(rel), {b}) == {a};
    assert Image(Reverse(rel), {a}) == {};
    ReachFromDirect(Reverse(rel), b, {a});
    ReachFromExact(Reverse(rel), b, m);
    ReachesReverse(rel, b, m);
  }

  /** The chain has no `AtLeastOne` edges. */
  lemma ChainNoMotivation(a: NodeID, b: NodeID, m: NodeID, t: NodeID)
    ensures !Motivates(Chain(a, b).graph, m, t)
  {
    ChainRelation(a, b);
  }

  /** b needs exactly a in the chain, with no motivators. */
  lemma ChainDependent(a: NodeID, b: NodeID)
    requires a != b
    ensures b in NodeIds(Chain(a, b).graph)
    ensures ConditionOf(Chain(a, b), b) == Some(UnlockingCondition({a}, {}))
  {
    var g := Chain(a, b).graph;
    ChainIds(a, b);
    forall m
      ensures m in {a} <==> HardDependency(g, m, b)
    {
      ChainHard(a, b, m);
    }
    var none: set<NodeID> := {};
    forall m
      ensures m in none <==> exists t :: Motivates(g, m, t) && Downstream(g, b, t)
    {
      forall t
        ensures !Motivates(g, m, t)
      {
        ChainNoMotivation(a, b, m, t);
      }
    }
    ConditionIs(Chain(a, b), b, {a}, {});
  }

  /** The whole condition map of the chain: a is always unlocked and b needs
      exactly a, with no motivators. */
  lemma ChainConditions(a: NodeID, b: NodeID)
    requires a != b
    ensures Compile(Chain(a, b)) == Success(map[a := None, b := Some(UnlockingCondition({a}, {}))])
  {
    var sc := Chain(a, b);
    CompileTotal(sc);
    ChainIds(a, b);
    ChainDependent(a, b);
    var cm := Compile(sc).value;
    assert cm[a] == ConditionOf(sc, a) == None;
    assert cm[b] == ConditionOf(sc, b);
    TwoEntries(cm, a, b, None, Some(UnlockingCondition({a}, {})));
  }

  // ---------------------------------------------------------------------
  // Mixed edge types

  /** a -> b (All), a -> c (AtLeastOne); a is the root. */
  function Mixed(a: NodeID, b: NodeID, c: NodeID): RootedSupercluster {
    RootedSupercluster(
      Graph([Node(a, "a"), Node(b, "b"), Node(c, "c")], [Edge(0, 1, All), Edge(0, 2, AtLeastOne)]),
      [a])
  }

  /** The relations of the mixed example. */
  lemma MixedRelation(a: NodeID, b: NodeID, c: NodeID)
    ensures EdgeRelation(Mixed(a, b, c).graph, All) == {(a, b)}
    ensures EdgeRelation(Mixed(a, b, c).graph, AtLeastOne) == {(a, c)}
  {
  }

  /** c has no hard prerequisite in the mixed example. */
  lemma MixedHard(a: NodeID, b: NodeID, c: NodeID, m: NodeID)
    requires a != b && a != c && b != c
    ensures !HardDependency(Mixed(a, b, c).graph, m, c)
  {
    var rel := EdgeRelation(Mixed(a, b, c).graph, All);
    MixedRelation(a, b, c);
    assert Reverse(rel) == {(b, a)};
    assert Image(Reverse(rel), {c}) == {};
    ReachFromDirect(Reverse(rel), c, {});
    ReachFromExact(Reverse(rel), c, m);
    ReachesReverse(rel, c, m);
  }

  /** The only motivation in the mixed example is a motivating c. */
  lemma MixedMotivation(a: NodeID, b: NodeID, c: NodeID, m: NodeID, t: NodeID)
    ensures Motivates(Mixed(a, b, c).graph, m, t) <==> m == a && t == c
  {
    MixedRelation(a, b, c);
  }

  /** Only c itself is downstream of c in the mixed example. */
  lemma MixedDownstream(a: NodeID, b: NodeID, c: NodeID, t: NodeID)
    requires a != b && a != c && b != c
    ensures Downstream(Mixed(a, b, c).graph, c, t) <==> t == c
  {
    var g := Mixed(a, b, c).graph;
    MixedRelation(a, b, c);
    var rel := EdgeRelation(g, All);
    assert Image(rel, {c}) == {};
    ReachFromDirect(rel, c, {});
    ReachFromExact(rel, c, t);
  }

  /** In the mixed example c is reached only through its motivator: it needs
      nothing and is unlocked by completing a. */
  lemma MixedMotivatedNode(a: NodeID, b: NodeID, c: NodeID)
    requires a != b && a != c && b != c
    ensures c in NodeIds(Mixed(a, b, c).graph)
    ensures ConditionOf(Mixed(a, b, c), c) == Some(UnlockingCondition({}, {a}))
  {
    var g := Mixed(a, b, c).graph;
    assert g.nodes[2].id == c;
    var none: set<NodeID> := {};
    forall m
      ensures m in none <==> HardDependency(g, m, c)
    {
      MixedHard(a, b, c, m);
    }
    var only := {a};
    forall m
      ensures m in only <==> exists t :: Motivates(g, m, t) && Downstream(g, c, t)
    {
      forall t
        ensures Motivates(g, m, t) && Downstream(g, c, t) <==> m == a && t == c
      {
        MixedMotivation(a, b, c, m, t);
        MixedDownstream(a, b, c, t);
      }
      if m == a {
        assert Motivates(g, a, c) && Downstream(g, c, c);
      }
    }
    ConditionIs(Mixed(a, b, c), c, none, only);
  }

  // ---------------------------------------------------------------------
  // Diamond

  /** The ids are pairwise distinct. */
  predicate Distinct4(a: NodeID, b: NodeID, c: NodeID, d: NodeID) {
    a != b && a != c && a != d && b != c && b != d && c != d
  }

  /** a -> b (All) -> d (All), a -> c (All) -> d (All); a is the root. */
  function Diamond(a: NodeID, b: NodeID, c: NodeID, d: NodeID): RootedSupercluster {
    RootedSupercluster(
      Graph([Node(a, "a"), Node(b, "b"), Node(c, "c"), Node(d, "d")],
            [Edge(0, 1, All), Edge(1, 3, All), Edge(0, 2, All), Edge(2, 3, All)]),
      [a])
  }

  /** The relations of the diamond. */
  lemma DiamondRelation(a: NodeID, b: NodeID, c: NodeID, d: NodeID)
    ensures EdgeRelation(Diamond(a, b, c, d).graph, All) == {(a, b), (b, d), (a, c), (c, d)}
    ensures EdgeRelation(Diamond(a, b, c, d).graph, AtLeastOne) == {}
  {
  }

  /** The `All` relation of the diamond, turned around. */
  lemma DiamondReversed(a: NodeID, b: NodeID, c: NodeID, d: NodeID)
    ensures Reverse(EdgeRelation(Diamond(a, b, c, d).graph, All)) == {(b, a), (d, b), (c, a), (d, c)}
  {
    DiamondRelation(a, b, c, d);
  }

  /** Walking the reversed diamond edges from d reaches a, b and c and nothing
      else: a is two steps away. */
  lemma DiamondReverseClosure(a: NodeID, b: NodeID, c: NodeID, d: NodeID, rel: set<(NodeID, NodeID)>)
    requires Distinct4(a, b, c, d)
    requires rel == {(b, a), (d, b), (c, a), (d, c)}
    ensures ReachFrom(rel, d) == {a, b, c}
  {
    var hard := ReachFrom(rel, d);
    forall y | y in Image(rel, {d})
      ensures y in {a, b, c}
    {
      ImageOfOne(rel, d, y);
    }
    forall y | y in Image(rel, {a, b, c})
      ensures y in {a, b, c}
    {
      var x :| x in {a, b, c} && (x, y) in rel;
    }
    ReachFromLeast(rel, d, {a, b, c});
    ImageOfOne(rel, d, b);
    ImageOfOne(rel, d, c);
    assert b in hard && c in hard;
    assert a in Image(rel, hard);
  }

  /** The closure of d in the diamond's dependent-to-dependency relation. */
  lemma DiamondClosureOfD(a: NodeID, b: NodeID, c: NodeID, d: NodeID)
    requires Distinct4(a, b, c, d)
    ensures ReachFrom(Reverse(EdgeRelation(Diamond(a, b, c, d).graph, All)), d) == {a, b, c}
  {
    DiamondReversed(a, b, c, d);
    DiamondReverseClosure(a, b, c, d, Reverse(EdgeRelation(Diamond(a, b, c, d).graph, All)));
  }

  /** The diamond has no `AtLeastOne` edges, so nothing motivates anything. */
  lemma DiamondNoMotivation(a: NodeID, b: NodeID, c: NodeID, d: NodeID, m: NodeID, t: NodeID)
    ensures !Motivates(Diamond(a, b, c, d).graph, m, t)
  {
    DiamondRelation(a, b, c, d);
  }

  /** d is a node of the diamond and not its root. */
  lemma DiamondSink(a: NodeID, b: NodeID, c: NodeID, d: NodeID)
    requires Distinct4(a, b, c, d)
    ensures d in NodeIds(Diamond(a, b, c, d).graph) && d !in Diamond(a, b, c, d).roots
  {
    assert Diamond(a, b, c, d).graph.nodes[3].id == d;
  }

  /** In the diamond, d's hard prerequisites are a, b and c: the full
      transitive closure, not only the direct predecessors b and c. d has no
      motivators. */
  lemma DiamondClosure(a: NodeID, b: NodeID, c: NodeID, d: NodeID)
    requires Distinct4(a, b, c, d)
    ensures d in NodeIds(Diamond(a, b, c, d).graph)
    ensures ConditionOf(Diamond(a, b, c, d), d) == Some(UnlockingCondition({a, b, c}, {}))
  {
    DiamondSink(a, b, c, d);
    DiamondClosureOfD(a, b, c, d);
    DiamondRelation(a, b, c, d);
    UnmotivatedCondition(Diamond(a, b, c, d), d, {a, b, c});
  }

  // ---------------------------------------------------------------------
  // The YAML dump of the chain: an `all_type_edges` block, no
  // `any_type_edges` block and a roots block

  /** The edge lists of the chain with ids "a" and "b". */
  lemma ChainEdgeLists()
    ensures EdgeList(Chain(NodeID("a"), NodeID("b")).graph, All) == [(NodeID("a"), NodeID("b"))]
    ensures EdgeList(Chain(NodeID("a"), NodeID("b")).graph, AtLeastOne) == []
  {
  }

  /** The lines of the chain's dump. */
  lemma ChainLines()
    ensures Lines(Chain(NodeID("a"), NodeID("b"))) ==
      [NodesHeader, IdLine(NodeID("a")), TitleLine("a"), IdLine(NodeID("b")), TitleLine("b"),
       SectionHeader(AllTypeEdges), StartLine(NodeID("a")), EndLine(NodeID("b")),
       SectionHeader(RootsSection), RootLine(NodeID("a"))]
  {
    ChainEdgeLists();
  }
}
