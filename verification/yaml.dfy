/**
 The YAML dump of the whole graph that goes into the archive as
 `serialized_complete_graph.yaml`. The document is a `nodes` block, followed
 by an `all_type_edges`, an `any_type_edges` and a `roots` block that are each
 present only when non-empty. The document is modelled as a sequence of
 structured lines, rendered to text with the id's display function `show`;
 a parser for the line structure recovers everything the dump records.
 */
module GraphYaml {
  import opened Wrappers
  import opened Supercluster

  /** The three optional blocks, in document order. */
  datatype Section = AllTypeEdges | AnyTypeEdges | RootsSection

  /** One line of the dump. */
  datatype Line =
    | NodesHeader
    | IdLine(id: NodeID)
    | TitleLine(title: string)
    | SectionHeader(section: Section)
    | StartLine(id: NodeID)
    | EndLine(id: NodeID)
    | RootLine(id: NodeID)

  /** What the dump records: every node, the id pairs of each edge type in
      edge order, and the roots. */
  datatype Document = Document(
    nodes: seq<Node>,
    allEdges: seq<(NodeID, NodeID)>,
    anyEdges: seq<(NodeID, NodeID)>,
    roots: seq<NodeID>)

  // ---------------------------------------------------------------------
  // Edge lists
  // ---------------------------------------------------------------------

  /** The id pairs of the `kind` edges among `es`, in order; an edge whose
      endpoint is not a node of `g` has no weight to look up and is dropped. */
  function EdgePairs(g: Graph, es: seq<Edge>, kind: EdgeType): (r: seq<(NodeID, NodeID)>)
    ensures |r| <= |es|
    decreases |es|
  {
    if es == [] then []
    else
      var rest := EdgePairs(g, es[1..], kind);
      if es[0].kind == kind && ValidEdge(g, es[0]) then
        [(g.nodes[es[0].source].id, g.nodes[es[0].target].id)] + rest
      else
        rest
  }

  /** A pair is listed iff some `kind` edge among `es` connects it. */
  lemma {:induction false} EdgePairsExact(g: Graph, es: seq<Edge>, kind: EdgeType, a: NodeID, b: NodeID)
    ensures (a, b) in EdgePairs(g, es, kind) <==> exists e :: e in es && Connects(g, e, kind, a, b)
    decreases |es|
  {
    if es != [] {
      var rest := EdgePairs(g, es[1..], kind);
      EdgePairsExact(g, es[1..], kind, a, b);
      assert forall e :: e in es <==> e == es[0] || e in es[1..];
      if es[0].kind == kind && ValidEdge(g, es[0]) {
        var first := (g.nodes[es[0].source].id, g.nodes[es[0].target].id);
        assert EdgePairs(g, es, kind) == [first] + rest;
        assert (a, b) == first <==> Connects(g, es[0], kind, a, b);
      } else {
        assert EdgePairs(g, es, kind) == rest;
        assert !Connects(g, es[0], kind, a, b);
      }
    }
  }

  /** One edge contributes its own id pair to the list of its own type when
      both endpoints are nodes, and nothing to any other list. */
  lemma EdgePairsOfEdge(g: Graph, e: Edge, kind: EdgeType)
    ensures ValidEdge(g, e) && e.kind == kind ==> EdgePairs(g, [e], kind) == [(g.nodes[e.source].id, g.nodes[e.target].id)]
    ensures !ValidEdge(g, e) || e.kind != kind ==> EdgePairs(g, [e], kind) == []
  {
    assert [e][1..] == [];
  }

  /** The list of a concatenation of edges is the concatenation of their
      lists: the pairs keep edge order, and each edge contributes its own
      pairs once, whatever surrounds it. */
  lemma {:induction false} EdgePairsAppend(g: Graph, a: seq<Edge>, b: seq<Edge>, kind: EdgeType)
    ensures EdgePairs(g, a + b, kind) == EdgePairs(g, a, kind) + EdgePairs(g, b, kind)
    decreases |a|
  {
    if a == [] {
      assert a + b == b;
    } else {
      assert (a + b)[0] == a[0];
      assert (a + b)[1..] == a[1..] + b;
      EdgePairsAppend(g, a[1..], b, kind);
    }
  }

  /** An edge anywhere in the sequence appears exactly once, at its own
      position, in the list of its own type when both endpoints are nodes,
      and not at all in any other list. */
  lemma EdgeListedInPlace(g: Graph, before: seq<Edge>, e: Edge, after: seq<Edge>, kind: EdgeType)
    ensures EdgePairs(g, before + [e] + after, kind) ==
      EdgePairs(g, before, kind)
      + (if ValidEdge(g, e) && e.kind == kind then [(g.nodes[e.source].id, g.nodes[e.target].id)] else [])
      + EdgePairs(g, after, kind)
  {
    EdgePairsAppend(g, before + [e], after, kind);
    EdgePairsAppend(g, before, [e], kind);
    EdgePairsOfEdge(g, e, kind);
  }

  /** The id pairs of all `kind` edges of `g`, in edge order: exactly the
      pairs of the relation the condition compiler uses for that edge type. */
  function EdgeList(g: Graph, kind: EdgeType): (r: seq<(NodeID, NodeID)>)
    ensures |r| <= |g.edges|
    ensures forall a, b :: (a, b) in r <==> (a, b) in EdgeRelation(g, kind)
  {
    EdgeListIsRelation(g, kind);
    EdgePairs(g, g.edges, kind)
  }

  /** The edges of `es` with both endpoints in `g`. */
  function ValidEdges(g: Graph, es: seq<Edge>): (r: seq<Edge>)
    ensures forall e :: e in r <==> e in es && ValidEdge(g, e)
  {
    if es == [] then []
    else if ValidEdge(g, es[0]) then [es[0]] + ValidEdges(g, es[1..])
    else ValidEdges(g, es[1..])
  }

  /** The pairs listed for the edges of `g` of a kind are exactly the pairs
      of that kind's relation. */
  lemma EdgeListIsRelation(g: Graph, kind: EdgeType)
    ensures forall a, b :: (a, b) in EdgePairs(g, g.edges, kind) <==> (a, b) in EdgeRelation(g, kind)
  {
    forall a, b
      ensures (a, b) in EdgePairs(g, g.edges, kind) <==> (a, b) in EdgeRelation(g, kind)
    {
      EdgePairsExact(g, g.edges, kind, a, b);
      EdgeRelationExact(g, kind, a, b);
    }
  }

  /** The two edge lists together are as long as the list of edges with
      valid endpoints; `EdgeListedInPlace` says where each edge goes. */
  lemma {:induction false} EdgeListsPartition(g: Graph, es: seq<Edge>)
    ensures |EdgePairs(g, es, All)| + |EdgePairs(g, es, AtLeastOne)| == |ValidEdges(g, es)|
    decreases |es|
  {
    if es != [] {
      EdgeListsPartition(g, es[1..]);
    }
  }

  /** In a well-formed supercluster no edge is lost: the two lists together
      have one entry per edge. */
  lemma EdgeListsCoverEdges(sc: RootedSupercluster)
    requires WellFormed(sc)
    ensures |EdgeList(sc.graph, All)| + |EdgeList(sc.graph, AtLeastOne)| == |sc.graph.edges|
  {
    EdgeListsPartition(sc.graph, sc.graph.edges);
    AllValid(sc.graph, sc.graph.edges);
  }

  /** Filtering edges that are all valid keeps all of them. */
  lemma {:induction false} AllValid(g: Graph, es: seq<Edge>)
    requires forall e :: e in es ==> ValidEdge(g, e)
    ensures ValidEdges(g, es) == es
    decreases |es|
  {
    if es != [] {
      assert forall e :: e in es[1..] ==> e in es;
      AllValid(g, es[1..]);
      assert es == [es[0]] + es[1..];
    }
  }

  // ---------------------------------------------------------------------
  // The line structure of the dump
  // ---------------------------------------------------------------------

  /** Each node contributes its id line followed by its title line. */
  function NodeLines(nodes: seq<Node>): (r: seq<Line>)
    ensures |r| == 2 * |nodes|
    ensures forall l :: l in r ==> l.IdLine? || l.TitleLine?
    decreases |nodes|
  {
    if nodes == [] then []
    else [IdLine(nodes[0].id), TitleLine(nodes[0].title)] + NodeLines(nodes[1..])
  }

  /** Each edge contributes its start line followed by its end line. */
  function EdgeLines(pairs: seq<(NodeID, NodeID)>): (r: seq<Line>)
    ensures |r| == 2 * |pairs|
    ensures forall l :: l in r ==> l.StartLine? || l.EndLine?
    decreases |pairs|
  {
    if pairs == [] then []
    else [StartLine(pairs[0].0), EndLine(pairs[0].1)] + EdgeLines(pairs[1..])
  }

  /** Each root contributes one list entry. */
  function RootLines(roots: seq<NodeID>): (r: seq<Line>)
    ensures |r| == |roots|
    ensures forall l :: l in r ==> l.RootLine?
    decreases |roots|
  {
    if roots == [] then []
    else [RootLine(roots[0])] + RootLines(roots[1..])
  }

  /** A block with a header, written only when it has entries. */
  function Block(section: Section, body: seq<Line>): seq<Line> {
    if |body| > 0 then [SectionHeader(section)] + body else []
  }

  /** The lines of the dump, in the order they are written. */
  function Lines(sc: RootedSupercluster): (r: seq<Line>)
    ensures |r| >= 1 && r[0] == NodesHeader
  {
    [NodesHeader]
      + NodeLines(sc.graph.nodes)
      + Block(AllTypeEdges, EdgeLines(EdgeList(sc.graph, All)))
      + Block(AnyTypeEdges, EdgeLines(EdgeList(sc.graph, AtLeastOne)))
      + Block(RootsSection, RootLines(sc.roots))
  }

  /** `ls` contains no block header. */
  predicate NoHeaders(ls: seq<Line>) {
    forall l :: l in ls ==> !l.SectionHeader?
  }

  /** The header of `s` appears in a block iff it is that block's own header
      and the block has entries. */
  lemma HeaderInBlock(section: Section, body: seq<Line>, s: Section)
    requires NoHeaders(body)
    ensures SectionHeader(s) in Block(section, body) <==> s == section && |body| > 0
  {
  }

  /** The lines of the dump, split where the header of `s` can appear. */
  lemma LinesByBlock(sc: RootedSupercluster, s: Section)
    ensures SectionHeader(s) in Lines(sc) <==>
      || SectionHeader(s) in Block(AllTypeEdges, EdgeLines(EdgeList(sc.graph, All)))
      || SectionHeader(s) in Block(AnyTypeEdges, EdgeLines(EdgeList(sc.graph, AtLeastOne)))
      || SectionHeader(s) in Block(RootsSection, RootLines(sc.roots))
  {
    assert NoHeaders(NodeLines(sc.graph.nodes));
  }

  /** A block header appears in the dump iff that block has entries. */
  lemma SectionPresent(sc: RootedSupercluster)
    ensures SectionHeader(AllTypeEdges) in Lines(sc) <==> |EdgeList(sc.graph, All)| > 0
    ensures SectionHeader(AnyTypeEdges) in Lines(sc) <==> |EdgeList(sc.graph, AtLeastOne)| > 0
    ensures SectionHeader(RootsSection) in Lines(sc) <==> |sc.roots| > 0
  {
    var all := EdgeLines(EdgeList(sc.graph, All));
    var any := EdgeLines(EdgeList(sc.graph, AtLeastOne));
    var roots := RootLines(sc.roots);
    assert NoHeaders(all) && NoHeaders(any) && NoHeaders(roots);
    forall s
      ensures SectionHeader(s) in Lines(sc) <==>
        (s == AllTypeEdges && |all| > 0) || (s == AnyTypeEdges && |any| > 0) || (s == RootsSection && |roots| > 0)
    {
      LinesByBlock(sc, s);
      HeaderInBlock(AllTypeEdges, all, s);
      HeaderInBlock(AnyTypeEdges, any, s);
      HeaderInBlock(RootsSection, roots, s);
    }
  }

  // ---------------------------------------------------------------------
  // Reading the line structure back
  // ---------------------------------------------------------------------

  /** Reads id/title pairs for as long as they come. */
  function ParseNodes(lines: seq<Line>): (r: (seq<Node>, seq<Line>))
    ensures |r.1| <= |lines|
    decreases |lines|
  {
    if |lines| >= 2 && lines[0].IdLine? && lines[1].TitleLine? then
      var (nodes, rest) := ParseNodes(lines[2..]);
      ([Node(lines[0].id, lines[1].title)] + nodes, rest)
    else
      ([], lines)
  }

  /** Reads start/end pairs for as long as they come. */
  function ParseEdges(lines: seq<Line>): (r: (seq<(NodeID, NodeID)>, seq<Line>))
    ensures |r.1| <= |lines|
    decreases |lines|
  {
    if |lines| >= 2 && lines[0].StartLine? && lines[1].EndLine? then
      var (pairs, rest) := ParseEdges(lines[2..]);
      ([(lines[0].id, lines[1].id)] + pairs, rest)
    else
      ([], lines)
  }

  /** Reads root entries for as long as they come. */
  function ParseRoots(lines: seq<Line>): (r: (seq<NodeID>, seq<Line>))
    ensures |r.1| <= |lines|
    decreases |lines|
  {
    if |lines| >= 1 && lines[0].RootLine? then
      var (roots, rest) := ParseRoots(lines[1..]);
      ([lines[0].id] + roots, rest)
    else
      ([], lines)
  }

  /** Reads an optional block of edges under the given header. */
  function ParseEdgeBlock(section: Section, lines: seq<Line>): (r: (seq<(NodeID, NodeID)>, seq<Line>)) {
    if |lines| >= 1 && lines[0] == SectionHeader(section) then ParseEdges(lines[1..]) else ([], lines)
  }

  /** Reads the optional roots block. */
  function ParseRootBlock(lines: seq<Line>): (r: (seq<NodeID>, seq<Line>)) {
    if |lines| >= 1 && lines[0] == SectionHeader(RootsSection) then ParseRoots(lines[1..]) else ([], lines)
  }

  /** Reads a whole dump; `None` when it does not start with the nodes
      header or has lines left over after the roots block. */
  function ParseDocument(lines: seq<Line>): (r: Option<Document>)
    ensures r.Some? ==> |lines| >= 1 && lines[0] == NodesHeader
  {
    if |lines| == 0 || lines[0] != NodesHeader then None
    else
      var (nodes, r1) := ParseNodes(lines[1..]);
      var (all, r2) := ParseEdgeBlock(AllTypeEdges, r1);
      var (any, r3) := ParseEdgeBlock(AnyTypeEdges, r2);
      var (roots, r4) := ParseRootBlock(r3);
      if r4 == [] then Some(Document(nodes, all, any, roots)) else None
  }

  /** `lines` is empty or opens a block whose section is in `allowed`. */
  predicate OpensWith(lines: seq<Line>, allowed: set<Section>) {
    lines == [] || (lines[0].SectionHeader? && lines[0].section in allowed)
  }

  /** Putting a block in front keeps the lines opening a block. */
  lemma BlockOpens(section: Section, body: seq<Line>, tail: seq<Line>, allowed: set<Section>)
    requires OpensWith(tail, allowed)
    ensures OpensWith(Block(section, body) + tail, allowed + {section})
  {
    if |body| > 0 {
      assert (Block(section, body) + tail)[0] == SectionHeader(section);
    } else {
      assert Block(section, body) + tail == tail;
    }
  }

  /** The node lines read back as the nodes, stopping at whatever follows. */
  lemma {:induction false} ParseNodeLines(nodes: seq<Node>, tail: seq<Line>, allowed: set<Section>)
    requires OpensWith(tail, allowed)
    ensures ParseNodes(NodeLines(nodes) + tail) == (nodes, tail)
    decreases |nodes|
  {
    if nodes == [] {
      assert NodeLines(nodes) + tail == tail;
    } else {
      var n := nodes[0];
      var rest := NodeLines(nodes[1..]) + tail;
      var lines := [IdLine(n.id), TitleLine(n.title)] + rest;
      assert NodeLines(nodes) + tail == lines;
      assert lines[0] == IdLine(n.id) && lines[1] == TitleLine(n.title);
      assert lines[2..] == rest;
      ParseNodeLines(nodes[1..], tail, allowed);
      assert nodes == [n] + nodes[1..];
    }
  }

  /** The edge lines read back as the pairs, stopping at whatever follows. */
  lemma {:induction false} ParseEdgeLines(pairs: seq<(NodeID, NodeID)>, tail: seq<Line>, allowed: set<Section>)
    requires OpensWith(tail, allowed)
    ensures ParseEdges(EdgeLines(pairs) + tail) == (pairs, tail)
    decreases |pairs|
  {
    if pairs == [] {
      assert EdgeLines(pairs) + tail == tail;
    } else {
      var p := pairs[0];
      var rest := EdgeLines(pairs[1..]) + tail;
      var lines := [StartLine(p.0), EndLine(p.1)] + rest;
      assert EdgeLines(pairs) + tail == lines;
      assert lines[0] == StartLine(p.0) && lines[1] == EndLine(p.1);
      assert lines[2..] == rest;
      ParseEdgeLines(pairs[1..], tail, allowed);
      assert pairs == [p] + pairs[1..];
    }
  }

  /** The root lines read back as the roots. */
  lemma {:induction false} ParseRootLines(roots: seq<NodeID>)
    ensures ParseRoots(RootLines(roots)) == (roots, [])
    decreases |roots|
  {
    if roots != [] {
      assert RootLines(roots) == [RootLine(roots[0])] + RootLines(roots[1..]);
      assert RootLines(roots)[1..] == RootLines(roots[1..]);
      ParseRootLines(roots[1..]);
      assert roots == [roots[0]] + roots[1..];
    }
  }

  /** A non-empty edge block reads back as its pairs. */
  lemma ParseEdgeBlockPresent(section: Section, pairs: seq<(NodeID, NodeID)>, tail: seq<Line>, allowed: set<Section>)
    requires |pairs| > 0 && OpensWith(tail, allowed)
    ensures ParseEdgeBlock(section, [SectionHeader(section)] + EdgeLines(pairs) + tail) == (pairs, tail)
  {
    var lines := [SectionHeader(section)] + EdgeLines(pairs) + tail;
    assert lines[1..] == EdgeLines(pairs) + tail;
    ParseEdgeLines(pairs, tail, allowed);
  }

  /** An edge block reads back as its pairs, and an absent block as none. */
  lemma ParseEdgeBlockOf(section: Section, pairs: seq<(NodeID, NodeID)>, tail: seq<Line>, allowed: set<Section>)
    requires OpensWith(tail, allowed) && section !in allowed
    ensures ParseEdgeBlock(section, Block(section, EdgeLines(pairs)) + tail) == (pairs, tail)
  {
    if |pairs| > 0 {
      ParseEdgeBlockPresent(section, pairs, tail, allowed);
    } else {
      assert Block(section, EdgeLines(pairs)) + tail == tail;
      assert tail == [] || tail[0] != SectionHeader(section);
    }
  }

  /** The roots block reads back as the roots, and an absent block as none. */
  lemma ParseRootBlockOf(roots: seq<NodeID>)
    ensures ParseRootBlock(Block(RootsSection, RootLines(roots))) == (roots, [])
  {
    if |roots| > 0 {
      assert Block(RootsSection, RootLines(roots))[1..] == RootLines(roots);
      ParseRootLines(roots);
    }
  }

  /** Reading a dump back in three steps, given how each step goes. */
  lemma ParseDocumentSteps(lines: seq<Line>, doc: Document, r1: seq<Line>, r2: seq<Line>, r3: seq<Line>)
    requires |lines| >= 1 && lines[0] == NodesHeader
    requires ParseNodes(lines[1..]) == (doc.nodes, r1)
    requires ParseEdgeBlock(AllTypeEdges, r1) == (doc.allEdges, r2)
    requires ParseEdgeBlock(AnyTypeEdges, r2) == (doc.anyEdges, r3)
    requires ParseRootBlock(r3) == (doc.roots, [])
    ensures ParseDocument(lines) == Some(doc)
  {
  }

  /** The dump is lossless: reading it back yields every node with its
      title, the id pairs of both edge types in edge order, and the roots. */
  lemma RoundTrip(sc: RootedSupercluster)
    ensures ParseDocument(Lines(sc)) == Some(Document(
      sc.graph.nodes, EdgeList(sc.graph, All), EdgeList(sc.graph, AtLeastOne), sc.roots))
  {
    var all := EdgeList(sc.graph, All);
    var any := EdgeList(sc.graph, AtLeastOne);
    var anyTail := Block(RootsSection, RootLines(sc.roots));
    var allTail := Block(AnyTypeEdges, EdgeLines(any)) + anyTail;
    var nodeTail := Block(AllTypeEdges, EdgeLines(all)) + allTail;
    var ls := Lines(sc);
    assert ls == [NodesHeader] + (NodeLines(sc.graph.nodes) + nodeTail);
    assert ls[1..] == NodeLines(sc.graph.nodes) + nodeTail;
    var none: set<Section> := {};
    BlockOpens(RootsSection, RootLines(sc.roots), [], none);
    assert anyTail + [] == anyTail;
    BlockOpens(AnyTypeEdges, EdgeLines(any), anyTail, {RootsSection});
    BlockOpens(AllTypeEdges, EdgeLines(all), allTail, {RootsSection, AnyTypeEdges});
    ParseNodeLines(sc.graph.nodes, nodeTail, {RootsSection, AnyTypeEdges, AllTypeEdges});
    ParseEdgeBlockOf(AllTypeEdges, all, allTail, {RootsSection, AnyTypeEdges});
    ParseEdgeBlockOf(AnyTypeEdges, any, anyTail, {RootsSection});
    ParseRootBlockOf(sc.roots);
    ParseDocumentSteps(ls, Document(sc.graph.nodes, all, any, sc.roots), nodeTail, allTail, anyTail);
  }

  // ---------------------------------------------------------------------
  // Text
  // ---------------------------------------------------------------------

  /** The text of one line; ids are written with their display function. */
  function RenderLine(l: Line, show: NodeID -> string): (r: string)
    ensures |r| > 0 && r[|r| - 1] == '\n'
  {
    match l
    case NodesHeader => "nodes:\n"
    case IdLine(id) => "  - id: " + show(id) + "\n"
    case TitleLine(title) => "    title: " + title + "\n"
    case SectionHeader(AllTypeEdges) => "all_type_edges:\n"
    case SectionHeader(AnyTypeEdges) => "any_type_edges:\n"
    case SectionHeader(RootsSection) => "roots:\n"
    case StartLine(id) => "  - start_id: " + show(id) + "\n"
    case EndLine(id) => "    end_id: " + show(id) + "\n"
    case RootLine(id) => "  - " + show(id) + "\n"
  }

  /** The texts of the lines, one after the other. */
  function RenderLines(ls: seq<Line>, show: NodeID -> string): (r: string)
    ensures r == [] <==> ls == []
    ensures ls != [] ==> r[|r| - 1] == '\n'
    decreases |ls|
  {
    if ls == [] then "" else RenderLine(ls[0], show) + RenderLines(ls[1..], show)
  }

  /** Rendering distributes over concatenation of line sequences. */
  lemma {:induction false} RenderLinesAppend(a: seq<Line>, b: seq<Line>, show: NodeID -> string)
    ensures RenderLines(a + b, show) == RenderLines(a, show) + RenderLines(b, show)
    decreases |a|
  {
    if a == [] {
      assert a + b == b;
    } else {
      assert (a + b)[0] == a[0];
      assert (a + b)[1..] == a[1..] + b;
      RenderLinesAppend(a[1..], b, show);
    }
  }

  /** The YAML text of the dump. */
  function Serialize(sc: RootedSupercluster, show: NodeID -> string): (r: string)
    ensures |r| >= 7 && r[..7] == "nodes:\n"
  {
    var ls := Lines(sc);
    assert ls == [ls[0]] + ls[1..];
    RenderLines(ls, show)
  }

  /** The number of line breaks in `s`. */
  function Breaks(s: string): nat
    decreases |s|
  {
    if s == [] then 0 else (if s[0] == '\n' then 1 else 0) + Breaks(s[1..])
  }

  /** Line breaks add up over concatenation. */
  lemma {:induction false} BreaksAppend(a: string, b: string)
    ensures Breaks(a + b) == Breaks(a) + Breaks(b)
    decreases |a|
  {
    if a == [] {
      assert a + b == b;
    } else {
      assert (a + b)[0] == a[0];
      assert (a + b)[1..] == a[1..] + b;
      BreaksAppend(a[1..], b);
    }
  }

  /** `s` contains no line break. */
  predicate SingleLine(s: string) {
    forall i :: 0 <= i < |s| ==> s[i] != '\n'
  }

  /** A text without line breaks counts none. */
  lemma {:induction false} SingleLineBreaks(s: string)
    requires SingleLine(s)
    ensures Breaks(s) == 0
    decreases |s|
  {
    if s != [] {
      SingleLineBreaks(s[1..]);
    }
  }

  /** A single line followed by a line break counts one, at its end. */
  lemma Terminated(body: string)
    requires SingleLine(body)
    ensures Breaks(body + "\n") == 1 && (body + "\n")[|body|] == '\n'
  {
    SingleLineBreaks(body);
    BreaksAppend(body, "\n");
  }

  /** The text of a line is terminated by its only line break, provided the
      ids and title it shows have none. */
  lemma LineBreaks(l: Line, show: NodeID -> string)
    requires (l.IdLine? || l.StartLine? || l.EndLine? || l.RootLine?) ==> SingleLine(show(l.id))
    requires l.TitleLine? ==> SingleLine(l.title)
    ensures Breaks(RenderLine(l, show)) == 1
    ensures RenderLine(l, show)[|RenderLine(l, show)| - 1] == '\n'
  {
    var body := match l
      case NodesHeader => "nodes:"
      case IdLine(id) => "  - id: " + show(id)
      case TitleLine(title) => "    title: " + title
      case SectionHeader(AllTypeEdges) => "all_type_edges:"
      case SectionHeader(AnyTypeEdges) => "any_type_edges:"
      case SectionHeader(RootsSection) => "roots:"
      case StartLine(id) => "  - start_id: " + show(id)
      case EndLine(id) => "    end_id: " + show(id)
      case RootLine(id) => "  - " + show(id);
    assert RenderLine(l, show) == body + "\n";
    Terminated(body);
  }

  /** Rendering a sequence of single lines yields one line break per line. */
  lemma {:induction false} LinesBreaks(ls: seq<Line>, show: NodeID -> string)
    requires forall id :: SingleLine(show(id))
    requires forall l :: l in ls && l.TitleLine? ==> SingleLine(l.title)
    ensures Breaks(RenderLines(ls, show)) == |ls|
    decreases |ls|
  {
    if ls != [] {
      LineBreaks(ls[0], show);
      assert forall l :: l in ls[1..] ==> l in ls;
      LinesBreaks(ls[1..], show);
      BreaksAppend(RenderLine(ls[0], show), RenderLines(ls[1..], show));
    }
  }

  /** The titles shown by the node lines are the nodes' titles. */
  lemma {:induction false} NodeLineTitles(nodes: seq<Node>)
    requires forall n :: n in nodes ==> SingleLine(n.title)
    ensures forall l :: l in NodeLines(nodes) && l.TitleLine? ==> SingleLine(l.title)
    decreases |nodes|
  {
    if nodes != [] {
      assert forall n :: n in nodes[1..] ==> n in nodes;
      NodeLineTitles(nodes[1..]);
    }
  }

  /** When no id is displayed with a line break and no title contains one,
      the text has exactly one line per line of the dump, so the YAML
      structure is the line structure read back by `ParseDocument`. */
  lemma SerializeLineCount(sc: RootedSupercluster, show: NodeID -> string)
    requires forall id :: SingleLine(show(id))
    requires forall n :: n in sc.graph.nodes ==> SingleLine(n.title)
    ensures Breaks(Serialize(sc, show)) == |Lines(sc)|
  {
    var ls := Lines(sc);
    var nodes := NodeLines(sc.graph.nodes);
    var all := Block(AllTypeEdges, EdgeLines(EdgeList(sc.graph, All)));
    var any := Block(AnyTypeEdges, EdgeLines(EdgeList(sc.graph, AtLeastOne)));
    var roots := Block(RootsSection, RootLines(sc.roots));
    assert ls == [NodesHeader] + nodes + all + any + roots;
    NodeLineTitles(sc.graph.nodes);
    assert forall l: Line :: l in all + any + roots ==> !l.TitleLine?;
    LinesBreaks(ls, show);
  }
}
