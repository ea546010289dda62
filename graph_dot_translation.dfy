/**
 * utils/graph/dot_translator.py: the translator over the networkx-based
 * analyser. `graph.nodes`, `graph.edges`, `is_merge_commit` and
 * `is_squashed_link` belong to an analyser that is not part of this model,
 * so they are parameters of `PrintTranslation`; the helpers and the framing
 * lines are those of dot_translator.py.
 */
module GraphDotTranslation {
  import opened Wrappers
  import opened PyStr
  import opened MergeCommitInformant
  import opened DotText
  import opened Seqs
  import DT = DotTranslation

  /** A networkx edge: its source and destination hashes. */
  type Edge = (string, string)

  const PlainFill: string := "white"

  /** The line of one node: the merge description for a merge commit, a white box otherwise. */
  function GraphNodeLine(node: string, isMerge: string -> bool, describe: string -> string): string {
    if isMerge(node) then describe(node) else DescribeCommit(node, PlainFill)
  }

  /** The node loop. */
  function GraphNodeLines(nodes: seq<string>, isMerge: string -> bool, describe: string -> string): (lines: seq<string>)
    ensures |lines| == |nodes|
  {
    if nodes == [] then []
    else GraphNodeLines(nodes[..|nodes| - 1], isMerge, describe) + [GraphNodeLine(nodes[|nodes| - 1], isMerge, describe)]
  }

  /** The edge loop: each edge highlighted exactly when it is a squashed link. */
  function GraphEdgeLines(edges: seq<Edge>, isSquashed: Edge -> bool): (lines: seq<string>)
    ensures |lines| == |edges|
  {
    if edges == [] then []
    else
      var last := edges[|edges| - 1];
      GraphEdgeLines(edges[..|edges| - 1], isSquashed) + [DescribeLink(last.0, last.1, isSquashed(last))]
  }

  /** Everything `print_translation` prints. */
  function GraphTranslation(nodes: seq<string>, edges: seq<Edge>, isMerge: string -> bool, isSquashed: Edge -> bool,
                            describe: string -> string): (lines: seq<string>)
    ensures |lines| == 5 + |nodes| + |edges|
  {
    DT.Header + GraphNodeLines(nodes, isMerge, describe) + [""] + GraphEdgeLines(edges, isSquashed) + [DT.Footer]
  }

  lemma {:induction false} GraphNodeLinesAt(nodes: seq<string>, isMerge: string -> bool, describe: string -> string)
    ensures forall i :: 0 <= i < |nodes| ==>
              GraphNodeLines(nodes, isMerge, describe)[i] == GraphNodeLine(nodes[i], isMerge, describe)
  {
    if nodes != [] {
      var init := nodes[..|nodes| - 1];
      GraphNodeLinesAt(init, isMerge, describe);
      forall i | 0 <= i < |init| ensures init[i] == nodes[i] {
      }
    }
  }

  lemma {:induction false} GraphEdgeLinesAt(edges: seq<Edge>, isSquashed: Edge -> bool)
    ensures forall j :: 0 <= j < |edges| ==>
              GraphEdgeLines(edges, isSquashed)[j] == DescribeLink(edges[j].0, edges[j].1, isSquashed(edges[j]))
  {
    if edges != [] {
      var init := edges[..|edges| - 1];
      GraphEdgeLinesAt(init, isSquashed);
      forall j | 0 <= j < |init| ensures init[j] == edges[j] {
      }
    }
  }

  /**
   * One line per node, in order, then a blank line, then one line per edge,
   * in order, framed by the header and the closing brace: a merge commit is
   * described as a merge and any other node as a white box.
   */
  lemma GraphTranslationLayout(nodes: seq<string>, edges: seq<Edge>, isMerge: string -> bool, isSquashed: Edge -> bool,
                               describe: string -> string)
    ensures var lines := GraphTranslation(nodes, edges, isMerge, isSquashed, describe);
            var n := |nodes|;
            && lines[..3] == DT.Header
            && (forall i :: 0 <= i < n && isMerge(nodes[i]) ==> lines[3 + i] == describe(nodes[i]))
            && (forall i :: 0 <= i < n && !isMerge(nodes[i]) ==> lines[3 + i] == DescribeCommit(nodes[i], PlainFill))
            && lines[3 + n] == ""
            && (forall j :: 0 <= j < |edges| ==>
                  lines[4 + n + j] == DescribeLink(edges[j].0, edges[j].1, isSquashed(edges[j])))
            && lines[|lines| - 1] == DT.Footer
  {
    GraphFrame(nodes, edges, isMerge, isSquashed, describe);
    GraphNodeSection(nodes, edges, isMerge, isSquashed, describe);
    GraphEdgeSection(nodes, edges, isMerge, isSquashed, describe);
  }

  lemma GraphFrame(nodes: seq<string>, edges: seq<Edge>, isMerge: string -> bool, isSquashed: Edge -> bool,
                   describe: string -> string)
    ensures var lines := GraphTranslation(nodes, edges, isMerge, isSquashed, describe);
            && lines[..3] == DT.Header
            && lines[3 + |nodes|] == ""
            && lines[|lines| - 1] == DT.Footer
  {
    FramedTwo(DT.Header, GraphNodeLines(nodes, isMerge, describe), "", GraphEdgeLines(edges, isSquashed), DT.Footer);
  }

  lemma GraphNodeSection(nodes: seq<string>, edges: seq<Edge>, isMerge: string -> bool, isSquashed: Edge -> bool,
                         describe: string -> string)
    ensures forall i :: 0 <= i < |nodes| ==>
              GraphTranslation(nodes, edges, isMerge, isSquashed, describe)[3 + i] == GraphNodeLine(nodes[i], isMerge, describe)
  {
    var nodeLines := GraphNodeLines(nodes, isMerge, describe);
    FramedTwo(DT.Header, nodeLines, "", GraphEdgeLines(edges, isSquashed), DT.Footer);
    GraphNodeLinesAt(nodes, isMerge, describe);
  }

  lemma GraphEdgeSection(nodes: seq<string>, edges: seq<Edge>, isMerge: string -> bool, isSquashed: Edge -> bool,
                         describe: string -> string)
    ensures forall j :: 0 <= j < |edges| ==>
              GraphTranslation(nodes, edges, isMerge, isSquashed, describe)[4 + |nodes| + j]
              == DescribeLink(edges[j].0, edges[j].1, isSquashed(edges[j]))
  {
    var edgeLines := GraphEdgeLines(edges, isSquashed);
    FramedTwo(DT.Header, GraphNodeLines(nodes, isMerge, describe), "", edgeLines, DT.Footer);
    GraphEdgeLinesAt(edges, isSquashed);
  }

  /** Read back, a plain node's line gives its hash and the white fill. */
  lemma PlainNodeReads(nodes: seq<string>, edges: seq<Edge>, isMerge: string -> bool, isSquashed: Edge -> bool,
                       describe: string -> string, i: nat)
    requires i < |nodes| && !isMerge(nodes[i]) && NoSpace(nodes[i])
    ensures ReadCommit(GraphTranslation(nodes, edges, isMerge, isSquashed, describe)[3 + i])
            == Some(NodeLine(nodes[i], PlainFill))
  {
    GraphTranslationLayout(nodes, edges, isMerge, isSquashed, describe);
    ReadDescribeCommit(nodes[i], PlainFill);
  }

  /** Read back, an edge's line gives its two hashes, and it is highlighted exactly when the edge is squashed. */
  lemma EdgeReads(nodes: seq<string>, edges: seq<Edge>, isMerge: string -> bool, isSquashed: Edge -> bool,
                  describe: string -> string, j: nat)
    requires j < |edges| && NoSpace(edges[j].0) && NoSpace(edges[j].1)
    ensures var line := GraphTranslation(nodes, edges, isMerge, isSquashed, describe)[4 + |nodes| + j];
            ReadLink(line) == Some(LinkLine(edges[j].0, edges[j].1, isSquashed(edges[j])))
  {
    GraphTranslationLayout(nodes, edges, isMerge, isSquashed, describe);
    ReadDescribeLink(edges[j].0, edges[j].1, isSquashed(edges[j]));
  }

  class DotTranslator {
    const mergeInform: MergeInformant
    /** `col_cfg`, set once by the constructor. */
    const colCfg: map<string, string>

    constructor (informant: MergeInformant, colours: map<string, string>)
      ensures mergeInform == informant && colCfg == colours
    {
      mergeInform := informant;
      colCfg := colours;
    }

    /** `print_translation` over the analyser's graph and predicates. */
    method PrintTranslation(nodes: seq<string>, edges: seq<Edge>, isMerge: string -> bool, isSquashed: Edge -> bool)
      returns (lines: seq<string>)
      ensures lines == GraphTranslation(nodes, edges, isMerge, isSquashed, DT.MergeDescriber(colCfg, mergeInform))
    {
      var describe := DT.MergeDescriber(colCfg, mergeInform);
      var nodeLines := EmitNodes(nodes, isMerge, describe);
      var edgeLines := EmitEdges(edges, isSquashed);
      lines := DT.Header + nodeLines + [""] + edgeLines + [DT.Footer];
    }

    /** The node loop, with `describe` for `describe_merge_commit_in_dot`. */
    method EmitNodes(nodes: seq<string>, isMerge: string -> bool, describe: string -> string) returns (lines: seq<string>)
      ensures lines == GraphNodeLines(nodes, isMerge, describe)
    {
      lines := [];
      var i := 0;
      while i < |nodes|
        invariant 0 <= i <= |nodes|
        invariant lines == GraphNodeLines(nodes[..i], isMerge, describe)
      {
        assert nodes[..i + 1][..i] == nodes[..i];
        var line;
        if isMerge(nodes[i]) {
          line := describe(nodes[i]);
        } else {
          line := DescribeCommit(nodes[i], PlainFill);
        }
        lines := lines + [line];
        i := i + 1;
      }
      assert nodes[..i] == nodes;
    }

    /** The edge loop. */
    method EmitEdges(edges: seq<Edge>, isSquashed: Edge -> bool) returns (lines: seq<string>)
      ensures lines == GraphEdgeLines(edges, isSquashed)
    {
      lines := [];
      var j := 0;
      while j < |edges|
        invariant 0 <= j <= |edges|
        invariant lines == GraphEdgeLines(edges[..j], isSquashed)
      {
        assert edges[..j + 1][..j] == edges[..j];
        var doHighlight := isSquashed(edges[j]);
        lines := lines + [DescribeLink(edges[j].0, edges[j].1, doHighlight)];
        j := j + 1;
      }
      assert edges[..j] == edges;
    }
  }
}
