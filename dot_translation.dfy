/**
 * dot_translator.py: reading the `%p -> %h` log from standard input into a
 * `GraphAnalyser`, and writing the Graphviz graph of what it gathered. Each
 * `print` becomes one element of the returned sequence of lines; standard
 * input is the sequence of its lines.
 */
module DotTranslation {
  import opened Wrappers
  import opened GraphAnalysis
  import opened MergeCommitInformant
  import opened DotText
  import opened Seqs

  /** The three `print` calls before the nodes; the third prints an extra newline of its own. */
  const Header: seq<string> := ["digraph {", "    rankdir=TD", "    node [shape=\"box\", style=\"filled\", fillcolor=\"white\"]\n"]
  const Footer: string := "}"

  // ---------------------------------------------------------------------
  // parse_stdin
  // ---------------------------------------------------------------------

  /** Why `parse_stdin` stopped: a record `ParsedLine` refused, or the `KeyError` of the condensing pass. */
  datatype StdinError = BadLine(index: nat, error: ParseError) | MissingKey(key: string)

  /**
   * Every line turned into a record by `parse`, in order, or the first line
   * `parse` refuses. `parse_stdin` uses `ParsedLine`, i.e. `ParseLine`.
   */
  function ParseAll(stdin: seq<string>, parse: string -> Result<Record, ParseError>): (r: Result<seq<Record>, StdinError>)
    ensures r.Success? ==> |r.value| == |stdin|
    ensures r.Failure? ==> r.error.BadLine? && r.error.index < |stdin| && parse(stdin[r.error.index]).Failure?
  {
    if stdin == [] then Success([])
    else match ParseAll(stdin[..|stdin| - 1], parse)
      case Failure(e) => Failure(e)
      case Success(records) =>
        match parse(stdin[|stdin| - 1])
        case Failure(e) => Failure(BadLine(|stdin| - 1, e))
        case Success(r) => Success(records + [r])
  }

  /** Parsing succeeds exactly when every line parses. */
  lemma {:induction false} ParseAllSuccess(stdin: seq<string>, parse: string -> Result<Record, ParseError>)
    ensures ParseAll(stdin, parse).Success? <==> forall i :: 0 <= i < |stdin| ==> parse(stdin[i]).Success?
  {
    if stdin != [] {
      var init := stdin[..|stdin| - 1];
      ParseAllSuccess(init, parse);
      if ParseAll(init, parse).Failure? {
        var i :| 0 <= i < |init| && parse(init[i]).Failure?;
        assert init[i] == stdin[i];
      } else if parse(stdin[|stdin| - 1]).Success? {
        forall i | 0 <= i < |stdin| ensures parse(stdin[i]).Success? {
          if i < |init| {
            assert init[i] == stdin[i];
          }
        }
      }
    }
  }

  /** A successful parse yields each line's record, in order. */
  lemma {:induction false} ParseAllValues(stdin: seq<string>, parse: string -> Result<Record, ParseError>)
    requires ParseAll(stdin, parse).Success?
    ensures |ParseAll(stdin, parse).value| == |stdin|
    ensures forall i :: 0 <= i < |stdin| ==>
              parse(stdin[i]).Success? && ParseAll(stdin, parse).value[i] == parse(stdin[i]).value
  {
    if stdin != [] {
      var init := stdin[..|stdin| - 1];
      ParseAllValues(init, parse);
      forall i | 0 <= i < |init| ensures init[i] == stdin[i] {
      }
    }
  }

  /** A failure names the first line that does not parse, and that line's error. */
  lemma {:induction false} ParseAllFailure(stdin: seq<string>, parse: string -> Result<Record, ParseError>)
    requires ParseAll(stdin, parse).Failure?
    ensures ParseAll(stdin, parse).error.BadLine?
    ensures var k := ParseAll(stdin, parse).error.index;
            && k < |stdin|
            && parse(stdin[k]) == Failure(ParseAll(stdin, parse).error.error)
            && forall j :: 0 <= j < k ==> parse(stdin[j]).Success?
  {
    var init := stdin[..|stdin| - 1];
    if ParseAll(init, parse).Failure? {
      ParseAllFailure(init, parse);
      var k := ParseAll(init, parse).error.index;
      forall j | 0 <= j <= k ensures init[j] == stdin[j] {
      }
    } else {
      ParseAllSuccess(init, parse);
      forall j | 0 <= j < |init| ensures parse(stdin[j]).Success? {
        assert init[j] == stdin[j];
      }
    }
  }

  /** Once a prefix fails to parse, the whole input fails the same way. */
  lemma {:induction false} ParseAllFailureSticks(stdin: seq<string>, parse: string -> Result<Record, ParseError>, i: nat)
    requires i <= |stdin| && ParseAll(stdin[..i], parse).Failure?
    ensures ParseAll(stdin, parse) == ParseAll(stdin[..i], parse)
    decreases |stdin|
  {
    if i == |stdin| {
      assert stdin[..i] == stdin;
    } else {
      var init := stdin[..|stdin| - 1];
      assert init[..i] == stdin[..i];
      ParseAllFailureSticks(init, parse, i);
    }
  }

  // ---------------------------------------------------------------------
  // print_translation
  // ---------------------------------------------------------------------

  /** `describe_merge_commit_in_dot`, as the translator with this informant and colour table calls it. */
  function MergeDescriber(colCfg: map<string, string>, informant: MergeInformant): string -> string {
    node => DescribeMerge(node, informant.ParseCommit(node), colCfg)
  }

  /** The first loop: one line per `multi_parent_nodes` entry, written by `describe`. */
  function MergeNodeLines(nodes: seq<string>, describe: string -> string): (lines: seq<string>)
    ensures |lines| == |nodes|
  {
    if nodes == [] then []
    else MergeNodeLines(nodes[..|nodes| - 1], describe) + [describe(nodes[|nodes| - 1])]
  }

  /** One edge line per link, all highlighted or none. */
  function LinkLines(links: seq<CommitLink>, highlight: bool): (lines: seq<string>)
    ensures |lines| == |links|
  {
    if links == [] then []
    else
      var last := links[|links| - 1];
      LinkLines(links[..|links| - 1], highlight) + [DescribeLink(last.parentHash, last.commitHash, highlight)]
  }

  /** The edges from `hash` to each of `children`, in order. */
  function ChildEdges(hash: string, children: seq<string>): seq<CommitLink> {
    if children == [] then []
    else ChildEdges(hash, children[..|children| - 1]) + [CommitLink(hash, children[|children| - 1])]
  }

  /** The third loop's edges: for each entry in dict order, from its `.hash` to each of its children. */
  function OpcEdges(keys: seq<string>, e: map<string, Opc>): seq<CommitLink> {
    if keys == [] then []
    else
      var k := keys[|keys| - 1];
      OpcEdges(keys[..|keys| - 1], e) + (if k in e then ChildEdges(e[k].hash, e[k].child) else [])
  }

  /** Everything `print_translation` prints, given the analyser's lists and dict. */
  function Translation(nodes: seq<string>, links: seq<CommitLink>, t: Table, describe: string -> string): (lines: seq<string>)
    ensures |lines| == 6 + |nodes| + |links| + |OpcEdges(t.keys, t.entries)|
  {
    Header + MergeNodeLines(nodes, describe) + [""] + LinkLines(links, false) + [""]
      + LinkLines(OpcEdges(t.keys, t.entries), true) + [Footer]
  }

  // --- the line functions, element by element ------------------------------

  lemma {:induction false} MergeNodeLinesAt(nodes: seq<string>, describe: string -> string)
    ensures forall i :: 0 <= i < |nodes| ==> MergeNodeLines(nodes, describe)[i] == describe(nodes[i])
  {
    if nodes != [] {
      var init := nodes[..|nodes| - 1];
      MergeNodeLinesAt(init, describe);
      forall i | 0 <= i < |init| ensures init[i] == nodes[i] {
      }
    }
  }

  lemma {:induction false} LinkLinesAt(links: seq<CommitLink>, highlight: bool)
    ensures forall i :: 0 <= i < |links| ==>
              LinkLines(links, highlight)[i] == DescribeLink(links[i].parentHash, links[i].commitHash, highlight)
  {
    if links != [] {
      var init := links[..|links| - 1];
      LinkLinesAt(init, highlight);
      forall i | 0 <= i < |init| ensures init[i] == links[i] {
      }
    }
  }

  lemma {:induction false} LinkLinesAppend(a: seq<CommitLink>, b: seq<CommitLink>, highlight: bool)
    ensures LinkLines(a + b, highlight) == LinkLines(a, highlight) + LinkLines(b, highlight)
    decreases |b|
  {
    if b == [] {
      assert a + b == a;
    } else {
      var init := b[..|b| - 1];
      assert (a + b)[..|a + b| - 1] == a + init;
      assert (a + b)[|a + b| - 1] == b[|b| - 1];
      LinkLinesAppend(a, init, highlight);
    }
  }

  /** The edges from one entry are one per child, in order. */
  lemma {:induction false} ChildEdgesAt(hash: string, children: seq<string>)
    ensures |ChildEdges(hash, children)| == |children|
    ensures forall i :: 0 <= i < |children| ==> ChildEdges(hash, children)[i] == CommitLink(hash, children[i])
  {
    if children != [] {
      var init := children[..|children| - 1];
      ChildEdgesAt(hash, init);
      forall i | 0 <= i < |init| ensures init[i] == children[i] {
      }
    }
  }

  /** The third loop prints one edge per child held in the dict. */
  lemma {:induction false} OpcEdgesCount(keys: seq<string>, e: map<string, Opc>)
    ensures |OpcEdges(keys, e)| == SumChildren(keys, e)
  {
    if keys != [] {
      var init := keys[..|keys| - 1];
      var k := keys[|keys| - 1];
      OpcEdgesCount(init, e);
      if k in e {
        ChildEdgesAt(e[k].hash, e[k].child);
      }
      SumAppend(init, e, k);
      assert init + [k] == keys;
    }
  }

  /** With every `.hash` its own key, the highlighted edges are exactly the dict's parent-to-child pairs. */
  lemma {:induction false} OpcEdgesMembers(keys: seq<string>, e: map<string, Opc>, link: CommitLink)
    requires forall k :: k in e ==> e[k].hash == k
    ensures link in OpcEdges(keys, e) <==>
              link.parentHash in keys && link.parentHash in e && link.commitHash in e[link.parentHash].child
  {
    if keys != [] {
      var init := keys[..|keys| - 1];
      var k := keys[|keys| - 1];
      OpcEdgesMembers(init, e, link);
      assert keys == init + [k];
      if k in e {
        ChildEdgesAt(e[k].hash, e[k].child);
        var edges := ChildEdges(e[k].hash, e[k].child);
        if link in edges {
          var i :| 0 <= i < |edges| && edges[i] == link;
          assert link.commitHash == e[k].child[i];
        }
        if link.parentHash == k && link.commitHash in e[k].child {
          var i :| 0 <= i < |e[k].child| && e[k].child[i] == link.commitHash;
          assert edges[i] == link;
        }
      }
    }
  }

  /**
   * For a log read into a fresh analyser, the highlighted edges are exactly
   * the parent-to-child pairs of the condensed dict, whether or not the
   * condensing pass raised.
   */
  lemma HighlightedEdgesOfLog(records: seq<Record>, link: CommitLink)
    ensures WellFormed(Gather(EmptyTable, records))
    ensures var t := Condense(Gather(EmptyTable, records)).table;
            link in OpcEdges(t.keys, t.entries) <==>
              link.parentHash in t.entries && link.commitHash in t.entries[link.parentHash].child
  {
    var g := Gather(EmptyTable, records);
    GatherCountsSingleParents(records);
    CondenseKeepsHashes(g, OneChildKeys(g.keys, g.entries));
    var t := Condense(g).table;
    OpcEdgesMembers(t.keys, t.entries, link);
  }

  /**
   * The frame of the printed lines: the header, a blank line after the merge
   * nodes and after the plain edges, and the closing brace; between them one
   * line per merge node, per merge link and per child held in the dict.
   */
  lemma TranslationFrame(nodes: seq<string>, links: seq<CommitLink>, t: Table, describe: string -> string)
    ensures var lines := Translation(nodes, links, t, describe);
            var n, m := |nodes|, |links|;
            && |lines| == 6 + n + m + TotalChildren(t)
            && lines[..3] == Header
            && lines[3 + n] == ""
            && lines[4 + n + m] == ""
            && lines[|lines| - 1] == Footer
  {
    var edges := OpcEdges(t.keys, t.entries);
    FramedThree(Header, MergeNodeLines(nodes, describe), "", LinkLines(links, false), "", LinkLines(edges, true), Footer);
    OpcEdgesCount(t.keys, t.entries);
  }

  /** The merge nodes: one line per `multi_parent_nodes` entry, in order, after the header. */
  lemma MergeNodeSection(nodes: seq<string>, links: seq<CommitLink>, t: Table, describe: string -> string)
    ensures var lines := Translation(nodes, links, t, describe);
            forall i :: 0 <= i < |nodes| ==> lines[3 + i] == describe(nodes[i])
  {
    var edges := OpcEdges(t.keys, t.entries);
    FramedThree(Header, MergeNodeLines(nodes, describe), "", LinkLines(links, false), "", LinkLines(edges, true), Footer);
    MergeNodeLinesAt(nodes, describe);
  }

  /** The plain edges: one line per `merge_links` entry, in order, from its parent to its child. */
  lemma PlainEdgeSection(nodes: seq<string>, links: seq<CommitLink>, t: Table, describe: string -> string)
    ensures var lines := Translation(nodes, links, t, describe);
            forall j :: 0 <= j < |links| ==>
              lines[4 + |nodes| + j] == DescribeLink(links[j].parentHash, links[j].commitHash, false)
  {
    var edges := OpcEdges(t.keys, t.entries);
    FramedThree(Header, MergeNodeLines(nodes, describe), "", LinkLines(links, false), "", LinkLines(edges, true), Footer);
    LinkLinesAt(links, false);
  }

  /** The highlighted edges: one line per entry of `OpcEdges`, in order, from its parent to its child. */
  lemma HighlightedSection(nodes: seq<string>, links: seq<CommitLink>, t: Table, describe: string -> string)
    ensures var lines := Translation(nodes, links, t, describe);
            var edges := OpcEdges(t.keys, t.entries);
            forall k :: 0 <= k < |edges| ==>
              lines[5 + |nodes| + |links| + k] == DescribeLink(edges[k].parentHash, edges[k].commitHash, true)
  {
    var edges := OpcEdges(t.keys, t.entries);
    FramedThree(Header, MergeNodeLines(nodes, describe), "", LinkLines(links, false), "", LinkLines(edges, true), Footer);
    LinkLinesAt(edges, true);
  }

  // ---------------------------------------------------------------------
  // The translator
  // ---------------------------------------------------------------------

  class DotTranslator {
    const graphAna: GraphAnalyser
    const mergeInform: MergeInformant
    /** `col_cfg`: the branch colour table, `DefaultColours` without a config file. */
    const colCfg: map<string, string>

    ghost predicate Valid()
      reads this, graphAna, graphAna.onePcs.Values
    {
      graphAna.Valid()
    }

    constructor (informant: MergeInformant, colours: map<string, string>)
      ensures Valid() && fresh(graphAna)
      ensures graphAna.table == EmptyTable && graphAna.mergeLinks == [] && graphAna.multiParentNodes == []
      ensures mergeInform == informant && colCfg == colours
    {
      graphAna := new GraphAnalyser();
      mergeInform := informant;
      colCfg := colours;
    }

    /**
     * `parse_stdin`: every line is parsed before any is processed, so a
     * refused line leaves the analyser as it was; otherwise the records are
     * processed, and a `KeyError` of the condensing pass is reported.
     */
    method ParseStdin(stdin: seq<string>) returns (err: Option<StdinError>)
      requires Valid()
      modifies graphAna, graphAna.Repr
      ensures Valid()
      ensures ParseAll(stdin, ParseLine).Failure? ==>
                err == Some(ParseAll(stdin, ParseLine).error) && unchanged(graphAna) && unchanged(old(graphAna.Repr))
      ensures ParseAll(stdin, ParseLine).Success? ==>
                var records := ParseAll(stdin, ParseLine).value;
                WellFormed(Gather(old(graphAna.table), records))
                && var c := Condense(Gather(old(graphAna.table), records));
                && graphAna.mergeLinks == old(graphAna.mergeLinks) + MergeLinksOf(records)
                && graphAna.multiParentNodes == old(graphAna.multiParentNodes) + MultiParentChildren(records)
                && graphAna.table == c.table
                && err == (if c.keyError.Some? then Some(MissingKey(c.keyError.value)) else None)
    {
      var records: seq<Record> := [];
      var i := 0;
      while i < |stdin|
        invariant 0 <= i <= |stdin|
        invariant ParseAll(stdin[..i], ParseLine) == Success(records)
      {
        assert stdin[..i + 1][..i] == stdin[..i];
        match ParseLine(stdin[i])
        case Failure(e) =>
          ParseAllFailureSticks(stdin, ParseLine, i + 1);
          return Some(BadLine(i, e));
        case Success(r) =>
          records := records + [r];
        i := i + 1;
      }
      assert stdin[..i] == stdin;
      var keyError := graphAna.Process(records);
      err := if keyError.Some? then Some(MissingKey(keyError.value)) else None;
    }

    /** `print_translation` */
    method PrintTranslation() returns (lines: seq<string>)
      requires Valid()
      ensures lines == Translation(graphAna.multiParentNodes, graphAna.mergeLinks, graphAna.table,
                                   MergeDescriber(colCfg, mergeInform))
    {
      lines := EmitTranslation(MergeDescriber(colCfg, mergeInform));
    }

    /** The three loops and the framing lines, with `describe` for `describe_merge_commit_in_dot`. */
    method EmitTranslation(describe: string -> string) returns (lines: seq<string>)
      requires Valid()
      ensures lines == Translation(graphAna.multiParentNodes, graphAna.mergeLinks, graphAna.table, describe)
    {
      lines := Header;
      var nodeLines := EmitMergeNodes(graphAna.multiParentNodes, describe);
      var linkLines := EmitLinks(graphAna.mergeLinks);
      var opcLines := EmitOpcEdges();
      lines := lines + nodeLines + [""] + linkLines + [""] + opcLines + [Footer];
    }

    /** The first loop, with `describe` for `describe_merge_commit_in_dot`. */
    method EmitMergeNodes(nodes: seq<string>, describe: string -> string) returns (lines: seq<string>)
      ensures lines == MergeNodeLines(nodes, describe)
    {
      lines := [];
      var i := 0;
      while i < |nodes|
        invariant 0 <= i <= |nodes|
        invariant lines == MergeNodeLines(nodes[..i], describe)
      {
        assert nodes[..i + 1][..i] == nodes[..i];
        lines := lines + [describe(nodes[i])];
        i := i + 1;
      }
      assert nodes[..i] == nodes;
    }

    /** The second loop: plain edges. */
    method EmitLinks(links: seq<CommitLink>) returns (lines: seq<string>)
      ensures lines == LinkLines(links, false)
    {
      lines := [];
      var i := 0;
      while i < |links|
        invariant 0 <= i <= |links|
        invariant lines == LinkLines(links[..i], false)
      {
        assert links[..i + 1][..i] == links[..i];
        lines := lines + [DescribeLink(links[i].parentHash, links[i].commitHash, false)];
        i := i + 1;
      }
      assert links[..i] == links;
    }

    /** The third loop, over `one_parent_commits.values()` in dict order. */
    method EmitOpcEdges() returns (lines: seq<string>)
      requires Valid()
      ensures lines == LinkLines(OpcEdges(graphAna.table.keys, graphAna.table.entries), true)
    {
      var keys := graphAna.keys;
      ghost var e := graphAna.table.entries;
      lines := [];
      var i := 0;
      while i < |keys|
        invariant 0 <= i <= |keys|
        invariant lines == LinkLines(OpcEdges(keys[..i], e), true)
      {
        var k := keys[i];
        assert k in graphAna.onePcs;
        var opc := graphAna.onePcs[k];
        var childLines := EmitChildEdges(opc.hash, opc.child);
        assert keys[..i + 1][..i] == keys[..i];
        LinkLinesAppend(OpcEdges(keys[..i], e), ChildEdges(opc.hash, opc.child), true);
        lines := lines + childLines;
        i := i + 1;
      }
      assert keys[..i] == keys;
    }

    /** The inner loop: one highlighted edge per child of one entry. */
    method EmitChildEdges(hash: string, children: seq<string>) returns (lines: seq<string>)
      ensures lines == LinkLines(ChildEdges(hash, children), true)
    {
      lines := [];
      var j := 0;
      while j < |children|
        invariant 0 <= j <= |children|
        invariant lines == LinkLines(ChildEdges(hash, children[..j]), true)
      {
        assert children[..j + 1][..j] == children[..j];
        lines := lines + [DescribeLink(hash, children[j], true)];
        j := j + 1;
      }
      assert children[..j] == children;
    }
  }
}
