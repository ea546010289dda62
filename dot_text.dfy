/**
 * The Graphviz text both dot translators write: `describe_commit_in_dot`,
 * `describe_link_in_dot` and `describe_merge_commit_in_dot`. The helpers are
 * word for word the same in dot_translator.py and
 * utils/graph/dot_translator.py, so they are defined once here.
 *
 * A node or edge line is specified by a reader that takes the line apart
 * again; a line and its fields determine each other (`ReadCommit`,
 * `ReadLink`). Strings are built right-nested, one piece per level.
 */
module DotText {
  import opened Wrappers
  import opened PyStr
  import opened MergeCommitInformant

  const NodeIndent: string := "    _"
  const FillOpen: string := " [fillcolor=\""
  /** The closing quote and bracket of an attribute list. */
  const AttrClose: string := "\"]"
  const LinkArrow: string := " -> _"
  const HighlightAttr: string := " [style=\"dashed, bold\", color=\"red\"]"
  const LabelOpen: string := ", label=\""
  /** Graphviz's escaped line break: a backslash and an `n`, not a newline character. */
  const LineBreak: string := "\\n"
  const SrcText: string := "src: "
  const DstText: string := "\\ndst: "

  /** `fillcolor` when no colour is configured for the merge's destination. */
  const DefaultFill: string := "yellow"

  /** `col_cfg` when there is no `branch_colours.json`. */
  const DefaultColours: map<string, string> := map["main" := "red"]

  // ---------------------------------------------------------------------
  // describe_commit_in_dot
  // ---------------------------------------------------------------------

  /** The fill attribute, present only for a non-empty colour (`if fillcolor:`). */
  function FillAttr(fillcolor: string): string {
    if fillcolor != [] then FillOpen + (fillcolor + AttrClose) else []
  }

  /** `describe_commit_in_dot` */
  function DescribeCommit(hash: string, fillcolor: string): string {
    NodeIndent + (hash + FillAttr(fillcolor))
  }

  datatype NodeLine = NodeLine(hash: string, fill: string)

  /** A node line taken apart: its hash, and its colour or `""` when it has no attribute. */
  function ReadCommit(line: string): Option<NodeLine> {
    match DropPrefix(line, NodeIndent)
    case None => None
    case Some(after) =>
      var hash := TakeNonSpace(after);
      var rest := after[|hash|..];
      if rest == [] then Some(NodeLine(hash, []))
      else match DropPrefix(rest, FillOpen)
        case None => None
        case Some(attr) =>
          if |attr| <= |AttrClose| || attr[|attr| - 2..] != AttrClose then None
          else
            var colour := attr[..|attr| - 2];
            if '"' in colour then None else Some(NodeLine(hash, colour))
  }

  /** A word followed by text that starts with a space is taken whole. */
  lemma WordThenSpace(word: string, rest: string)
    requires NoSpace(word) && rest != [] && rest[0] == ' '
    ensures TakeNonSpace(word + rest) == word
    ensures (word + rest)[|word|..] == rest
  {
    TakeNonSpaceAppend(word, rest);
    assert IsSpace(rest[0]);
  }

  /** The reader recovers the hash and the colour of every node line. */
  lemma ReadDescribeCommit(hash: string, fillcolor: string)
    requires NoSpace(hash) && '"' !in fillcolor
    ensures ReadCommit(DescribeCommit(hash, fillcolor)) == Some(NodeLine(hash, fillcolor))
  {
    var after := hash + FillAttr(fillcolor);
    DropPrefixOf(NodeIndent, after);
    if fillcolor == [] {
      TakeNonSpaceAppend(hash, []);
      assert after == hash + [];
    } else {
      var attr := fillcolor + AttrClose;
      WordThenSpace(hash, FillOpen + attr);
      DropPrefixOf(FillOpen, attr);
      assert attr[|attr| - 2..] == AttrClose && attr[..|attr| - 2] == fillcolor;
    }
  }

  /** Whatever the reader accepts is the line written for what it returns. */
  lemma ReadCommitSound(line: string)
    requires ReadCommit(line).Some?
    ensures var n := ReadCommit(line).value;
            DescribeCommit(n.hash, n.fill) == line && NoSpace(n.hash) && '"' !in n.fill
  {
    var n := ReadCommit(line).value;
    var after := DropPrefix(line, NodeIndent).value;
    var rest := after[|n.hash|..];
    assert after == n.hash + rest;
    if rest != [] {
      var attr := DropPrefix(rest, FillOpen).value;
      assert attr == n.fill + AttrClose;
    }
  }

  /** The fill attribute is written exactly when the colour is non-empty. */
  lemma CommitFillIff(hash: string, fillcolor: string)
    ensures DescribeCommit(hash, fillcolor) == NodeIndent + hash <==> fillcolor == []
  {
    if fillcolor != [] {
      assert |DescribeCommit(hash, fillcolor)| > |NodeIndent + hash|;
    }
  }

  // ---------------------------------------------------------------------
  // describe_link_in_dot
  // ---------------------------------------------------------------------

  /** `describe_link_in_dot` */
  function DescribeLink(parent: string, child: string, highlight: bool): string {
    NodeIndent + (parent + (LinkArrow + (child + (if highlight then HighlightAttr else []))))
  }

  datatype LinkLine = LinkLine(parent: string, child: string, highlighted: bool)

  /** An edge line taken apart. */
  function ReadLink(line: string): Option<LinkLine> {
    match DropPrefix(line, NodeIndent)
    case None => None
    case Some(after) =>
      var parent := TakeNonSpace(after);
      match DropPrefix(after[|parent|..], LinkArrow)
      case None => None
      case Some(tail) =>
        var child := TakeNonSpace(tail);
        var rest := tail[|child|..];
        if rest == [] then Some(LinkLine(parent, child, false))
        else if rest == HighlightAttr then Some(LinkLine(parent, child, true))
        else None
  }

  /** The reader recovers both hashes and whether the edge is highlighted. */
  lemma ReadDescribeLink(parent: string, child: string, highlight: bool)
    requires NoSpace(parent) && NoSpace(child)
    ensures ReadLink(DescribeLink(parent, child, highlight)) == Some(LinkLine(parent, child, highlight))
  {
    var rest := if highlight then HighlightAttr else [];
    var tail := child + rest;
    var after := parent + (LinkArrow + tail);
    DropPrefixOf(NodeIndent, after);
    WordThenSpace(parent, LinkArrow + tail);
    DropPrefixOf(LinkArrow, tail);
    if highlight {
      WordThenSpace(child, rest);
    } else {
      TakeNonSpaceAppend(child, []);
      assert tail == child + [];
    }
  }

  /** Whatever the reader accepts is the line written for what it returns. */
  lemma ReadLinkSound(line: string)
    requires ReadLink(line).Some?
    ensures var l := ReadLink(line).value;
            DescribeLink(l.parent, l.child, l.highlighted) == line && NoSpace(l.parent) && NoSpace(l.child)
  {
    var l := ReadLink(line).value;
    var after := DropPrefix(line, NodeIndent).value;
    assert after == l.parent + after[|l.parent|..];
    var tail := DropPrefix(after[|l.parent|..], LinkArrow).value;
    assert tail == l.child + tail[|l.child|..];
  }

  /** The dashed red style is written exactly for a highlighted edge. */
  lemma LinkHighlightIff(parent: string, child: string, highlight: bool)
    ensures DescribeLink(parent, child, highlight) == NodeIndent + (parent + (LinkArrow + child)) <==> !highlight
  {
    if highlight {
      assert |DescribeLink(parent, child, highlight)| > |NodeIndent + (parent + (LinkArrow + child))|;
    } else {
      assert child + [] == child;
    }
  }

  // ---------------------------------------------------------------------
  // describe_merge_commit_in_dot
  // ---------------------------------------------------------------------

  /** The fill of a merge node: the colour configured for its destination branch, else yellow. */
  function MergeFill(dst: Option<string>, colCfg: map<string, string>): string {
    if dst.Some? && dst.value in colCfg then colCfg[dst.value] else DefaultFill
  }

  /** With the default table only merges into `main` are red; all others, and merges of unknown destination, are yellow. */
  lemma DefaultMergeFill(dst: Option<string>)
    ensures MergeFill(dst, DefaultColours) == if dst == Some("main") then "red" else "yellow"
  {
  }

  /** An f-string's rendering of an optional string: Python shows `None` as `None`. */
  function Show(o: Option<string>): string {
    if o.Some? then o.value else "None"
  }

  /** The label after the hash and the line break. */
  function LabelText(info: MergeInfo): string {
    if info.summary.Some? then info.summary.value
    else SrcText + (Show(info.src) + (if info.dst.Some? then DstText + info.dst.value else []))
  }

  /** The label attribute that replaces the commit line's closing bracket. */
  function LabelTail(hash: string, info: MergeInfo): string {
    LabelOpen + (hash + (LineBreak + (LabelText(info) + AttrClose)))
  }

  /** `describe_merge_commit_in_dot`, on the merge's `MergeInfo`. */
  function DescribeMerge(hash: string, info: MergeInfo, colCfg: map<string, string>): string {
    StripChar(DescribeCommit(hash, MergeFill(info.dst, colCfg)), ']') + LabelTail(hash, info)
  }

  /** `s` ends with the closing `"]` of an attribute list. */
  predicate ClosesList(s: string) {
    |s| >= |AttrClose| && s[|s| - |AttrClose|..] == AttrClose
  }

  /** Whatever the fill and the label, a merge line ends with the closing `"]`. */
  lemma MergeLineCloses(hash: string, info: MergeInfo, colCfg: map<string, string>)
    ensures ClosesList(DescribeMerge(hash, info, colCfg))
  {
    TailCloses(hash, LabelText(info));
    KeepsEnd(StripChar(DescribeCommit(hash, MergeFill(info.dst, colCfg)), ']'), LabelTail(hash, info));
  }

  /** The label attribute ends with the closing `"]`. */
  lemma TailCloses(hash: string, text: string)
    ensures ClosesList(LabelOpen + (hash + (LineBreak + (text + AttrClose))))
  {
    assert ClosesList(AttrClose);
    KeepsEnd(text, AttrClose);
    KeepsEnd(LineBreak, text + AttrClose);
    KeepsEnd(hash, LineBreak + (text + AttrClose));
    KeepsEnd(LabelOpen, hash + (LineBreak + (text + AttrClose)));
  }

  /** Text put in front of a line does not change how it ends. */
  lemma KeepsEnd(a: string, b: string)
    requires ClosesList(b)
    ensures ClosesList(a + b)
  {
    assert (a + b)[|a + b| - |AttrClose|..] == b[|b| - |AttrClose|..];
  }

  /**
   * With a non-empty fill, stripping `]` takes exactly the fill attribute's
   * closing bracket, and the label joins the fill's attribute list.
   */
  lemma MergeLineShape(hash: string, info: MergeInfo, colCfg: map<string, string>)
    requires MergeFill(info.dst, colCfg) != []
    ensures DescribeMerge(hash, info, colCfg)
            == NodeIndent + (hash + (FillOpen + (MergeFill(info.dst, colCfg) + ("\"" + LabelTail(hash, info)))))
  {
    var fill := MergeFill(info.dst, colCfg);
    var body := NodeIndent + (hash + (FillOpen + (fill + "\"")));
    var node := DescribeCommit(hash, fill);
    assert node == body + "]";
    assert StripCharLeft(node, ']') == node;
    assert node[..|node| - 1] == body;
    assert StripCharRight(node, ']') == body;
    Assoc(fill, "\"", LabelTail(hash, info));
    Assoc(FillOpen, fill + "\"", LabelTail(hash, info));
    Assoc(hash, FillOpen + (fill + "\""), LabelTail(hash, info));
    Assoc(NodeIndent, hash + (FillOpen + (fill + "\"")), LabelTail(hash, info));
  }

  /**
   * A colour table that maps the destination to `""` writes no fill
   * attribute, and the label then follows the hash itself, less any `]` the
   * hash ends with.
   */
  lemma MergeLineWithoutFill(hash: string, info: MergeInfo, colCfg: map<string, string>)
    requires MergeFill(info.dst, colCfg) == []
    requires hash == [] || hash[|hash| - 1] != ']'
    ensures DescribeMerge(hash, info, colCfg) == NodeIndent + (hash + LabelTail(hash, info))
  {
    var node := DescribeCommit(hash, []);
    assert hash + [] == hash;
    assert node == NodeIndent + hash;
    StripUnbracketed(node);
    Assoc(NodeIndent, hash, LabelTail(hash, info));
  }

  /** A line that neither starts nor ends with `]` is left as it is by `strip(']')`. */
  lemma StripUnbracketed(s: string)
    requires s != [] && s[0] != ']' && s[|s| - 1] != ']'
    ensures StripChar(s, ']') == s
  {
    assert StripCharLeft(s, ']') == s;
  }

  /** A parsed merge message labels the node with its summary when no pattern matched, otherwise with its branches. */
  lemma LabelOfParsed(summary: string, prLookup: Option<nat -> string>)
    ensures var info := ParseMergeMessage(summary, prLookup);
            LabelText(info)
            == if info.summary.Some? then summary
               else SrcText + (info.src.value + (if info.dst.Some? then DstText + info.dst.value else []))
  {
  }

  /** A local or remote-tracking merge into `main` is drawn red with the default table, labelled with both branches. */
  lemma MergeIntoMainLine(hash: string, prefix: string, src: string, rest: string, prLookup: Option<nat -> string>)
    requires prefix == LocalPrefix || prefix == RemotePrefix
    requires src != [] && NoSpace(src)
    requires rest == [] || IsSpace(rest[0])
    ensures var info := ParseMergeMessage(prefix + (src + (Quote + (IntoText + ("main" + rest)))), prLookup);
            DescribeMerge(hash, info, DefaultColours)
            == NodeIndent + (hash + (FillOpen + ("red" + ("\"" + (LabelOpen + (hash + (LineBreak
               + (SrcText + (src + (DstText + ("main" + AttrClose)))))))))))
  {
    ParseBranchMerge(prefix, src, "main", rest, prLookup);
    BranchesIntoMainLine(hash, src);
  }

  /** The line for a merge of `src` into `main`, with the default table. */
  lemma BranchesIntoMainLine(hash: string, src: string)
    ensures DescribeMerge(hash, MergeInfo(Some(src), Some("main"), None), DefaultColours)
            == NodeIndent + (hash + (FillOpen + ("red" + ("\"" + (LabelOpen + (hash + (LineBreak
               + (SrcText + (src + (DstText + ("main" + AttrClose)))))))))))
  {
    var info := MergeInfo(Some(src), Some("main"), None);
    MergeLineShape(hash, info, DefaultColours);
    Assoc(src, DstText + "main", AttrClose);
    Assoc(DstText, "main", AttrClose);
    Assoc(SrcText, src + (DstText + "main"), AttrClose);
  }
}
