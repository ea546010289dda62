/**
 * The dictionary-based commit-graph analyser: parsing one `%p -> %h` log
 * record, grouping single-parent edges by parent, recording merge commits
 * and their links, and condensing runs of single-child entries.
 *
 * `one_parent_commits` is a Python dict, whose iteration order is insertion
 * order; that order decides which keys the condensing pass visits first, so
 * the model keeps it (`Table.keys`, `GraphAnalyser.keys`).
 */
module GraphAnalysis {
  import opened Wrappers
  import opened PyStr
  import opened Seqs

  // ---------------------------------------------------------------------
  // One log record
  // ---------------------------------------------------------------------

  /** The three messages `ParsedLine.__init__` raises. */
  datatype ParseError = MissingArrow | ExtraArrow | SeveralChildren

  datatype ParsedLine = ParsedLine(parents: seq<string>, child: string) {
    /** `is_multi_parent` */
    predicate IsMultiParent() {
      |parents| > 1
    }

    /** The links a merge record appends to `merge_links`; none for a single-parent record. */
    function Links(): seq<CommitLink> {
      if IsMultiParent() then LinksOf(parents, child) else []
    }

    /** The node a merge record appends to `multi_parent_nodes`. */
    function MergeNodes(): seq<string> {
      if IsMultiParent() then [child] else []
    }
  }

  /** A record as `ParsedLine.__init__` leaves it: `str.split` always yields at least one parent field. */
  type Record = line: ParsedLine | |line.parents| >= 1 witness ParsedLine([""], "")

  const Arrow: string := "->"

  /** `ParsedLine.__init__`: a raised exception becomes a `Failure`. */
  function ParseLine(line: string): (r: Result<Record, ParseError>)
    ensures r.Success? ==> ' ' !in r.value.child
  {
    if !Contains(line, Arrow) then Failure(MissingArrow)
    else
      var lhsRhs := Split(Strip(line), Arrow);
      if |lhsRhs| != 2 then Failure(ExtraArrow)
      else if ' ' in Strip(lhsRhs[1]) then Failure(SeveralChildren)
      else Success(ParsedLine(Split(Strip(lhsRhs[0]), " "), Strip(lhsRhs[1])))
  }

  lemma ContainsOneChar(s: string, c: char)
    ensures Contains(s, [c]) <==> c in s
  {
    if c in s {
      var i :| 0 <= i < |s| && s[i] == c;
      assert s[i..i + 1] == [c];
      assert OccursAt(s, [c], i);
    }
    if Contains(s, [c]) {
      var i: nat :| OccursAt(s, [c], i);
      assert OccursAt(s, [c], i);
      assert s[i..i + 1][0] == s[i];
    }
  }

  /**
   * The three rejections: no `->` at all, two or more `->` (the trimmed line
   * splits into more than two parts), or a space in the trimmed right side.
   */
  lemma ParseLineRejects(line: string)
    ensures ParseLine(line) == Failure(MissingArrow) <==> !Contains(line, Arrow)
    ensures ParseLine(line) == Failure(ExtraArrow) <==> |Split(Strip(line), Arrow)| > 2
    ensures ParseLine(line) == Failure(SeveralChildren) <==>
              |Split(Strip(line), Arrow)| == 2 && ' ' in Strip(Split(Strip(line), Arrow)[1])
  {
    ContainsStrip(line, Arrow);
    SplitSingleIff(Strip(line), Arrow);
  }

  /**
   * An accepted record is rebuilt from its parts: the trimmed line is
   * `lhs -> rhs` with a single arrow, the parents joined by single spaces are
   * the trimmed left side, no parent contains a space, and the child is the
   * trimmed right side.
   */
  lemma ParseLineAccepts(line: string)
    requires ParseLine(line).Success?
    ensures var pl := ParseLine(line).value;
            var parts := Split(Strip(line), Arrow);
            && |parts| == 2
            && Strip(line) == parts[0] + Arrow + parts[1]
            && !Contains(parts[0], Arrow) && !Contains(parts[1], Arrow)
            && Join(pl.parents, " ") == Strip(parts[0])
            && (forall k :: 0 <= k < |pl.parents| ==> ' ' !in pl.parents[k])
            && pl.child == Strip(parts[1])
  {
    var pl := ParseLine(line).value;
    var parts := Split(Strip(line), Arrow);
    JoinSplit(Strip(line), Arrow);
    SplitPiecesFree(Strip(line), Arrow);
    assert Join(parts, Arrow) == parts[0] + Arrow + parts[1];
    JoinSplit(Strip(parts[0]), " ");
    SplitPiecesFree(Strip(parts[0]), " ");
    forall k | 0 <= k < |pl.parents| ensures ' ' !in pl.parents[k] {
      ContainsOneChar(pl.parents[k], ' ');
    }
  }

  /** `is_multi_parent` holds exactly when the trimmed left side has a space in it. */
  lemma MultiParentIffSpace(line: string)
    requires ParseLine(line).Success?
    ensures ParseLine(line).value.IsMultiParent() <==> ' ' in Strip(Split(Strip(line), Arrow)[0])
  {
    var lhs := Strip(Split(Strip(line), Arrow)[0]);
    SplitSingleIff(lhs, " ");
    ContainsOneChar(lhs, ' ');
  }

  /** The fields of an accepted record, read off the trimmed line's two sides. */
  lemma ParseLineFields(line: string)
    requires ParseLine(line).Success?
    ensures |Split(Strip(line), Arrow)| == 2
    ensures ParseLine(line).value.parents == Split(Strip(Split(Strip(line), Arrow)[0]), " ")
    ensures ParseLine(line).value.child == Strip(Split(Strip(line), Arrow)[1])
  {
  }

  /** A root commit (nothing left of the arrow once trimmed) has the single empty parent token. */
  lemma RootCommitHasEmptyParent(line: string)
    requires ParseLine(line).Success? && Strip(Split(Strip(line), Arrow)[0]) == ""
    ensures ParseLine(line).value.parents == [""]
  {
    ParseLineFields(line);
    assert FindFrom("", " ", 0) == None;
  }

  /** Two spaces in a row between parents leave an empty parent token between them. */
  lemma DoubledSpaceParents(line: string, a: string, b: string)
    requires ParseLine(line).Success? && Strip(Split(Strip(line), Arrow)[0]) == a + "  " + b
    ensures ParseLine(line).value.parents == Split(a, " ") + [""] + Split(b, " ")
  {
    ParseLineFields(line);
    DoubledSeparator(a, ' ', b);
  }

  // ---------------------------------------------------------------------
  // Values of the analyser's state
  // ---------------------------------------------------------------------

  datatype CommitLink = CommitLink(parentHash: string, commitHash: string)

  /** What one `OneParentCommit` object holds. */
  datatype Opc = Opc(hash: string, child: seq<string>)

  /** A value of `one_parent_commits`: its keys in dict order and its entries. */
  datatype Table = Table(keys: seq<string>, entries: map<string, Opc>)

  const EmptyTable := Table([], map[])

  ghost predicate WellFormed(t: Table) {
    && Distinct(t.keys)
    && (forall k :: k in t.entries <==> k in t.keys)
    && (forall k :: k in t.entries ==> t.entries[k].child != [])
  }

  /** Every entry's `.hash` is its own key. */
  ghost predicate HashesMatchKeys(t: Table) {
    forall k :: k in t.entries ==> t.entries[k].hash == k
  }

  function ChildCount(e: map<string, Opc>, k: string): nat {
    if k in e then |e[k].child| else 0
  }

  function SumChildren(keys: seq<string>, e: map<string, Opc>): nat {
    if keys == [] then 0 else ChildCount(e, keys[0]) + SumChildren(keys[1..], e)
  }

  /** The number of child hashes held in the whole table. */
  function TotalChildren(t: Table): nat {
    SumChildren(t.keys, t.entries)
  }

  /** `d.pop(k)` */
  function Pop(t: Table, k: string): Table {
    Table(Remove(t.keys, k), t.entries - {k})
  }

  /** `d[k] = v`: an existing key keeps its place, a new key goes last. */
  function Put(t: Table, k: string, v: Opc): Table {
    Table(if k in t.entries then t.keys else t.keys + [k], t.entries[k := v])
  }

  lemma PopWellFormed(t: Table, k: string)
    requires WellFormed(t)
    ensures WellFormed(Pop(t, k))
    ensures k in t.entries ==> |Pop(t, k).keys| == |t.keys| - 1
  {
    RemoveDistinct(t.keys, k);
  }

  lemma PutWellFormed(t: Table, k: string, v: Opc)
    requires WellFormed(t) && v.child != []
    ensures WellFormed(Put(t, k, v))
  {
    if k !in t.entries {
      AppendDistinct(t.keys, k);
    }
  }

  // --- sums over the keys --------------------------------------------------

  lemma {:induction false} SumAgree(keys: seq<string>, e1: map<string, Opc>, e2: map<string, Opc>)
    requires forall k :: k in keys ==> ChildCount(e1, k) == ChildCount(e2, k)
    ensures SumChildren(keys, e1) == SumChildren(keys, e2)
  {
    if keys != [] {
      assert keys[0] in keys;
      SumAgree(keys[1..], e1, e2);
    }
  }

  lemma {:induction false} SumAppend(keys: seq<string>, e: map<string, Opc>, k: string)
    ensures SumChildren(keys + [k], e) == SumChildren(keys, e) + ChildCount(e, k)
  {
    if keys != [] {
      assert (keys + [k])[1..] == keys[1..] + [k];
      SumAppend(keys[1..], e, k);
    } else {
      assert ([] + [k])[1..] == [];
    }
  }

  lemma {:induction false} SumRemove(keys: seq<string>, e: map<string, Opc>, k: string)
    requires Distinct(keys) && k in keys
    ensures SumChildren(Remove(keys, k), e) + ChildCount(e, k) == SumChildren(keys, e)
  {
    assert Distinct(keys[1..]) by {
      forall i, j | 0 <= i < j < |keys[1..]| ensures keys[1..][i] != keys[1..][j] {
        assert keys[1..][i] == keys[i + 1] && keys[1..][j] == keys[j + 1];
      }
    }
    if keys[0] == k {
      assert k !in keys[1..] by {
        forall j | 0 <= j < |keys[1..]| ensures keys[1..][j] != k {
          assert keys[1..][j] == keys[j + 1];
        }
      }
      RemoveAbsent(keys[1..], k);
      assert Remove(keys, k) == keys[1..];
    } else {
      SumRemove(keys[1..], e, k);
      assert Remove(keys, k) == [keys[0]] + Remove(keys[1..], k);
      assert ([keys[0]] + Remove(keys[1..], k))[1..] == Remove(keys[1..], k);
    }
  }

  lemma {:induction false} SumReplace(keys: seq<string>, e: map<string, Opc>, k: string, v: Opc)
    requires Distinct(keys) && k in keys
    ensures SumChildren(keys, e[k := v]) + ChildCount(e, k) == SumChildren(keys, e) + |v.child|
  {
    SumRemove(keys, e, k);
    SumRemove(keys, e[k := v], k);
    SumAgree(Remove(keys, k), e, e[k := v]);
  }

  // ---------------------------------------------------------------------
  // process(): the gathering loop
  // ---------------------------------------------------------------------

  /** What one single-parent record does to `one_parent_commits`. */
  function AddLine(t: Table, line: Record): (r: Table)
    ensures line.IsMultiParent() ==> r == t
    ensures forall k :: k in r.entries <==> k in t.entries || (!line.IsMultiParent() && k == line.parents[0])
    ensures forall k :: k in t.entries && (line.IsMultiParent() || k != line.parents[0]) ==> r.entries[k] == t.entries[k]
    ensures !line.IsMultiParent() ==>
              var p := line.parents[0];
              && r.entries[p].child == (if p in t.entries then t.entries[p].child else []) + [line.child]
              && (p in t.entries ==> r.entries[p].hash == t.entries[p].hash)
  {
    if line.IsMultiParent() then t
    else
      var parent := line.parents[0];
      if parent in t.entries
      then Put(t, parent, Opc(t.entries[parent].hash, t.entries[parent].child + [line.child]))
      else Put(t, parent, Opc(parent, [line.child]))
  }

  /** `one_parent_commits` after the gathering loop of `process` has seen `lines`. */
  function Gather(t: Table, lines: seq<Record>): (r: Table)
    ensures forall k :: k in t.entries ==> k in r.entries && r.entries[k].hash == t.entries[k].hash
    ensures forall k :: k in t.entries ==> t.entries[k].child <= r.entries[k].child
  {
    if lines == [] then t
    else AddLine(Gather(t, lines[..|lines| - 1]), lines[|lines| - 1])
  }

  /** The links recorded for one merge record, in parent order. */
  function LinksOf(parents: seq<string>, child: string): seq<CommitLink> {
    if parents == [] then []
    else LinksOf(parents[..|parents| - 1], child) + [CommitLink(parents[|parents| - 1], child)]
  }

  /** `merge_links` appended by the gathering loop. */
  function MergeLinksOf(lines: seq<Record>): seq<CommitLink> {
    if lines == [] then []
    else
      var last := lines[|lines| - 1];
      MergeLinksOf(lines[..|lines| - 1]) + last.Links()
  }

  /** `multi_parent_nodes` appended by the gathering loop. */
  function MultiParentChildren(lines: seq<Record>): seq<string> {
    if lines == [] then []
    else
      var last := lines[|lines| - 1];
      MultiParentChildren(lines[..|lines| - 1]) + last.MergeNodes()
  }

  function CountSingleParent(lines: seq<Record>): nat {
    if lines == [] then 0
    else CountSingleParent(lines[..|lines| - 1]) + (if lines[|lines| - 1].IsMultiParent() then 0 else 1)
  }

  /** The children of single-parent records whose parent is `p`, in input order. */
  function ChildrenOf(lines: seq<Record>, p: string): seq<string>
  {
    if lines == [] then []
    else
      var last := lines[|lines| - 1];
      ChildrenOf(lines[..|lines| - 1], p) + (if !last.IsMultiParent() && last.parents[0] == p then [last.child] else [])
  }

  /** The first parents of the single-parent records, in input order, repeats included. */
  function FirstParents(lines: seq<Record>): seq<string>
  {
    if lines == [] then []
    else
      var last := lines[|lines| - 1];
      FirstParents(lines[..|lines| - 1]) + (if last.IsMultiParent() then [] else [last.parents[0]])
  }

  /** The gathering functions after one more record. */
  lemma GatherStep(t: Table, lines: seq<Record>, i: nat)
    requires i < |lines|
    ensures Gather(t, lines[..i + 1]) == AddLine(Gather(t, lines[..i]), lines[i])
    ensures MergeLinksOf(lines[..i + 1]) ==
              MergeLinksOf(lines[..i]) + lines[i].Links()
    ensures MultiParentChildren(lines[..i + 1]) ==
              MultiParentChildren(lines[..i]) + lines[i].MergeNodes()
  {
    assert lines[..i + 1][..i] == lines[..i];
    assert lines[..i + 1][i] == lines[i];
  }

  /** One record keeps the table well formed, keeps `hash == key`, and adds one child iff single-parent. */
  lemma AddLineFacts(t: Table, line: Record)
    requires WellFormed(t)
    ensures WellFormed(AddLine(t, line))
    ensures HashesMatchKeys(t) ==> HashesMatchKeys(AddLine(t, line))
    ensures TotalChildren(AddLine(t, line)) == TotalChildren(t) + (if line.IsMultiParent() then 0 else 1)
  {
    if !line.IsMultiParent() {
      var parent := line.parents[0];
      if parent in t.entries {
        var v := Opc(t.entries[parent].hash, t.entries[parent].child + [line.child]);
        PutWellFormed(t, parent, v);
        SumReplace(t.keys, t.entries, parent, v);
      } else {
        var v := Opc(parent, [line.child]);
        PutWellFormed(t, parent, v);
        SumAgree(t.keys, t.entries, t.entries[parent := v]);
        SumAppend(t.keys, t.entries[parent := v], parent);
      }
    }
  }

  /**
   * Gathering keeps the table well formed and `hash == key`, and adds one
   * child hash per single-parent record.
   */
  lemma {:induction false} GatherFacts(t: Table, lines: seq<Record>)
    requires WellFormed(t)
    ensures WellFormed(Gather(t, lines))
    ensures HashesMatchKeys(t) ==> HashesMatchKeys(Gather(t, lines))
    ensures TotalChildren(Gather(t, lines)) == TotalChildren(t) + CountSingleParent(lines)
  {
    if lines != [] {
      var init := lines[..|lines| - 1];
      GatherFacts(t, init);
      AddLineFacts(Gather(t, init), lines[|lines| - 1]);
    }
  }

  /**
   * From an empty dict, every key is the first parent of some single-parent
   * record, and its entry holds exactly that parent's children in input order.
   */
  lemma {:induction false} GatherChildren(lines: seq<Record>, p: string)
    ensures p in Gather(EmptyTable, lines).entries <==> ChildrenOf(lines, p) != []
    ensures p in Gather(EmptyTable, lines).entries ==>
              Gather(EmptyTable, lines).entries[p] == Opc(p, ChildrenOf(lines, p))
  {
    if lines != [] {
      var init := lines[..|lines| - 1];
      GatherChildren(init, p);
    }
  }

  /**
   * From an empty dict, the keys in dict order are the first parents of the
   * single-parent records, each once, in the order each first appears: the
   * order of the snapshot of `_condense_OPCs` and of the third print loop.
   */
  lemma {:induction false} GatherKeyOrder(lines: seq<Record>)
    ensures Distinct(Gather(EmptyTable, lines).keys)
    ensures forall p :: p in Gather(EmptyTable, lines).keys <==> p in FirstParents(lines)
    ensures FirstOccurrenceOrder(Gather(EmptyTable, lines).keys, FirstParents(lines))
  {
    GatherFacts(EmptyTable, lines);
    if lines != [] {
      var init := lines[..|lines| - 1];
      var last := lines[|lines| - 1];
      GatherKeyOrder(init);
      GatherFacts(EmptyTable, init);
      var g := Gather(EmptyTable, init);
      if !last.IsMultiParent() {
        var p := last.parents[0];
        assert FirstParents(lines) == FirstParents(init) + [p];
        if p in g.entries {
          assert Gather(EmptyTable, lines).keys == g.keys;
          FirstOccurrenceSnoc(g.keys, FirstParents(init), p);
        } else {
          assert Gather(EmptyTable, lines).keys == g.keys + [p];
          FirstOccurrenceSnocNew(g.keys, FirstParents(init), p);
        }
      } else {
        assert FirstParents(lines) == FirstParents(init);
      }
    }
  }

  /** From an empty dict the total child count is the number of single-parent records. */
  lemma GatherCountsSingleParents(lines: seq<Record>)
    ensures TotalChildren(Gather(EmptyTable, lines)) == CountSingleParent(lines)
    ensures WellFormed(Gather(EmptyTable, lines)) && HashesMatchKeys(Gather(EmptyTable, lines))
  {
    GatherFacts(EmptyTable, lines);
  }

  /** A link is recorded exactly when some merge record has that child and that parent. */
  lemma {:induction false} MergeLinksMembership(lines: seq<Record>, link: CommitLink)
    ensures link in MergeLinksOf(lines) <==>
              exists i :: 0 <= i < |lines| && lines[i].IsMultiParent()
                          && link.commitHash == lines[i].child && link.parentHash in lines[i].parents
  {
    if lines != [] {
      var init := lines[..|lines| - 1];
      var last := lines[|lines| - 1];
      MergeLinksMembership(init, link);
      LinksOfMembership(last.parents, last.child, link);
      if exists i :: 0 <= i < |lines| && lines[i].IsMultiParent()
                     && link.commitHash == lines[i].child && link.parentHash in lines[i].parents {
        var i :| 0 <= i < |lines| && lines[i].IsMultiParent()
                 && link.commitHash == lines[i].child && link.parentHash in lines[i].parents;
        if i < |lines| - 1 {
          assert init[i] == lines[i];
        }
      }
      if exists i :: 0 <= i < |init| && init[i].IsMultiParent()
                     && link.commitHash == init[i].child && link.parentHash in init[i].parents {
        var i :| 0 <= i < |init| && init[i].IsMultiParent()
                 && link.commitHash == init[i].child && link.parentHash in init[i].parents;
        assert lines[i] == init[i];
      }
    }
  }

  /** One link per parent, in the parents' order, each from that parent to `child`. */
  lemma {:induction false} LinksOfMembership(parents: seq<string>, child: string, link: CommitLink)
    ensures link in LinksOf(parents, child) <==> link.commitHash == child && link.parentHash in parents
    ensures |LinksOf(parents, child)| == |parents|
    ensures forall k :: 0 <= k < |parents| ==> LinksOf(parents, child)[k] == CommitLink(parents[k], child)
  {
    if parents != [] {
      var init := parents[..|parents| - 1];
      LinksOfMembership(init, child, link);
      assert parents == init + [parents[|parents| - 1]];
      forall k | 0 <= k < |parents|
        ensures LinksOf(parents, child)[k] == CommitLink(parents[k], child)
      {
        if k < |init| {
          assert parents[k] == init[k];
        }
      }
    }
  }

  /**
   * A hash is a merge node exactly when some merge record has it as child,
   * and there is one merge node per merge record: single-parent records add none.
   */
  lemma {:induction false} MultiParentChildrenExact(lines: seq<Record>, x: string)
    ensures x in MultiParentChildren(lines) <==>
              exists i :: 0 <= i < |lines| && lines[i].IsMultiParent() && lines[i].child == x
    ensures |MultiParentChildren(lines)| + CountSingleParent(lines) == |lines|
  {
    if lines != [] {
      var init := lines[..|lines| - 1];
      MultiParentChildrenExact(init, x);
      if exists i :: 0 <= i < |lines| && lines[i].IsMultiParent() && lines[i].child == x {
        var i :| 0 <= i < |lines| && lines[i].IsMultiParent() && lines[i].child == x;
        if i < |lines| - 1 {
          assert init[i] == lines[i];
        }
      }
      if exists i :: 0 <= i < |init| && init[i].IsMultiParent() && init[i].child == x {
        var i :| 0 <= i < |init| && init[i].IsMultiParent() && init[i].child == x;
        assert lines[i] == init[i];
      }
    }
  }

  // ---------------------------------------------------------------------
  // _condense_OPCs()
  // ---------------------------------------------------------------------

  /** `[k for k, v in one_parent_commits.items() if v.only_one_child()]` */
  function OneChildKeys(keys: seq<string>, e: map<string, Opc>): (r: seq<string>)
    ensures forall k :: k in r <==> k in keys && k in e && |e[k].child| == 1
    ensures |r| <= |keys|
  {
    if keys == [] then []
    else
      var k := keys[|keys| - 1];
      OneChildKeys(keys[..|keys| - 1], e) + (if k in e && |e[k].child| == 1 then [k] else [])
  }

  /**
   * One turn of the condensing loop for key `occHash`. The lookup of
   * `occHash` raises `KeyError` when an earlier turn popped it; otherwise, if
   * its first child is itself a key, that child's entry is popped, renamed to
   * `occHash` and stored under `occHash`.
   */
  function Absorb(t: Table, occHash: string): (r: Result<Table, string>)
    requires WellFormed(t)
    ensures r.Failure? <==> occHash !in t.entries
    ensures r.Failure? ==> r.error == occHash
    ensures r.Success? ==> WellFormed(r.value)
    ensures r.Success? ==> r.value.entries.Keys <= t.entries.Keys && occHash in r.value.entries
  {
    if occHash !in t.entries then Failure(occHash)
    else
      var occChild := t.entries[occHash].child[0];
      if occChild in t.entries then
        var target := t.entries[occChild];
        PopWellFormed(t, occChild);
        PutWellFormed(Pop(t, occChild), occHash, Opc(occHash, target.child));
        Success(Put(Pop(t, occChild), occHash, Opc(occHash, target.child)))
      else Success(t)
  }

  /** The dict after the condensing loop, and the key whose lookup raised `KeyError`, if any. */
  datatype Condensed = Condensed(table: Table, keyError: Option<string>)

  /** The condensing loop over the remaining snapshot keys. */
  function CondenseFrom(t: Table, snapshot: seq<string>): (r: Condensed)
    requires WellFormed(t)
    ensures WellFormed(r.table)
    ensures r.table.entries.Keys <= t.entries.Keys
    ensures r.keyError.Some? ==> r.keyError.value in snapshot && r.keyError.value !in r.table.entries
    decreases |snapshot|
  {
    if snapshot == [] then Condensed(t, None)
    else match Absorb(t, snapshot[0])
      case Failure(k) => Condensed(t, Some(k))
      case Success(next) => CondenseFrom(next, snapshot[1..])
  }

  /** `_condense_OPCs` */
  function Condense(t: Table): (r: Condensed)
    requires WellFormed(t)
    ensures WellFormed(r.table)
    ensures r.table.entries.Keys <= t.entries.Keys
    ensures r.keyError.Some? ==> var k := r.keyError.value;
              && k in t.entries && |t.entries[k].child| == 1 && k !in r.table.entries
  {
    CondenseFrom(t, OneChildKeys(t.keys, t.entries))
  }

  /** An absorption whose child is another key pops that key and stores its children under `occHash`. */
  lemma AbsorbTakesOver(t: Table, occHash: string)
    requires WellFormed(t) && occHash in t.entries
    requires var c := t.entries[occHash].child[0]; c in t.entries && c != occHash
    ensures var c := t.entries[occHash].child[0];
            var r := Absorb(t, occHash);
            && r.Success?
            && r.value.keys == Remove(t.keys, c)
            && r.value.entries.Keys == t.entries.Keys - {c}
            && |r.value.keys| == |t.keys| - 1
            && r.value.entries[occHash] == Opc(occHash, t.entries[c].child)
            && (forall k :: k in r.value.entries && k != occHash ==> r.value.entries[k] == t.entries[k])
            && TotalChildren(r.value) + |t.entries[occHash].child| == TotalChildren(t)
  {
    var c := t.entries[occHash].child[0];
    var v := Opc(occHash, t.entries[c].child);
    assert Absorb(t, occHash) == Success(Put(Pop(t, c), occHash, v));
    TakeOverFacts(t, occHash, c, v);
    TakeOverTotal(t, occHash, c, v);
  }

  /** The table of a take-over, by `Pop` and `Put`. */
  lemma TakeOverFacts(t: Table, h: string, c: string, v: Opc)
    requires WellFormed(t) && h in t.entries && c in t.entries && c != h && v.child == t.entries[c].child
    ensures var r := Put(Pop(t, c), h, v);
            && r.keys == Remove(t.keys, c)
            && r.entries.Keys == t.entries.Keys - {c}
            && |r.keys| == |t.keys| - 1
            && r.entries[h] == v
            && (forall k :: k in r.entries && k != h ==> r.entries[k] == t.entries[k])
  {
    var popped := Pop(t, c);
    assert h in popped.entries;
    PopWellFormed(t, c);
  }

  /** A take-over drops the candidate's own child count from the total. */
  lemma TakeOverTotal(t: Table, h: string, c: string, v: Opc)
    requires WellFormed(t) && h in t.entries && c in t.entries && c != h && v.child == t.entries[c].child
    ensures TotalChildren(Put(Pop(t, c), h, v)) + |t.entries[h].child| == TotalChildren(t)
  {
    var e := t.entries;
    var popped := Pop(t, c);
    assert h in popped.entries && Put(popped, h, v).keys == popped.keys;
    RemoveDistinct(t.keys, c);
    SumRemove(t.keys, e, c);
    SumAgree(popped.keys, e, popped.entries);
    SumReplace(popped.keys, popped.entries, h, v);
  }

  /** A candidate whose only child is not a key is left as it is. */
  lemma AbsorbLeavesLeaf(t: Table, occHash: string)
    requires WellFormed(t) && occHash in t.entries
    requires t.entries[occHash].child[0] !in t.entries
    ensures Absorb(t, occHash) == Success(t)
  {
  }

  /** A self-loop record (`A -> A`): the entry is re-inserted last and no count changes. */
  lemma AbsorbSelfLoop(t: Table, occHash: string)
    requires WellFormed(t) && occHash in t.entries && t.entries[occHash].child[0] == occHash
    ensures var r := Absorb(t, occHash);
            && r.Success?
            && r.value.keys == Remove(t.keys, occHash) + [occHash]
            && r.value.entries == t.entries[occHash := Opc(occHash, t.entries[occHash].child)]
            && |r.value.keys| == |t.keys|
            && TotalChildren(r.value) == TotalChildren(t)
  {
    var e := t.entries;
    var v := Opc(occHash, e[occHash].child);
    var r := Put(Pop(t, occHash), occHash, v);
    assert Absorb(t, occHash) == Success(r);
    assert r.keys == Remove(t.keys, occHash) + [occHash];
    assert r.entries == e[occHash := v];
    RemoveDistinct(t.keys, occHash);
    SelfLoopTotal(t, occHash, v);
  }

  /** Re-inserting an entry with as many children under its own key keeps the total. */
  lemma SelfLoopTotal(t: Table, k: string, v: Opc)
    requires WellFormed(t) && k in t.entries && |v.child| == |t.entries[k].child|
    ensures TotalChildren(Table(Remove(t.keys, k) + [k], t.entries[k := v])) == TotalChildren(t)
  {
    var rest := Remove(t.keys, k);
    var e := t.entries[k := v];
    SumAppend(rest, e, k);
    SumAgree(rest, e, t.entries);
    SumRemove(t.keys, t.entries, k);
  }

  /** Every absorption keeps `entry.hash == key` for every key. */
  lemma AbsorbKeepsHashes(t: Table, occHash: string)
    requires WellFormed(t) && HashesMatchKeys(t) && Absorb(t, occHash).Success?
    ensures HashesMatchKeys(Absorb(t, occHash).value)
  {
  }

  /** The condensing loop keeps `entry.hash == key` for every key, whether or not it raises. */
  lemma {:induction false} CondenseKeepsHashes(t: Table, snapshot: seq<string>)
    requires WellFormed(t) && HashesMatchKeys(t)
    ensures HashesMatchKeys(CondenseFrom(t, snapshot).table)
    decreases |snapshot|
  {
    if snapshot != [] {
      match Absorb(t, snapshot[0])
      case Failure(_) =>
      case Success(next) =>
        AbsorbKeepsHashes(t, snapshot[0]);
        CondenseKeepsHashes(next, snapshot[1..]);
    }
  }

  /** The snapshot lists distinct keys, each with exactly one child. */
  lemma {:induction false} OneChildKeysFacts(keys: seq<string>, e: map<string, Opc>)
    requires Distinct(keys)
    ensures Distinct(OneChildKeys(keys, e))
    ensures forall k :: k in OneChildKeys(keys, e) ==> k in keys && k in e && |e[k].child| == 1
  {
    if keys != [] {
      var init := keys[..|keys| - 1];
      var k := keys[|keys| - 1];
      assert Distinct(init) by {
        forall i, j | 0 <= i < j < |init| ensures init[i] != init[j] {
          assert init[i] == keys[i] && init[j] == keys[j];
        }
      }
      OneChildKeysFacts(init, e);
      assert k !in init by {
        forall i | 0 <= i < |init| ensures init[i] != k {
          assert init[i] == keys[i];
        }
      }
      var rest := OneChildKeys(init, e);
      if k in e && |e[k].child| == 1 {
        assert k !in rest;
        AppendDistinct(rest, k);
      }
    }
  }

  /** Snapshot keys still present keep their single child until their own turn. */
  ghost predicate PendingSingle(t: Table, snapshot: seq<string>) {
    && Distinct(snapshot)
    && forall k :: k in snapshot && k in t.entries ==> |t.entries[k].child| == 1
  }

  lemma DistinctTail<T>(s: seq<T>)
    requires Distinct(s) && s != []
    ensures Distinct(s[1..]) && s[0] !in s[1..]
  {
    forall i, j | 0 <= i < j < |s[1..]| ensures s[1..][i] != s[1..][j] {
      assert s[1..][i] == s[i + 1] && s[1..][j] == s[j + 1];
    }
    forall j | 0 <= j < |s[1..]| ensures s[1..][j] != s[0] {
      assert s[1..][j] == s[j + 1];
    }
  }

  /**
   * Every absorption drops the key count and the total child count by one
   * each (a self-loop drops neither), so their difference never changes, and
   * the key count never grows, to the end of the pass or to the `KeyError`.
   */
  lemma {:induction false} CondenseBalance(t: Table, snapshot: seq<string>)
    requires WellFormed(t) && PendingSingle(t, snapshot)
    ensures var r := CondenseFrom(t, snapshot).table;
            && TotalChildren(r) - |r.keys| == TotalChildren(t) - |t.keys|
            && |r.keys| <= |t.keys|
    decreases |snapshot|
  {
    if snapshot != [] {
      var h := snapshot[0];
      DistinctTail(snapshot);
      match Absorb(t, h)
      case Failure(_) =>
      case Success(next) =>
        var c := t.entries[h].child[0];
        if c in t.entries && c != h {
          AbsorbTakesOver(t, h);
        } else if c == h {
          AbsorbSelfLoop(t, h);
        }
        assert PendingSingle(next, snapshot[1..]) by {
          forall k | k in snapshot[1..] && k in next.entries ensures |next.entries[k].child| == 1 {
            assert k != h;
            assert k in t.entries;
          }
        }
        CondenseBalance(next, snapshot[1..]);
    }
  }

  /** The balance over a whole `_condense_OPCs` pass. */
  lemma CondenseKeepsBalance(t: Table)
    requires WellFormed(t)
    ensures var r := Condense(t).table;
            && TotalChildren(r) - |r.keys| == TotalChildren(t) - |t.keys|
            && |r.keys| <= |t.keys|
  {
    OneChildKeysFacts(t.keys, t.entries);
    CondenseBalance(t, OneChildKeys(t.keys, t.entries));
  }

  /** The table after gathering the two records `[first, second]` from an empty dict. */
  lemma GatherTwo(first: Record, second: Record)
    requires |first.parents| == 1 && |second.parents| == 1
    requires first.parents[0] != second.parents[0]
    ensures Gather(EmptyTable, [first, second]) ==
              Table([first.parents[0], second.parents[0]],
                    map[first.parents[0] := Opc(first.parents[0], [first.child]),
                        second.parents[0] := Opc(second.parents[0], [second.child])])
  {
    var lines := [first, second];
    var p1, p2 := first.parents[0], second.parents[0];
    var t1 := Table([p1], map[p1 := Opc(p1, [first.child])]);
    assert [first][..0] == [];
    assert Gather(EmptyTable, [first]) == t1 by {
      assert AddLine(EmptyTable, first) == t1;
    }
    assert lines[..1] == [first];
    assert AddLine(t1, second) == Table([p1, p2], t1.entries[p2 := Opc(p2, [second.child])]);
  }

  /** Both keys of a two-record table have one child each, so both are snapshotted, in order. */
  lemma SnapshotTwo(t: Table)
    requires |t.keys| == 2
    requires forall k :: k in t.keys ==> k in t.entries && |t.entries[k].child| == 1
    ensures OneChildKeys(t.keys, t.entries) == t.keys
  {
    var k0, k1 := t.keys[0], t.keys[1];
    assert k0 in t.keys && k1 in t.keys;
    assert t.keys[..1] == [k0] && [k0][..0] == [];
    assert OneChildKeys([k0], t.entries) == [k0];
    assert t.keys == [k0, k1];
  }

  /** `a` with the single child `b`, where `b` is a key: `a` takes over `b`'s children. */
  lemma AbsorbTwo(t: Table, a: string, b: string, cs: seq<string>)
    requires WellFormed(t) && a != b
    requires t.entries.Keys == {a, b} && t.entries[a] == Opc(a, [b]) && t.entries[b] == Opc(b, cs)
    ensures Absorb(t, a) == Success(Table(Remove(t.keys, b), map[a := Opc(a, cs)]))
  {
    AbsorbTakesOver(t, a);
    var r := Absorb(t, a).value;
    assert r.entries.Keys == {a};
    assert r.entries == map[a := Opc(a, cs)];
  }

  /** One turn of the condensing loop that does not raise. */
  lemma CondenseFromStep(t: Table, snapshot: seq<string>)
    requires WellFormed(t) && snapshot != [] && Absorb(t, snapshot[0]).Success?
    ensures CondenseFrom(t, snapshot) == CondenseFrom(Absorb(t, snapshot[0]).value, snapshot[1..])
  {
  }

  /** A dict of two one-child entries, each stored under its own hash. */
  lemma TwoEntryTable(g: Table, k0: string, k1: string, x0: string, x1: string)
    requires k0 != k1
    requires g.keys == [k0, k1] && g.entries == map[k0 := Opc(k0, [x0]), k1 := Opc(k1, [x1])]
    ensures WellFormed(g)
    ensures g.entries.Keys == {k0, k1} && g.entries[k0] == Opc(k0, [x0]) && g.entries[k1] == Opc(k1, [x1])
    ensures OneChildKeys(g.keys, g.entries) == [k0, k1]
    ensures Remove(g.keys, k0) == [k1] && Remove(g.keys, k1) == [k0]
  {
    TwoKeysWellFormed(g, k0, k1, x0, x1);
    TwoKeysOneChild(g, k0, k1, x0, x1);
    SnapshotTwo(g);
    RemoveOfPair(k0, k1);
  }

  lemma TwoKeysOneChild(g: Table, k0: string, k1: string, x0: string, x1: string)
    requires g.keys == [k0, k1] && g.entries == map[k0 := Opc(k0, [x0]), k1 := Opc(k1, [x1])]
    ensures forall k :: k in g.keys ==> k in g.entries && |g.entries[k].child| == 1
  {
    forall k | k in g.keys ensures k in g.entries && |g.entries[k].child| == 1 {
      assert k == k0 || k == k1;
    }
  }

  lemma TwoKeysWellFormed(g: Table, k0: string, k1: string, x0: string, x1: string)
    requires k0 != k1
    requires g.keys == [k0, k1] && g.entries == map[k0 := Opc(k0, [x0]), k1 := Opc(k1, [x1])]
    ensures WellFormed(g)
  {
    assert Distinct(g.keys);
  }

  /** The condensing pass over `{a: [b], b: [c]}`: `a` takes over `b`, then `b`'s lookup raises. */
  lemma CondenseOldestFirst(g: Table, a: string, b: string, c: string)
    requires a != b && b != c && a != c
    requires WellFormed(g) && g.entries.Keys == {a, b} && g.entries[a] == Opc(a, [b]) && g.entries[b] == Opc(b, [c])
    requires OneChildKeys(g.keys, g.entries) == [a, b] && Remove(g.keys, b) == [a]
    ensures Condense(g) == Condensed(Table([a], map[a := Opc(a, [c])]), Some(b))
  {
    AbsorbTwo(g, a, b, [c]);
    CondenseFromStep(g, [a, b]);
    assert [a, b][0] == a && [a, b][1..] == [b];
    var t1 := Table([a], map[a := Opc(a, [c])]);
    assert Absorb(t1, b) == Failure(b);
  }

  /**
   * Oldest-first input `a -> b` then `b -> c` raises `KeyError(b)`: `a` takes
   * over `b`'s entry, and `b`'s own turn then finds it gone.
   */
  lemma OldestFirstChainRaises(a: string, b: string, c: string)
    requires a != b && b != c && a != c
    ensures var lines: seq<Record> := [ParsedLine([a], b), ParsedLine([b], c)];
            && WellFormed(Gather(EmptyTable, lines))
            && Condense(Gather(EmptyTable, lines)) == Condensed(Table([a], map[a := Opc(a, [c])]), Some(b))
  {
    var lines: seq<Record> := [ParsedLine([a], b), ParsedLine([b], c)];
    GatherTwo(lines[0], lines[1]);
    var g := Gather(EmptyTable, lines);
    TwoEntryTable(g, a, b, b, c);
    CondenseOldestFirst(g, a, b, c);
  }

  // ---------------------------------------------------------------------
  // The objects
  // ---------------------------------------------------------------------

  class OneParentCommit {
    var hash: string
    var child: seq<string>

    constructor (commitHash: string, firstChild: string)
      ensures hash == commitHash && child == [firstChild]
    {
      hash := commitHash;
      child := [firstChild];
    }

    method AddChild(childHash: string)
      modifies this
      ensures child == old(child) + [childHash] && hash == old(hash)
    {
      child := child + [childHash];
    }

    function OnlyOneChild(): bool
      reads this
    {
      |child| == 1
    }
  }

  class GraphAnalyser {
    /** The keys of `one_parent_commits`, in dict order. */
    var keys: seq<string>
    var onePcs: map<string, OneParentCommit>
    var mergeLinks: seq<CommitLink>
    var multiParentNodes: seq<string>
    /** The value `one_parent_commits` holds: its keys in order and what each object holds. */
    ghost var table: Table
    /** Every `OneParentCommit` object the analyser has created. */
    ghost var Repr: set<OneParentCommit>

    /**
     * `table` is well formed and is what the dict and its objects hold, and no
     * object sits under two keys.
     */
    ghost predicate Valid()
      reads this, onePcs.Values
    {
      && WellFormed(table)
      && table.keys == keys
      && (forall k :: k in onePcs <==> k in table.entries)
      && (forall k :: k in onePcs ==> table.entries[k] == Opc(onePcs[k].hash, onePcs[k].child))
      && (forall k1, k2 :: k1 in onePcs && k2 in onePcs && k1 != k2 ==> onePcs[k1] != onePcs[k2])
      && onePcs.Values <= Repr
    }

    constructor ()
      ensures Valid() && table == EmptyTable
      ensures mergeLinks == [] && multiParentNodes == []
    {
      keys := [];
      onePcs := map[];
      mergeLinks := [];
      multiParentNodes := [];
      table := EmptyTable;
      Repr := {};
    }

    /** `process`: gather every record, then condense. */
    method Process(lines: seq<Record>) returns (keyError: Option<string>)
      requires Valid()
      modifies this, Repr
      ensures Valid()
      ensures mergeLinks == old(mergeLinks) + MergeLinksOf(lines)
      ensures multiParentNodes == old(multiParentNodes) + MultiParentChildren(lines)
      ensures WellFormed(Gather(old(table), lines))
      ensures Condensed(table, keyError) == Condense(Gather(old(table), lines))
    {
      GatherFacts(table, lines);
      GatherLines(lines);
      keyError := CondenseOpcs();
    }

    /** The gathering loop of `process`. */
    method GatherLines(lines: seq<Record>)
      requires Valid()
      modifies this, Repr
      ensures Valid()
      ensures mergeLinks == old(mergeLinks) + MergeLinksOf(lines)
      ensures multiParentNodes == old(multiParentNodes) + MultiParentChildren(lines)
      ensures table == Gather(old(table), lines)
      ensures fresh(Repr - old(Repr))
    {
      ghost var t0, m0, n0 := table, mergeLinks, multiParentNodes;
      var i := 0;
      while i < |lines|
        invariant 0 <= i <= |lines|
        invariant Valid()
        invariant Gathered(t0, m0, n0, lines[..i])
        invariant fresh(Repr - old(Repr))
      {
        GatherStep(t0, lines, i);
        AddRecord(lines[i]);
        Assoc(m0, MergeLinksOf(lines[..i]), lines[i].Links());
        Assoc(n0, MultiParentChildren(lines[..i]), lines[i].MergeNodes());
        i := i + 1;
      }
      assert lines[..i] == lines;
    }

    /** The analyser state once the gathering loop has seen `done`, starting from `t0`, `m0` and `n0`. */
    ghost predicate Gathered(t0: Table, m0: seq<CommitLink>, n0: seq<string>, done: seq<Record>)
      reads this
    {
      && table == Gather(t0, done)
      && mergeLinks == m0 + MergeLinksOf(done)
      && multiParentNodes == n0 + MultiParentChildren(done)
    }

    /** One turn of the gathering loop (lines 48-57). */
    method AddRecord(line: Record)
      requires Valid()
      modifies this, Repr
      ensures Valid()
      ensures table == AddLine(old(table), line)
      ensures mergeLinks == old(mergeLinks) + line.Links()
      ensures multiParentNodes == old(multiParentNodes) + line.MergeNodes()
      ensures fresh(Repr - old(Repr))
    {
      if line.IsMultiParent() {
        AddMergeRecord(line.parents, line.child);
      } else if line.parents[0] in onePcs {
        AppendChild(line.parents[0], line.child);
      } else {
        InsertCommit(line.parents[0], line.child);
      }
    }

    /** Lines 49-51: a merge record adds its child as a merge node and one link per parent. */
    method AddMergeRecord(parents: seq<string>, child: string)
      modifies this`mergeLinks, this`multiParentNodes
      ensures mergeLinks == old(mergeLinks) + LinksOf(parents, child)
      ensures multiParentNodes == old(multiParentNodes) + [child]
    {
      multiParentNodes := multiParentNodes + [child];
      for j := 0 to |parents|
        invariant mergeLinks == old(mergeLinks) + LinksOf(parents[..j], child)
        invariant multiParentNodes == old(multiParentNodes) + [child]
      {
        assert parents[..j + 1][..j] == parents[..j];
        mergeLinks := mergeLinks + [CommitLink(parents[j], child)];
      }
      assert parents[..|parents|] == parents;
    }

    /** Line 55: an existing entry gets one more child. */
    method AppendChild(parent: string, child: string)
      requires Valid() && parent in onePcs
      modifies onePcs[parent], this`table
      ensures Valid()
      ensures table == AddLine(old(table), ParsedLine([parent], child))
    {
      var opc := onePcs[parent];
      assert forall k :: k in onePcs && k != parent ==> onePcs[k] != opc;
      opc.AddChild(child);
      PutWellFormed(table, parent, Opc(opc.hash, opc.child));
      table := Put(table, parent, Opc(opc.hash, opc.child));
    }

    /** Line 57: a parent seen for the first time gets a fresh entry, placed last. */
    method InsertCommit(parent: string, child: string)
      requires Valid() && parent !in onePcs
      modifies this`keys, this`onePcs, this`table, this`Repr
      ensures Valid()
      ensures table == AddLine(old(table), ParsedLine([parent], child))
      ensures fresh(Repr - old(Repr))
    {
      var opc := new OneParentCommit(parent, child);
      assert forall k :: k in onePcs ==> onePcs[k] != opc;
      PutWellFormed(table, parent, Opc(parent, [child]));
      table := Put(table, parent, Opc(parent, [child]));
      onePcs := onePcs[parent := opc];
      keys := keys + [parent];
      Repr := Repr + {opc};
    }

    /** `_condense_OPCs` */
    method CondenseOpcs() returns (keyError: Option<string>)
      requires Valid()
      modifies this`keys, this`onePcs, this`table, Repr
      ensures Valid()
      ensures Condensed(table, keyError) == Condense(old(table))
    {
      var snapshot := SnapshotKeys();
      var i := 0;
      while i < |snapshot|
        invariant 0 <= i <= |snapshot|
        invariant Valid()
        invariant CondenseFrom(table, snapshot[i..]) == Condense(old(table))
      {
        assert snapshot[i..][1..] == snapshot[i + 1..];
        var raised := CondenseStep(snapshot[i]);
        if raised {
          keyError := Some(snapshot[i]);
          return;
        }
        i := i + 1;
      }
      keyError := None;
    }

    /** Line 61: the keys whose entry has exactly one child, in dict order. */
    method SnapshotKeys() returns (snapshot: seq<string>)
      requires Valid()
      ensures snapshot == OneChildKeys(table.keys, table.entries)
    {
      snapshot := [];
      for n := 0 to |keys|
        invariant snapshot == OneChildKeys(keys[..n], table.entries)
      {
        assert keys[..n + 1][..n] == keys[..n];
        if onePcs[keys[n]].OnlyOneChild() {
          snapshot := snapshot + [keys[n]];
        }
      }
      assert keys[..|keys|] == keys;
    }

    /** Lines 62-66: one turn of the condensing loop; `raised` is the `KeyError` of line 62. */
    method CondenseStep(occHash: string) returns (raised: bool)
      requires Valid()
      modifies this`keys, this`onePcs, this`table, Repr
      ensures Valid()
      ensures raised <==> Absorb(old(table), occHash).Failure?
      ensures raised ==> table == old(table)
      ensures !raised ==> Success(table) == Absorb(old(table), occHash)
    {
      if occHash !in onePcs {
        return true;
      }
      raised := false;
      var occChild := onePcs[occHash].child[0];
      if occChild in onePcs {
        var target := PopCommit(occChild);
        StoreRenamed(occHash, target);
      }
    }

    /** Line 64: `one_parent_commits.pop(occ_child)`. */
    method PopCommit(key: string) returns (target: OneParentCommit)
      requires Valid() && key in onePcs
      modifies this`keys, this`onePcs, this`table
      ensures Valid() && target !in onePcs.Values && target in Repr
      ensures Opc(target.hash, target.child) == old(table.entries[key])
      ensures table == Pop(old(table), key)
    {
      target := onePcs[key];
      PopWellFormed(table, key);
      table := Pop(table, key);
      onePcs := onePcs - {key};
      keys := Remove(keys, key);
    }

    /** Lines 65-66: the popped object is renamed and stored under `occ_hash`. */
    method StoreRenamed(occHash: string, target: OneParentCommit)
      requires Valid() && target !in onePcs.Values && target in Repr && target.child != []
      modifies this`keys, this`onePcs, this`table, target
      ensures Valid()
      ensures table == Put(old(table), occHash, Opc(occHash, old(target.child)))
    {
      target.hash := occHash;
      Store(occHash, target);
    }

    /** `one_parent_commits[key] = target` for an object outside the dict. */
    method Store(key: string, target: OneParentCommit)
      requires Valid() && target !in onePcs.Values && target in Repr && target.child != []
      modifies this`keys, this`onePcs, this`table
      ensures Valid()
      ensures table == Put(old(table), key, Opc(target.hash, target.child))
    {
      assert forall k :: k in onePcs ==> onePcs[k] != target;
      var v := Opc(target.hash, target.child);
      PutWellFormed(table, key, v);
      ghost var t := Put(table, key, v);
      assert t.entries == table.entries[key := v];
      table := t;
      if key !in onePcs {
        keys := keys + [key];
      }
      onePcs := onePcs[key := target];
    }
  }
}
