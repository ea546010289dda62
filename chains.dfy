/**
 * A straight run of single-parent commits, as `git log --format='%p -> %h'`
 * lists it: newest first. `hs` names the run's commits in that order, so
 * `hs[0]` is the newest and `hs[|hs| - 1]` the oldest, and the log holds one
 * record `hs[i + 1] -> hs[i]` per link.
 */
module GraphChains {
  import opened Wrappers
  import opened Seqs
  import opened GraphAnalysis

  /** The link from `hs[i + 1]` to its child `hs[i]`. */
  function ChainLink(hs: seq<string>, i: nat): Record
    requires i + 1 < |hs|
  {
    ParsedLine([hs[i + 1]], hs[i])
  }

  /** The log of the run `hs`, newest record first. */
  function ChainLog(hs: seq<string>): (log: seq<Record>)
    ensures |log| == if |hs| >= 2 then |hs| - 1 else 0
    ensures forall i :: 0 <= i < |log| ==> log[i] == ChainLink(hs, i)
  {
    if |hs| < 2 then []
    else
      var init := hs[..|hs| - 1];
      assert forall i :: 0 <= i < |init| ==> init[i] == hs[i];
      ChainLog(init) + [ChainLink(hs, |hs| - 2)]
  }

  /**
   * The dict while the condensing pass walks the run: the keys `hs[j..]` in
   * that order, `hs[j]` holding the newest commit `hs[0]` and every older key
   * still holding its own child. The gathered dict is the case `j == 1`.
   */
  ghost predicate ChainTable(t: Table, hs: seq<string>, j: nat)
    requires 1 <= j < |hs|
  {
    && t.keys == hs[j..]
    && (forall k :: k in t.entries <==> k in hs[j..])
    && t.entries[hs[j]] == Opc(hs[j], [hs[0]])
    && (forall i :: j < i < |hs| ==> t.entries[hs[i]] == Opc(hs[i], [hs[i - 1]]))
  }

  lemma DistinctSuffix<T>(s: seq<T>, j: nat)
    requires Distinct(s) && j <= |s|
    ensures Distinct(s[j..])
  {
    forall a, b | 0 <= a < b < |s[j..]| ensures s[j..][a] != s[j..][b] {
      assert s[j..][a] == s[j + a] && s[j..][b] == s[j + b];
    }
  }

  lemma ChainTableWellFormed(t: Table, hs: seq<string>, j: nat)
    requires Distinct(hs) && 1 <= j < |hs| && ChainTable(t, hs, j)
    ensures WellFormed(t)
  {
    DistinctSuffix(hs, j);
    forall k | k in t.entries ensures t.entries[k].child != [] {
      var i :| 0 <= i < |hs[j..]| && hs[j..][i] == k;
      assert hs[j + i] == k;
      if i > 0 {
        assert t.entries[hs[j + i]] == Opc(hs[j + i], [hs[j + i - 1]]);
      }
    }
  }

  /** The first record alone: `{hs[1]: [hs[0]]}`. */
  lemma GatherChainFirst(hs: seq<string>)
    requires |hs| == 2
    ensures ChainTable(Gather(EmptyTable, ChainLog(hs)), hs, 1)
  {
    var log := ChainLog(hs);
    assert ChainLog(hs[..1]) == [];
    assert log == [ChainLink(hs, 0)] && log[..0] == [];
    assert Gather(EmptyTable, log) == AddLine(EmptyTable, ChainLink(hs, 0));
    assert hs[1..] == [hs[1]];
  }

  /** One older record: its parent is a new key, put last. */
  lemma GatherChainStep(t: Table, hs: seq<string>)
    requires Distinct(hs) && |hs| > 2
    requires ChainTable(t, hs[..|hs| - 1], 1)
    ensures ChainTable(AddLine(t, ChainLink(hs, |hs| - 2)), hs, 1)
  {
    var n := |hs|;
    var init, last := hs[..n - 1], hs[n - 1];
    assert last !in init[1..] by {
      forall i | 0 <= i < |init[1..]| ensures init[1..][i] != last {
        assert init[1..][i] == hs[i + 1];
      }
    }
    var g := Table(t.keys + [last], t.entries[last := Opc(last, [hs[n - 2]])]);
    assert AddLine(t, ChainLink(hs, n - 2)) == g;
    ChainExtend(t, g, hs);
  }

  /** The dict of a run with one more, older, key appended. */
  lemma ChainExtend(t: Table, g: Table, hs: seq<string>)
    requires |hs| > 2 && ChainTable(t, hs[..|hs| - 1], 1) && hs[|hs| - 1] !in t.entries
    requires g == Table(t.keys + [hs[|hs| - 1]], t.entries[hs[|hs| - 1] := Opc(hs[|hs| - 1], [hs[|hs| - 2]])])
    ensures ChainTable(g, hs, 1)
  {
    var n := |hs|;
    var init, last := hs[..n - 1], hs[n - 1];
    assert init[1..] + [last] == hs[1..];
    KeysExtend(t.entries, init[1..], last, Opc(last, [hs[n - 2]]));
    assert init[0] == hs[0] && init[1] == hs[1] && init[1..][0] == hs[1];
    forall i | 1 < i < n ensures g.entries[hs[i]] == Opc(hs[i], [hs[i - 1]]) {
      if i < n - 1 {
        assert init[i] == hs[i] && init[i - 1] == hs[i - 1] && init[1..][i - 1] == hs[i];
      }
    }
  }

  lemma KeysExtend(e: map<string, Opc>, keys: seq<string>, x: string, v: Opc)
    requires forall k :: k in e <==> k in keys
    ensures forall k :: k in e[x := v] <==> k in keys + [x]
  {
  }

  /** Gathering the run's log builds `ChainTable(_, hs, 1)`. */
  lemma {:induction false} GatherChain(hs: seq<string>)
    requires Distinct(hs) && |hs| >= 2
    ensures ChainTable(Gather(EmptyTable, ChainLog(hs)), hs, 1)
  {
    var n := |hs|;
    if n == 2 {
      GatherChainFirst(hs);
    } else {
      var init := hs[..n - 1];
      assert Distinct(init) by {
        forall a, b | 0 <= a < b < |init| ensures init[a] != init[b] {
          assert init[a] == hs[a] && init[b] == hs[b];
        }
      }
      GatherChain(init);
      var log := ChainLog(hs);
      assert log[..|log| - 1] == ChainLog(init);
      assert Gather(EmptyTable, log) == AddLine(Gather(EmptyTable, ChainLog(init)), ChainLink(hs, n - 2));
      GatherChainStep(Gather(EmptyTable, ChainLog(init)), hs);
    }
  }

  /** Every key holding exactly one child, the snapshot is all the keys. */
  lemma {:induction false} OneChildKeysAll(keys: seq<string>, e: map<string, Opc>)
    requires forall i :: 0 <= i < |keys| ==> keys[i] in e && |e[keys[i]].child| == 1
    ensures OneChildKeys(keys, e) == keys
  {
    if keys != [] {
      var init := keys[..|keys| - 1];
      forall i | 0 <= i < |init| ensures init[i] in e && |e[init[i]].child| == 1 {
        assert init[i] == keys[i];
      }
      OneChildKeysAll(init, e);
      var k := keys[|keys| - 1];
      assert OneChildKeys(keys, e) == OneChildKeys(init, e) + [k];
      assert keys == init + [k];
    }
  }

  /** The turn of `hs[j + 1]`: it takes over `hs[j]`'s entry, which holds `hs[0]`. */
  lemma ChainAbsorb(t: Table, hs: seq<string>, j: nat)
    requires Distinct(hs) && 1 <= j && j + 1 < |hs| && ChainTable(t, hs, j)
    ensures WellFormed(t) && Absorb(t, hs[j + 1]).Success?
    ensures ChainTable(Absorb(t, hs[j + 1]).value, hs, j + 1)
  {
    ChainTableWellFormed(t, hs, j);
    ChainApart(hs, j);
    ChainTakeOver(t, hs, j);
    ChainAbsorbRest(t, Absorb(t, hs[j + 1]).value, hs, j);
  }

  /** What distinctness says about `hs[j]`, `hs[j + 1]` and the older commits. */
  lemma ChainApart(hs: seq<string>, j: nat)
    requires Distinct(hs) && j + 1 < |hs|
    ensures hs[j] !in hs[j + 1..]
    ensures forall i :: j + 1 < i < |hs| ==> hs[i] != hs[j] && hs[i] != hs[j + 1]
  {
    DistinctSuffix(hs, j);
    DistinctTail(hs[j..]);
    assert hs[j..][1..] == hs[j + 1..];
  }

  /** `hs[j + 1]`'s child `hs[j]` is a key, so `hs[j + 1]` pops it and stores its child list. */
  lemma ChainTakeOver(t: Table, hs: seq<string>, j: nat)
    requires 1 <= j && j + 1 < |hs| && ChainTable(t, hs, j) && WellFormed(t) && hs[j] !in hs[j + 1..]
    ensures var r := Absorb(t, hs[j + 1]);
            && r.Success?
            && r.value.keys == hs[j + 1..]
            && r.value.entries.Keys == t.entries.Keys - {hs[j]}
            && r.value.entries[hs[j + 1]] == Opc(hs[j + 1], [hs[0]])
            && (forall k :: k in r.value.entries && k != hs[j + 1] ==> r.value.entries[k] == t.entries[k])
  {
    var h, c, s := hs[j + 1], hs[j], hs[j..];
    assert s[0] == c && s[1] == h && s[1..] == hs[j + 1..];
    assert t.entries[h] == Opc(h, [c]);
    var v := Opc(h, [hs[0]]);
    assert Absorb(t, h) == Success(Put(Pop(t, c), h, v));
    TakeOverFacts(t, h, c, v);
    RemoveAbsent(s[1..], c);
    assert Remove(s, c) == s[1..];
  }

  /** The keys older than `hs[j + 1]` keep their entries through its turn. */
  lemma ChainAbsorbRest(t: Table, r: Table, hs: seq<string>, j: nat)
    requires 1 <= j && j + 1 < |hs| && ChainTable(t, hs, j) && hs[j] !in hs[j + 1..]
    requires forall i :: j + 1 < i < |hs| ==> hs[i] != hs[j] && hs[i] != hs[j + 1]
    requires r.keys == hs[j + 1..] && r.entries.Keys == t.entries.Keys - {hs[j]}
    requires r.entries[hs[j + 1]] == Opc(hs[j + 1], [hs[0]])
    requires forall k :: k in r.entries && k != hs[j + 1] ==> r.entries[k] == t.entries[k]
    ensures ChainTable(r, hs, j + 1)
  {
    ChainAbsorbKeys(t, r, hs, j);
    forall i | j + 1 < i < |hs| ensures r.entries[hs[i]] == Opc(hs[i], [hs[i - 1]]) {
      assert hs[j + 1..][i - j - 1] == hs[i];
      assert hs[i] in r.entries && hs[i] != hs[j + 1];
    }
  }

  lemma ChainAbsorbKeys(t: Table, r: Table, hs: seq<string>, j: nat)
    requires 1 <= j && j + 1 < |hs| && hs[j] !in hs[j + 1..]
    requires forall k :: k in t.entries <==> k in hs[j..]
    requires r.entries.Keys == t.entries.Keys - {hs[j]}
    ensures forall k :: k in r.entries <==> k in hs[j + 1..]
  {
    assert hs[j..] == [hs[j]] + hs[j + 1..];
  }

  /** From the turn of `hs[j + 1]` on, the pass ends with `{hs[n - 1]: [hs[0]]}` and no `KeyError`. */
  lemma {:induction false} CondenseChainFrom(t: Table, hs: seq<string>, j: nat)
    requires Distinct(hs) && 1 <= j < |hs| && ChainTable(t, hs, j)
    ensures WellFormed(t)
    ensures var root := hs[|hs| - 1];
            CondenseFrom(t, hs[j + 1..]) == Condensed(Table([root], map[root := Opc(root, [hs[0]])]), None)
    decreases |hs| - j
  {
    ChainTableWellFormed(t, hs, j);
    if j + 1 == |hs| {
      ChainEnd(t, hs);
    } else {
      ChainAbsorb(t, hs, j);
      var next := Absorb(t, hs[j + 1]).value;
      CondenseChainFrom(next, hs, j + 1);
      assert hs[j + 1..][0] == hs[j + 1] && hs[j + 1..][1..] == hs[j + 2..];
      CondenseFromStep(t, hs[j + 1..]);
    }
  }

  /** When the oldest commit's turn is over, it is the one key left. */
  lemma ChainEnd(t: Table, hs: seq<string>)
    requires 2 <= |hs| && ChainTable(t, hs, |hs| - 1)
    ensures var root := hs[|hs| - 1];
            t == Table([root], map[root := Opc(root, [hs[0]])])
  {
    var root := hs[|hs| - 1];
    assert t.keys == [root];
    assert t.entries == map[root := Opc(root, [hs[0]])];
  }

  /**
   * Newest-first, as `git log` prints it, a run of distinct commits collapses
   * into the single entry of its oldest commit, holding the newest commit as
   * its one child, and the pass raises no `KeyError`: the log
   * `D -> E, C -> D, B -> C, A -> B` ends as `{A: [E]}`.
   */
  lemma NewestFirstChainCollapses(hs: seq<string>)
    requires Distinct(hs) && |hs| >= 2
    ensures WellFormed(Gather(EmptyTable, ChainLog(hs)))
    ensures var root := hs[|hs| - 1];
            Condense(Gather(EmptyTable, ChainLog(hs)))
            == Condensed(Table([root], map[root := Opc(root, [hs[0]])]), None)
  {
    GatherChain(hs);
    var g := Gather(EmptyTable, ChainLog(hs));
    ChainTableWellFormed(g, hs, 1);
    ChainSnapshot(g, hs);
    ChainFirstTurn(g, hs);
    CondenseChainFrom(g, hs, 1);
  }

  /** Every gathered key holds one child, so the snapshot is `hs[1..]`. */
  lemma ChainSnapshot(g: Table, hs: seq<string>)
    requires |hs| >= 2 && ChainTable(g, hs, 1)
    ensures OneChildKeys(g.keys, g.entries) == hs[1..]
  {
    forall i | 0 <= i < |g.keys| ensures g.keys[i] in g.entries && |g.entries[g.keys[i]].child| == 1 {
      assert g.keys[i] == hs[i + 1];
      if i > 0 {
        assert g.entries[hs[i + 1]] == Opc(hs[i + 1], [hs[i]]);
      }
    }
    OneChildKeysAll(g.keys, g.entries);
  }

  /** The newest key's turn: its child `hs[0]` is no key, so nothing changes. */
  lemma ChainFirstTurn(g: Table, hs: seq<string>)
    requires Distinct(hs) && |hs| >= 2 && ChainTable(g, hs, 1) && WellFormed(g)
    ensures CondenseFrom(g, hs[1..]) == CondenseFrom(g, hs[2..])
  {
    DistinctTail(hs);
    assert hs[1..][0] == hs[1] && hs[1..][1..] == hs[2..];
    AbsorbLeavesLeaf(g, hs[1]);
  }
}
