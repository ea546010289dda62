/**
 * gather_input.py: the commit-range history cache. `LastSeenResults`
 * remembers the ranges of the previous run and the `git log` lines they
 * produced; `CommitRangeSecretary.parse_stdin` reads the ranges of this run,
 * checks them against that history and runs `git log` only for what the
 * history does not cover. `git log` itself and standard input are parameters.
 */
module GatherInput {
  import opened PyStr
  import opened Seqs

  /** `CheckResult` */
  datatype CheckResult = HistoryFollowed | HistoryDefied | BeyondHistory

  /** The two fields of `LastSeenResults` that the history check reads and writes. */
  datatype HistoryState = HistoryState(ranges: seq<string>, count: nat)

  /** `line_count <= len(commit_ranges)`: the ranges confirmed so far are ranges of the history. */
  predicate Bounded(h: HistoryState) {
    h.count <= |h.ranges|
  }

  // ---------------------------------------------------------------------
  // next_line_follows_history
  // ---------------------------------------------------------------------

  /** One `next_line_follows_history(r)`: the outcome and the new state. */
  function Follow(h: HistoryState, r: string): (res: (CheckResult, HistoryState))
    ensures res.1.ranges <= h.ranges
    ensures h.count <= res.1.count <= h.count + 1
    ensures res.1.count == h.count + 1 <==> res.0 == HistoryFollowed
  {
    if |h.ranges| <= h.count then (BeyondHistory, h)
    else if h.ranges[h.count] == r then (HistoryFollowed, HistoryState(h.ranges, h.count + 1))
    else (HistoryDefied, HistoryState(h.ranges[..h.count], h.count))
  }

  /** The three outcomes, each with the condition that selects it and what it does to the state. */
  lemma FollowOutcomes(h: HistoryState, r: string)
    ensures var (res, h') := Follow(h, r);
            && (res == BeyondHistory <==> h.count >= |h.ranges|)
            && (res == BeyondHistory ==> h' == h)
            && (res == HistoryFollowed <==> h.count < |h.ranges| && h.ranges[h.count] == r)
            && (res == HistoryFollowed ==> h'.ranges == h.ranges && h'.count == h.count + 1)
            && (res == HistoryDefied <==> h.count < |h.ranges| && h.ranges[h.count] != r)
            && (res == HistoryDefied ==> h'.ranges == h.ranges[..h.count] && h'.count == h.count)
  {
  }

  /** Every call keeps `line_count <= len(commit_ranges)`. */
  lemma FollowKeepsBound(h: HistoryState, r: string)
    requires Bounded(h)
    ensures Bounded(Follow(h, r).1)
  {
  }

  /** After a defiance the history ends at `line_count`, so the next call is beyond it. */
  lemma DefiedThenBeyond(h: HistoryState, r: string, next: string)
    requires Follow(h, r).0 == HistoryDefied
    ensures Follow(Follow(h, r).1, next) == (BeyondHistory, Follow(h, r).1)
  {
  }

  // ---------------------------------------------------------------------
  // parse_stdin, first loop: the ranges read and the history consulted
  // ---------------------------------------------------------------------

  /** The stripped, non-blank lines of standard input, in order (`commit_ranges_seen`). */
  function NonBlank(lines: seq<string>): (r: seq<string>)
    ensures |r| <= |lines|
    ensures forall i :: 0 <= i < |r| ==> r[i] != ""
  {
    if lines == [] then []
    else (if Strip(lines[0]) == "" then [] else [Strip(lines[0])]) + NonBlank(lines[1..])
  }

  /** `NonBlank` keeps exactly the lines that are not blank, each stripped. */
  lemma {:induction false} NonBlankMembers(lines: seq<string>, x: string)
    ensures x in NonBlank(lines) <==> x != "" && exists i :: 0 <= i < |lines| && Strip(lines[i]) == x
  {
    if lines != [] {
      var head := if Strip(lines[0]) == "" then [] else [Strip(lines[0])];
      var tail := lines[1..];
      assert NonBlank(lines) == head + NonBlank(tail);
      assert x in NonBlank(lines) <==> x in head || x in NonBlank(tail);
      NonBlankMembers(tail, x);
      if exists i :: 0 <= i < |tail| && Strip(tail[i]) == x {
        var i :| 0 <= i < |tail| && Strip(tail[i]) == x;
        assert Strip(lines[i + 1]) == x;
      }
      if exists i :: 0 <= i < |lines| && Strip(lines[i]) == x {
        var i :| 0 <= i < |lines| && Strip(lines[i]) == x;
        if i > 0 {
          assert Strip(tail[i - 1]) == x;
        }
      }
    }
  }

  /** The history after the first loop of `parse_stdin`, and whether it still follows. */
  datatype Consulted = Consulted(state: HistoryState, following: bool)

  /**
   * The first loop over the remaining ranges `seen`: while `following`, each
   * range is checked against the history and a defiance stops the checking.
   */
  function ConsultAll(h: HistoryState, following: bool, seen: seq<string>): (r: Consulted)
    ensures r.state.ranges <= h.ranges
    ensures h.count <= r.state.count
    ensures r.following ==> following && r.state.ranges == h.ranges
    ensures Bounded(h) ==> Bounded(r.state)
    decreases |seen|
  {
    if seen == [] then Consulted(h, following)
    else if !following then ConsultAll(h, false, seen[1..])
    else
      var (res, h') := Follow(h, seen[0]);
      ConsultAll(h', res != HistoryDefied, seen[1..])
  }

  /** `NonBlank` one line at a time, front to back. */
  lemma NonBlankStep(lines: seq<string>, i: nat)
    requires i < |lines|
    ensures Strip(lines[i]) == "" ==> NonBlank(lines[i..]) == NonBlank(lines[i + 1..])
    ensures Strip(lines[i]) != "" ==> NonBlank(lines[i..]) == [Strip(lines[i])] + NonBlank(lines[i + 1..])
  {
    assert lines[i..][0] == lines[i] && lines[i..][1..] == lines[i + 1..];
  }

  lemma AppendAssoc<T>(s: seq<T>, x: T, rest: seq<T>)
    ensures (s + [x]) + rest == s + ([x] + rest)
  {
  }

  /** `ConsultAll` on one more range. */
  lemma ConsultStep(h: HistoryState, following: bool, r: string, rest: seq<string>)
    ensures ConsultAll(h, following, [r] + rest) ==
              if following then ConsultAll(Follow(h, r).1, Follow(h, r).0 != HistoryDefied, rest)
              else ConsultAll(h, false, rest)
  {
    assert ([r] + rest)[0] == r && ([r] + rest)[1..] == rest;
  }

  /** Once it has stopped following, the loop leaves the history alone. */
  lemma {:induction false} StoppedStays(h: HistoryState, seen: seq<string>)
    ensures ConsultAll(h, false, seen) == Consulted(h, false)
    decreases |seen|
  {
    if seen != [] {
      StoppedStays(h, seen[1..]);
    }
  }

  /** `seen` repeats the history from `line_count` on, as far as both go. */
  ghost predicate Agrees(h: HistoryState, seen: seq<string>) {
    forall j :: 0 <= j < |seen| && h.count + j < |h.ranges| ==> h.ranges[h.count + j] == seen[j]
  }

  function Min(a: nat, b: nat): nat {
    if a <= b then a else b
  }

  /**
   * Ranges that agree with the history follow it as far as both go and leave
   * the ranges alone; the first disagreement truncates the history there and
   * stops the checking.
   */
  lemma {:induction false} ConsultCharacterised(h: HistoryState, seen: seq<string>)
    requires Bounded(h)
    ensures var c := ConsultAll(h, true, seen);
            && (c.following <==> Agrees(h, seen))
            && (c.following ==> c.state == HistoryState(h.ranges, h.count + Min(|seen|, |h.ranges| - h.count)))
            && (!c.following ==>
                  && h.count <= c.state.count < |h.ranges|
                  && c.state.count - h.count < |seen|
                  && c.state.ranges == h.ranges[..c.state.count]
                  && h.ranges[c.state.count] != seen[c.state.count - h.count]
                  && (forall j :: h.count <= j < c.state.count ==> h.ranges[j] == seen[j - h.count]))
    decreases |seen|
  {
    if seen != [] {
      var (res, h') := Follow(h, seen[0]);
      if res == HistoryDefied {
        StoppedStays(h', seen[1..]);
      } else if res == HistoryFollowed {
        ConsultCharacterised(h', seen[1..]);
        ShiftAgrees(h, seen);
      } else {
        BeyondCharacterised(h, seen[1..]);
      }
    }
  }

  /** Agreement after one followed range is agreement of the rest with the advanced history. */
  lemma ShiftAgrees(h: HistoryState, seen: seq<string>)
    requires h.count < |h.ranges| && seen != [] && h.ranges[h.count] == seen[0]
    ensures Agrees(h, seen) <==> Agrees(HistoryState(h.ranges, h.count + 1), seen[1..])
  {
    var h' := HistoryState(h.ranges, h.count + 1);
    if Agrees(h', seen[1..]) {
      forall j | 0 <= j < |seen| && h.count + j < |h.ranges| ensures h.ranges[h.count + j] == seen[j] {
        if j > 0 {
          assert seen[1..][j - 1] == seen[j];
        }
      }
    }
    if Agrees(h, seen) {
      forall j | 0 <= j < |seen[1..]| && h'.count + j < |h'.ranges| ensures h'.ranges[h'.count + j] == seen[1..][j] {
        assert seen[1..][j] == seen[j + 1];
      }
    }
  }

  /** Beyond the history every range is beyond it: nothing changes and the loop keeps following. */
  lemma {:induction false} BeyondCharacterised(h: HistoryState, seen: seq<string>)
    requires h.count >= |h.ranges|
    ensures ConsultAll(h, true, seen) == Consulted(h, true)
    decreases |seen|
  {
    if seen != [] {
      BeyondCharacterised(h, seen[1..]);
    }
  }

  // ---------------------------------------------------------------------
  // parse_stdin, second loop: merging the `git log` outputs
  // ---------------------------------------------------------------------

  /** The inner loop: each item of `output` not yet in the list is appended, in order. */
  function AppendAbsent(acc: seq<string>, output: seq<string>): (r: seq<string>)
    ensures |acc| <= |r| && r[..|acc|] == acc
    ensures forall x :: x in r <==> x in acc || x in output
    ensures Distinct(acc) ==> Distinct(r)
  {
    if output == [] then acc
    else
      var prev := AppendAbsent(acc, output[..|output| - 1]);
      var item := output[|output| - 1];
      assert output == output[..|output| - 1] + [item];
      if item in prev then prev
      else
        assert Distinct(prev) ==> Distinct(prev + [item]) by {
          if Distinct(prev) {
            AppendDistinct(prev, item);
          }
        }
        prev + [item]
  }

  /**
   * What the inner loop appends: the items of `output` that are not in the
   * list, each once, in the order of their first occurrence in `output`.
   */
  lemma {:induction false} AppendAbsentTail(acc: seq<string>, output: seq<string>)
    ensures Distinct(AppendAbsent(acc, output)[|acc|..])
    ensures forall y :: y in AppendAbsent(acc, output)[|acc|..] <==> y in output && y !in acc
    ensures FirstOccurrenceOrder(AppendAbsent(acc, output)[|acc|..], output)
  {
    var r := AppendAbsent(acc, output);
    assert r == acc + r[|acc|..];
    if output != [] {
      var init := output[..|output| - 1];
      var item := output[|output| - 1];
      assert output == init + [item];
      var prev := AppendAbsent(acc, init);
      AppendAbsentTail(acc, init);
      var ptail := prev[|acc|..];
      if item in prev {
        assert r[|acc|..] == ptail;
        FirstOccurrenceSnoc(ptail, init, item);
      } else {
        assert r[|acc|..] == ptail + [item];
        AppendDistinct(ptail, item);
        FirstOccurrenceSnocNew(ptail, init, item);
      }
    }
  }

  /** Merging two outputs one after the other is merging their concatenation. */
  lemma {:induction false} AppendAbsentTwice(acc: seq<string>, a: seq<string>, b: seq<string>)
    ensures AppendAbsent(AppendAbsent(acc, a), b) == AppendAbsent(acc, a + b)
  {
    if b == [] {
      assert a + b == a;
    } else {
      var init := b[..|b| - 1];
      AppendAbsentTwice(acc, a, init);
      assert (a + b)[..|a + b| - 1] == a + init;
      assert (a + b)[|a + b| - 1] == b[|b| - 1];
    }
  }

  /** One `git log` output merged into the list: taken whole (duplicates and all) while the list is empty. */
  function MergeLog(acc: seq<string>, output: seq<string>): (r: seq<string>)
    ensures acc != [] ==> |acc| <= |r| && r[..|acc|] == acc
    ensures acc == [] ==> r == output
    ensures forall x :: x in r <==> x in acc || x in output
  {
    if acc == [] then output else AppendAbsent(acc, output)
  }

  /** The second loop: the outputs for `ranges` merged in order into `acc`. */
  function ScanAll(acc: seq<string>, ranges: seq<string>, gitLog: string -> seq<string>): (r: seq<string>)
    ensures forall x :: x in r <==> x in acc || x in Outputs(ranges, gitLog)
    decreases |ranges|
  {
    if ranges == [] then acc else ScanAll(MergeLog(acc, gitLog(ranges[0])), ranges[1..], gitLog)
  }

  /** Scanning two lists of ranges one after the other is scanning their concatenation. */
  lemma {:induction false} ScanAllAppend(acc: seq<string>, a: seq<string>, b: seq<string>, gitLog: string -> seq<string>)
    ensures ScanAll(acc, a + b, gitLog) == ScanAll(ScanAll(acc, a, gitLog), b, gitLog)
    decreases |a|
  {
    if a == [] {
      assert a + b == b;
    } else {
      assert (a + b)[0] == a[0] && (a + b)[1..] == a[1..] + b;
      ScanAllAppend(MergeLog(acc, gitLog(a[0])), a[1..], b, gitLog);
    }
  }

  /**
   * A non-empty starting list stays a prefix of the result, no duplicate is
   * added to it, and the result holds exactly the starting items and the
   * items of the scanned outputs.
   */
  lemma {:induction false} ScanAllExtends(acc: seq<string>, ranges: seq<string>, gitLog: string -> seq<string>, x: string)
    requires acc != []
    ensures var r := ScanAll(acc, ranges, gitLog);
            && |acc| <= |r| && r[..|acc|] == acc
            && (Distinct(acc) ==> Distinct(r))
            && (x in r <==> x in acc || exists i :: 0 <= i < |ranges| && x in gitLog(ranges[i]))
    decreases |ranges|
  {
    if ranges != [] {
      var next := AppendAbsent(acc, gitLog(ranges[0]));
      ScanAllExtends(next, ranges[1..], gitLog, x);
      var r := ScanAll(next, ranges[1..], gitLog);
      assert r[..|acc|] == r[..|next|][..|acc|];
      if exists i :: 0 <= i < |ranges[1..]| && x in gitLog(ranges[1..][i]) {
        var i :| 0 <= i < |ranges[1..]| && x in gitLog(ranges[1..][i]);
        assert x in gitLog(ranges[i + 1]);
      }
      if exists i :: 0 <= i < |ranges| && x in gitLog(ranges[i]) {
        var i :| 0 <= i < |ranges| && x in gitLog(ranges[i]);
        if i > 0 {
          assert x in gitLog(ranges[1..][i - 1]);
        }
      }
    }
  }

  /** The `git log` outputs for `ranges`, one after the other. */
  function Outputs(ranges: seq<string>, gitLog: string -> seq<string>): (r: seq<string>)
    ensures forall x :: x in r <==> exists i :: 0 <= i < |ranges| && x in gitLog(ranges[i])
    decreases |ranges|
  {
    if ranges == [] then []
    else
      var rest := Outputs(ranges[1..], gitLog);
      assert forall x :: x in rest ==> exists i :: 0 <= i < |ranges| && x in gitLog(ranges[i]) by {
        forall x | x in rest ensures exists i :: 0 <= i < |ranges| && x in gitLog(ranges[i]) {
          var i :| 0 <= i < |ranges[1..]| && x in gitLog(ranges[1..][i]);
          assert ranges[1..][i] == ranges[i + 1];
        }
      }
      assert forall x, i :: 0 < i < |ranges| && x in gitLog(ranges[i]) ==> x in rest by {
        forall x, i | 0 < i < |ranges| && x in gitLog(ranges[i]) ensures x in rest {
          assert ranges[1..][i - 1] == ranges[i];
        }
      }
      gitLog(ranges[0]) + rest
  }

  /**
   * Onto a non-empty list, scanning several ranges merges all their outputs
   * as one: the list keeps its items and gains the absent ones in order of
   * first appearance (`AppendAbsentTail`).
   */
  lemma {:induction false} ScanAllIsOneMerge(acc: seq<string>, ranges: seq<string>, gitLog: string -> seq<string>)
    requires acc != []
    ensures ScanAll(acc, ranges, gitLog) == AppendAbsent(acc, Outputs(ranges, gitLog))
    decreases |ranges|
  {
    if ranges != [] {
      var next := AppendAbsent(acc, gitLog(ranges[0]));
      assert next[..|acc|] == acc;
      ScanAllIsOneMerge(next, ranges[1..], gitLog);
      AppendAbsentTwice(acc, gitLog(ranges[0]), Outputs(ranges[1..], gitLog));
    }
  }

  /**
   * Onto a non-empty list, the items a scan appends are the scanned items not
   * already in the list, each once, in the order they first appear across the
   * outputs taken range by range.
   */
  lemma ScanAllTail(acc: seq<string>, ranges: seq<string>, gitLog: string -> seq<string>)
    requires acc != []
    ensures var r := ScanAll(acc, ranges, gitLog);
            && |acc| <= |r| && r[..|acc|] == acc
            && Distinct(r[|acc|..])
            && (forall y :: y in r[|acc|..] <==> y in Outputs(ranges, gitLog) && y !in acc)
            && FirstOccurrenceOrder(r[|acc|..], Outputs(ranges, gitLog))
  {
    ScanAllIsOneMerge(acc, ranges, gitLog);
    AppendAbsentTail(acc, Outputs(ranges, gitLog));
  }

  /** Python's `s[n:]`: empty once `n` is past the end. */
  function Drop(s: seq<string>, n: nat): (r: seq<string>)
    ensures n <= |s| ==> r == s[n..]
    ensures n > |s| ==> r == []
  {
    if n <= |s| then s[n..] else []
  }

  /**
   * `parse_stdin`'s result for the history `h` and the cached lines `cached`:
   * without a defiance only the ranges past `line_count` are scanned, onto the
   * cached lines; after one every range is scanned from an empty list.
   */
  function Rescan(h: HistoryState, cached: seq<string>, seen: seq<string>, gitLog: string -> seq<string>): seq<string> {
    var c := ConsultAll(h, true, seen);
    if c.following then ScanAll(cached, Drop(seen, c.state.count), gitLog)
    else ScanAll([], seen, gitLog)
  }

  /**
   * A run whose ranges start with the saved ones reuses the saved lines as
   * they are, whatever they hold, and runs `git log` only for the extra
   * ranges: the cache is keyed on the range text alone.
   */
  lemma CacheReused(ranges: seq<string>, extra: seq<string>, cached: seq<string>, gitLog: string -> seq<string>)
    ensures Rescan(HistoryState(ranges, 0), cached, ranges + extra, gitLog) == ScanAll(cached, extra, gitLog)
  {
    var h := HistoryState(ranges, 0);
    var seen := ranges + extra;
    assert Agrees(h, seen) by {
      forall j | 0 <= j < |seen| && j < |ranges| ensures ranges[j] == seen[j] {
      }
    }
    ConsultCharacterised(h, seen);
    assert Min(|seen|, |ranges|) == |ranges|;
    assert Drop(seen, |ranges|) == extra;
  }

  /**
   * A cache saved by `parse_stdin` (`line_count` 0, lines those of its ranges)
   * answers a run whose ranges start with the cached ones exactly as a full
   * rescan would, provided `git log` answers the cached ranges as it did when
   * the cache was saved (`gitLog` is the same function in both runs).
   */
  lemma CacheHit(ranges: seq<string>, extra: seq<string>, gitLog: string -> seq<string>)
    ensures Rescan(HistoryState(ranges, 0), ScanAll([], ranges, gitLog), ranges + extra, gitLog)
            == ScanAll([], ranges + extra, gitLog)
  {
    CacheReused(ranges, extra, ScanAll([], ranges, gitLog), gitLog);
    ScanAllAppend([], ranges, extra, gitLog);
  }

  /**
   * When the repository has changed since the cache was saved (`oldLog`
   * then, `newLog` now), the cached ranges are not asked again: the result
   * is the stale cached lines merged with the new outputs of the extra ranges.
   */
  lemma StaleCacheHit(ranges: seq<string>, extra: seq<string>, oldLog: string -> seq<string>, newLog: string -> seq<string>)
    ensures Rescan(HistoryState(ranges, 0), ScanAll([], ranges, oldLog), ranges + extra, newLog)
            == ScanAll(ScanAll([], ranges, oldLog), extra, newLog)
  {
    CacheReused(ranges, extra, ScanAll([], ranges, oldLog), newLog);
  }

  /**
   * A run that asks for a strict prefix of the cached ranges follows the
   * history all the way and so returns every cached line, also those of the
   * ranges it no longer asks for.
   */
  lemma ShorterRunReusesWholeCache(h: HistoryState, cached: seq<string>, seen: seq<string>, gitLog: string -> seq<string>)
    requires h.count == 0 && |seen| < |h.ranges| && seen == h.ranges[..|seen|]
    ensures Rescan(h, cached, seen, gitLog) == cached
  {
    assert Agrees(h, seen) by {
      forall j | 0 <= j < |seen| && j < |h.ranges| ensures h.ranges[j] == seen[j] {
        assert seen[j] == h.ranges[..|seen|][j];
      }
    }
    ConsultCharacterised(h, seen);
    assert Drop(seen, |seen|) == [];
  }

  /** After a defiance the result does not depend on the cached lines. */
  lemma DefianceIgnoresCache(h: HistoryState, cached1: seq<string>, cached2: seq<string>, seen: seq<string>, gitLog: string -> seq<string>)
    requires Bounded(h) && !Agrees(h, seen)
    ensures Rescan(h, cached1, seen, gitLog) == Rescan(h, cached2, seen, gitLog) == ScanAll([], seen, gitLog)
  {
    ConsultCharacterised(h, seen);
  }

  // ---------------------------------------------------------------------
  // The objects
  // ---------------------------------------------------------------------

  class LastSeenResults {
    var commitRanges: seq<string>
    var uniqGitLogLines: seq<string>
    var lineCount: nat

    constructor ()
      ensures commitRanges == [] && uniqGitLogLines == [] && lineCount == 0
    {
      commitRanges := [];
      uniqGitLogLines := [];
      lineCount := 0;
    }

    function State(): HistoryState
      reads this
    {
      HistoryState(commitRanges, lineCount)
    }

    /** `next_line_follows_history` */
    method NextLineFollowsHistory(commitRange: string) returns (res: CheckResult)
      modifies this`commitRanges, this`lineCount
      ensures (res, State()) == Follow(old(State()), commitRange)
    {
      if |commitRanges| <= lineCount {
        return BeyondHistory;
      }
      if commitRanges[lineCount] == commitRange {
        lineCount := lineCount + 1;
        return HistoryFollowed;
      }
      commitRanges := commitRanges[..lineCount];
      return HistoryDefied;
    }
  }

  class CommitRangeSecretary {
    var lastSeenResults: LastSeenResults

    /** `__init__` and `_load_cache`: `loaded` is the unpickled cache, `null` when there is no cache file. */
    constructor (loaded: LastSeenResults?)
      ensures loaded != null ==> lastSeenResults == loaded
      ensures loaded == null ==> fresh(lastSeenResults) && lastSeenResults.State() == HistoryState([], 0)
                                 && lastSeenResults.uniqGitLogLines == []
    {
      if loaded == null {
        lastSeenResults := new LastSeenResults();
      } else {
        lastSeenResults := loaded;
      }
    }

    /** `_save_cache`, without the file write. */
    method SaveCache()
      modifies lastSeenResults`lineCount
      ensures lastSeenResults.lineCount == 0
    {
      lastSeenResults.lineCount := 0;
    }

    /** `parse_stdin`, with standard input as `stdin` and `git log` as `gitLog`. */
    method ParseStdin(stdin: seq<string>, gitLog: string -> seq<string>) returns (uniq: seq<string>)
      modifies lastSeenResults
      ensures uniq == Rescan(old(lastSeenResults.State()), old(lastSeenResults.uniqGitLogLines), NonBlank(stdin), gitLog)
      ensures lastSeenResults.commitRanges == NonBlank(stdin)
      ensures lastSeenResults.uniqGitLogLines == uniq
      ensures lastSeenResults.lineCount == 0
    {
      var seen, following := ReadRanges(stdin);
      var toScan: seq<string>;
      var acc: seq<string> := [];
      if following {
        toScan := Drop(seen, lastSeenResults.lineCount);
        acc := lastSeenResults.uniqGitLogLines;
      } else {
        toScan := seen;
      }
      uniq := MergeLogs(acc, toScan, gitLog);
      lastSeenResults.uniqGitLogLines := uniq;
      lastSeenResults.commitRanges := seen;
      SaveCache();
    }

    /** Lines 61-72: collect the non-blank ranges and check them against the history. */
    method ReadRanges(stdin: seq<string>) returns (seen: seq<string>, following: bool)
      modifies lastSeenResults`commitRanges, lastSeenResults`lineCount
      ensures seen == NonBlank(stdin)
      ensures Consulted(lastSeenResults.State(), following) == ConsultAll(old(lastSeenResults.State()), true, NonBlank(stdin))
    {
      seen := [];
      following := true;
      ghost var all := NonBlank(stdin);
      ghost var target := ConsultAll(lastSeenResults.State(), true, all);
      ghost var pending := all;
      var i := 0;
      while i < |stdin|
        invariant 0 <= i <= |stdin|
        invariant pending == NonBlank(stdin[i..])
        invariant seen + pending == all
        invariant ConsultAll(lastSeenResults.State(), following, pending) == target
      {
        var commitRange := Strip(stdin[i]);
        NonBlankStep(stdin, i);
        ghost var rest := NonBlank(stdin[i + 1..]);
        if commitRange != "" {
          AppendAssoc(seen, commitRange, rest);
          seen := seen + [commitRange];
          following := ConsultRange(commitRange, following, rest);
        }
        pending := rest;
        i := i + 1;
      }
      assert stdin[i..] == [];
    }

    /** Lines 69-72: a range is checked against the history only while no defiance has been seen. */
    method ConsultRange(commitRange: string, following: bool, ghost rest: seq<string>) returns (stillFollowing: bool)
      modifies lastSeenResults`commitRanges, lastSeenResults`lineCount
      ensures ConsultAll(lastSeenResults.State(), stillFollowing, rest) ==
                ConsultAll(old(lastSeenResults.State()), following, [commitRange] + rest)
    {
      ConsultStep(lastSeenResults.State(), following, commitRange, rest);
      stillFollowing := following;
      if following {
        var res := lastSeenResults.NextLineFollowsHistory(commitRange);
        if res == HistoryDefied {
          stillFollowing := false;
        }
      }
    }

    /** Lines 82-91: run `git log` for each range and merge its output. */
    method MergeLogs(start: seq<string>, toScan: seq<string>, gitLog: string -> seq<string>) returns (acc: seq<string>)
      ensures acc == ScanAll(start, toScan, gitLog)
    {
      acc := start;
      var k := 0;
      while k < |toScan|
        invariant 0 <= k <= |toScan|
        invariant ScanAll(acc, toScan[k..], gitLog) == ScanAll(start, toScan, gitLog)
      {
        assert toScan[k..][1..] == toScan[k + 1..];
        var logOutput := gitLog(toScan[k]);
        if acc == [] {
          acc := logOutput;
        } else {
          acc := AppendItems(acc, logOutput);
        }
        k := k + 1;
      }
    }

    /** Lines 89-91: append each item not yet in the list. */
    method AppendItems(acc0: seq<string>, logOutput: seq<string>) returns (acc: seq<string>)
      ensures acc == AppendAbsent(acc0, logOutput)
    {
      acc := acc0;
      var j := 0;
      while j < |logOutput|
        invariant 0 <= j <= |logOutput|
        invariant acc == AppendAbsent(acc0, logOutput[..j])
      {
        assert logOutput[..j + 1][..j] == logOutput[..j];
        if logOutput[j] !in acc {
          acc := acc + [logOutput[j]];
        }
        j := j + 1;
      }
      assert logOutput[..j] == logOutput;
    }
  }
}
