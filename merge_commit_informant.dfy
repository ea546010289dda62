/**
 * utils/git/merge_commit_informant.py: what a merge commit's summary line
 * says about the merge. Three patterns, each matched at the start of the
 * summary only (`re.match`), are tried in order: a GitHub pull-request merge,
 * a local branch merge and a remote-tracking branch merge. The summary and
 * the pull-request lookup are parameters.
 *
 * Each pattern is modelled as the greedy matcher it is, piece by piece, and
 * the pieces' contracts are stated on right-nested concatenations
 * (`a + (b + c)`), one piece of pattern text per level.
 */
module MergeCommitInformant {
  import opened Wrappers
  import opened PyStr

  /** `MergeInfo`: `None` fields are Python's `None`. */
  datatype MergeInfo = MergeInfo(src: Option<string>, dst: Option<string>, summary: Option<string>)

  /** The two capture groups of a match. */
  datatype Groups = Groups(first: string, second: string)

  /** The fixed text of `Merge pull request #(\d+) from \S+/(\S+)`. */
  const PrPrefix: string := "Merge pull request #"
  const FromText: string := " from "

  /** The fixed text of `Merge branch '(\S+)' into (\S+)` and `Merge remote-tracking branch 'origin/(\S+)' into (\S+)`. */
  const LocalPrefix: string := "Merge branch '"
  const RemotePrefix: string := "Merge remote-tracking branch 'origin/"
  const Quote: string := "'"
  const IntoText: string := " into "

  /** No `/` in `s` except perhaps its last character. */
  predicate SlashOnlyLast(s: string) {
    forall i :: 0 <= i < |s| - 1 ==> s[i] != '/'
  }

  // ---------------------------------------------------------------------
  // The pull-request pattern
  // ---------------------------------------------------------------------

  /** The last `/` at an index in `1..n`, if any. */
  function LastSlashBefore(t: string, n: nat): (r: Option<nat>)
    requires n <= |t|
    ensures r.Some? ==> 1 <= r.value < n && t[r.value] == '/' && forall q :: r.value < q < n ==> t[q] != '/'
    ensures r.None? ==> forall q :: 1 <= q < n ==> t[q] != '/'
  {
    if n <= 1 then None
    else if t[n - 1] == '/' then Some(n - 1)
    else LastSlashBefore(t, n - 1)
  }

  /**
   * `\S+/(\S+)` on a whole word: the greedy `\S+/` runs to the last `/` that
   * has a character after it and one before it; the group is the rest.
   */
  function OwnerBranch(token: string): (r: Option<string>)
    ensures r.Some? ==> var n := |r.value|;
                        && 0 < n && n + 2 <= |token|
                        && r.value == token[|token| - n..] && token[|token| - n - 1] == '/'
    ensures r.None? <==> forall q :: 1 <= q < |token| - 1 ==> token[q] != '/'
  {
    if token == [] then None
    else match LastSlashBefore(token, |token| - 1)
      case None => None
      case Some(p) => Some(token[p + 1..])
  }

  /** A branch found in a word follows a non-empty owner and a `/`, and has no `/` but perhaps its last character. */
  lemma OwnerBranchSound(token: string) returns (owner: string)
    requires NoSpace(token) && OwnerBranch(token).Some?
    ensures var branch := OwnerBranch(token).value;
            && token == owner + ("/" + branch)
            && owner != [] && NoSpace(owner)
            && branch != [] && NoSpace(branch) && SlashOnlyLast(branch)
  {
    var p := LastSlashBefore(token, |token| - 1).value;
    var branch := token[p + 1..];
    owner := token[..p];
    NoSpaceSlice(token, 0, p);
    NoSpaceSlice(token, p + 1, |token|);
    assert token == token[..p] + ([token[p]] + token[p + 1..]);
    forall i | 0 <= i < |branch| - 1 ensures branch[i] != '/' {
      assert branch[i] == token[p + 1 + i];
    }
  }

  /** `owner/branch` with a slash-free branch yields that branch. */
  lemma OwnerBranchExact(owner: string, branch: string)
    requires owner != [] && branch != [] && '/' !in branch
    ensures OwnerBranch(owner + ("/" + branch)) == Some(branch)
  {
    var token := owner + ("/" + branch);
    var n := |token| - 1;
    assert token[|owner|] == '/';
    forall q | |owner| < q < |token| ensures token[q] != '/' {
      assert token[q] == branch[q - |owner| - 1];
    }
    var r := LastSlashBefore(token, n);
    assert r.Some?;
    assert r.value == |owner|;
    assert token[|owner| + 1..] == branch;
  }

  /** `owner/branch...` with any non-empty branch yields some branch. */
  lemma OwnerBranchFound(owner: string, branch: string)
    requires owner != [] && branch != []
    ensures OwnerBranch(owner + ("/" + branch)).Some?
  {
    var token := owner + ("/" + branch);
    assert token[|owner|] == '/';
  }

  /**
   * The fixed text and the number of `merge_pr_regex`: the longest digit run
   * after `#`, then ` from ` and the text after it.
   */
  function PrNumberAndTail(s: string): (r: Option<(string, string)>)
    ensures r.Some? ==> var (num, tail) := r.value;
                        s == PrPrefix + (num + (FromText + tail)) && num != [] && AllDigits(num)
  {
    match DropPrefix(s, PrPrefix)
    case None => None
    case Some(after) =>
      var num := TakeDigits(after);
      if num == [] then None
      else
        assert after == num + after[|num|..];
        match DropPrefix(after[|num|..], FromText)
        case None => None
        case Some(tail) => Some((num, tail))
  }

  /** `merge_pr_regex.match(s)`: the number, then the branch of the word after ` from `. */
  function MatchPr(s: string): (r: Option<Groups>)
    ensures r.Some? ==> StartsWith(s, PrPrefix) && r.value.first != [] && AllDigits(r.value.first)
  {
    match PrNumberAndTail(s)
    case None => None
    case Some((num, tail)) =>
      match OwnerBranch(TakeNonSpace(tail))
      case None => None
      case Some(branch) => Some(Groups(num, branch))
  }

  /**
   * A match is the pattern's text around its groups: a non-empty owner
   * before the last inner `/`, a branch with no further `/` but perhaps its
   * last character, and whitespace or nothing after the branch.
   */
  lemma MatchPrSound(s: string) returns (owner: string, rest: string)
    requires MatchPr(s).Some?
    ensures var g := MatchPr(s).value;
            && s == PrPrefix + (g.first + (FromText + (owner + ("/" + (g.second + rest)))))
            && owner != [] && NoSpace(owner)
            && g.second != [] && NoSpace(g.second) && SlashOnlyLast(g.second)
            && (rest == [] || IsSpace(rest[0]))
  {
    var g := MatchPr(s).value;
    var tail := PrNumberAndTail(s).value.1;
    var token := TakeNonSpace(tail);
    owner := OwnerBranchSound(token);
    rest := tail[|token|..];
    assert tail == token + rest;
    WordGlue(tail, token, owner, g.second, rest);
  }

  /** The word `owner/branch` and the text after it, put together right-nested. */
  lemma WordGlue(tail: string, token: string, owner: string, branch: string, rest: string)
    requires tail == token + rest && token == owner + ("/" + branch)
    ensures tail == owner + ("/" + (branch + rest))
  {
    Assoc(owner, "/" + branch, rest);
    Assoc("/", branch, rest);
  }

  /** The number and the text after ` from ` are found again in the summary they make up. */
  lemma PrNumberAndTailOf(num: string, tail: string)
    requires num != [] && AllDigits(num)
    ensures PrNumberAndTail(PrPrefix + (num + (FromText + tail))) == Some((num, tail))
  {
    var after := num + (FromText + tail);
    DropPrefixOf(PrPrefix, after);
    TakeDigitsConcat(num, FromText + tail);
    assert after[|num|..] == FromText + tail;
    DropPrefixOf(FromText, tail);
  }

  /** A pull-request summary is matched, with its number as the first group. */
  lemma MatchPrComplete(num: string, owner: string, branch: string, rest: string)
    requires num != [] && AllDigits(num)
    requires owner != [] && NoSpace(owner) && branch != [] && NoSpace(branch)
    ensures var r := MatchPr(PrPrefix + (num + (FromText + (owner + ("/" + (branch + rest))))));
            r.Some? && r.value.first == num
  {
    PrNumberAndTailOf(num, owner + ("/" + (branch + rest)));
    var word := OwnerWord(owner, branch, rest);
    OwnerBranchFound(owner, branch + TakeNonSpace(rest));
  }

  /** With a slash-free branch ending at whitespace or at the end, the branch is exactly the second group. */
  lemma MatchPrExact(num: string, owner: string, branch: string, rest: string)
    requires num != [] && AllDigits(num)
    requires owner != [] && NoSpace(owner) && branch != [] && NoSpace(branch) && '/' !in branch
    requires rest == [] || IsSpace(rest[0])
    ensures MatchPr(PrPrefix + (num + (FromText + (owner + ("/" + (branch + rest)))))) == Some(Groups(num, branch))
  {
    PrNumberAndTailOf(num, owner + ("/" + (branch + rest)));
    var word := OwnerWord(owner, branch, rest);
    assert TakeNonSpace(rest) == [];
    assert branch + TakeNonSpace(rest) == branch;
    OwnerBranchExact(owner, branch);
  }

  /** The word after ` from `: the whole of `owner/branch` and whatever word starts `rest`. */
  lemma OwnerWord(owner: string, branch: string, rest: string) returns (word: string)
    requires NoSpace(owner) && NoSpace(branch)
    ensures word == owner + ("/" + (branch + TakeNonSpace(rest)))
    ensures TakeNonSpace(owner + ("/" + (branch + rest))) == word
  {
    TakeNonSpaceAppend(branch, rest);
    assert NoSpace("/");
    TakeNonSpaceAppend("/", branch + rest);
    TakeNonSpaceAppend(owner, "/" + (branch + rest));
    word := owner + ("/" + (branch + TakeNonSpace(rest)));
  }

  // ---------------------------------------------------------------------
  // The branch patterns
  // ---------------------------------------------------------------------

  /**
   * `prefix(\S+)' into (\S+)` matched at the start of `s`. The first group is
   * the word after `prefix` less its closing quote, which must be the last
   * character of that word; the second is the word after ` into `.
   */
  function MatchBranches(s: string, prefix: string): (r: Option<Groups>)
    ensures r.Some? ==> StartsWith(s, prefix) && r.value.first != [] && r.value.second != []
  {
    match DropPrefix(s, prefix)
    case None => None
    case Some(after) =>
      var word := TakeNonSpace(after);
      if |word| < 2 || word[|word| - 1] != '\'' then None
      else match DropPrefix(after[|word|..], IntoText)
        case None => None
        case Some(tail) =>
          var dst := TakeNonSpace(tail);
          if dst == [] then None else Some(Groups(word[..|word| - 1], dst))
  }

  /** A match is the pattern's text around its two words, the second ending at whitespace or at the end. */
  lemma MatchBranchesSound(s: string, prefix: string) returns (rest: string)
    requires MatchBranches(s, prefix).Some?
    ensures var g := MatchBranches(s, prefix).value;
            && s == prefix + (g.first + (Quote + (IntoText + (g.second + rest))))
            && NoSpace(g.first) && NoSpace(g.second)
            && (rest == [] || IsSpace(rest[0]))
  {
    var g := MatchBranches(s, prefix).value;
    var after := DropPrefix(s, prefix).value;
    var word := TakeNonSpace(after);
    var rem := after[|word|..];
    assert after == word + rem;
    var tail := DropPrefix(rem, IntoText).value;
    rest := tail[|g.second|..];
    assert tail == g.second + rest;
    NoSpaceSlice(word, 0, |word| - 1);
    QuotedWord(word);
    BranchesGlue(s, after, word, rem, tail, g.first, g.second, rest, prefix);
  }

  /** A word of two or more characters ending in a quote is its first part and the quote. */
  lemma QuotedWord(word: string)
    requires |word| >= 2 && word[|word| - 1] == '\''
    ensures word == word[..|word| - 1] + Quote
  {
  }

  /** The pieces of a branch-merge match, put together right-nested. */
  lemma BranchesGlue(s: string, after: string, word: string, rem: string, tail: string,
                     src: string, dst: string, rest: string, prefix: string)
    requires s == prefix + after && after == word + rem && word == src + Quote
    requires rem == IntoText + tail && tail == dst + rest
    ensures s == prefix + (src + (Quote + (IntoText + (dst + rest))))
  {
    Assoc(src, Quote, IntoText + (dst + rest));
  }

  /** A summary of the pattern's shape is matched, with exactly its two words as groups. */
  lemma MatchBranchesComplete(prefix: string, src: string, dst: string, rest: string)
    requires src != [] && NoSpace(src) && dst != [] && NoSpace(dst)
    requires rest == [] || IsSpace(rest[0])
    ensures MatchBranches(prefix + (src + (Quote + (IntoText + (dst + rest)))), prefix) == Some(Groups(src, dst))
  {
    var tail := dst + rest;
    var inner := IntoText + tail;
    var after := src + (Quote + inner);
    DropPrefixOf(prefix, after);
    assert TakeNonSpace(inner) == [];
    assert NoSpace(Quote);
    TakeNonSpaceAppend(Quote, inner);
    TakeNonSpaceAppend(src, Quote + inner);
    var word := src + Quote;
    assert TakeNonSpace(after) == word;
    Assoc(src, Quote, inner);
    assert after[|word|..] == inner;
    DropPrefixOf(IntoText, tail);
    TakeNonSpaceAppend(dst, rest);
    assert TakeNonSpace(rest) == [];
    assert word[..|word| - 1] == src;
  }

  // ---------------------------------------------------------------------
  // parse_merge_message
  // ---------------------------------------------------------------------

  /**
   * `parse_merge_message` on the commit's summary line. `prLookup` is the
   * pull-request secretary: `None` when it cannot look up pull requests,
   * otherwise its `lookup_dst_branch_name`.
   */
  function ParseMergeMessage(summary: string, prLookup: Option<nat -> string>): (info: MergeInfo)
    ensures info.summary.Some? <==> info.src.None?
    ensures info.dst.Some? ==> info.src.Some?
    ensures info.summary.Some? ==> info.summary.value == summary
  {
    match MatchPr(summary)
    case Some(g) =>
      MergeInfo(Some("PR #" + g.first + " " + g.second),
                if prLookup.Some? then Some(prLookup.value(DecimalValue(g.first))) else None,
                None)
    case None =>
      var local := MatchBranches(summary, LocalPrefix);
      var m := if local.Some? then local else MatchBranches(summary, RemotePrefix);
      match m
      case None => MergeInfo(None, None, Some(summary))
      case Some(g) => MergeInfo(Some(g.first), Some(g.second), None)
  }

  /**
   * `MergeInformant`: the repository, as the summary line it holds for each
   * commit hash, and the pull-request secretary, as `ParseMergeMessage`'s
   * lookup.
   */
  datatype MergeInformant = MergeInformant(summaryOf: string -> string, prLookup: Option<nat -> string>) {
    /** `parse_merge_message(commit_hash)`: the commit's summary line, classified. */
    function ParseCommit(commitHash: string): (info: MergeInfo)
      ensures info.summary.Some? <==> info.src.None?
      ensures info.dst.Some? ==> info.src.Some?
      ensures info.summary.Some? ==> info.summary.value == summaryOf(commitHash)
    {
      ParseMergeMessage(summaryOf(commitHash), prLookup)
    }
  }

  /** A pull-request merge: `src` is `PR #<num> <branch>`, and `dst` is looked up exactly when the secretary can look. */
  lemma ParsePullRequest(summary: string, prLookup: Option<nat -> string>)
    requires MatchPr(summary).Some?
    ensures var g := MatchPr(summary).value;
            var info := ParseMergeMessage(summary, prLookup);
            && info.src == Some("PR #" + g.first + " " + g.second)
            && info.summary == None
            && (info.dst.Some? <==> prLookup.Some?)
            && (prLookup.Some? ==> info.dst == Some(prLookup.value(DecimalValue(g.first))))
  {
  }

  /** The three patterns start with different text, so at most one of them matches any summary. */
  lemma PatternsExclusive(s: string)
    ensures !(MatchPr(s).Some? && MatchBranches(s, LocalPrefix).Some?)
    ensures !(MatchPr(s).Some? && MatchBranches(s, RemotePrefix).Some?)
    ensures !(MatchBranches(s, LocalPrefix).Some? && MatchBranches(s, RemotePrefix).Some?)
  {
    PrefixesExclusive(s);
  }

  lemma PrefixesExclusive(s: string)
    ensures !(StartsWith(s, PrPrefix) && StartsWith(s, LocalPrefix))
    ensures !(StartsWith(s, PrPrefix) && StartsWith(s, RemotePrefix))
    ensures !(StartsWith(s, LocalPrefix) && StartsWith(s, RemotePrefix))
  {
    if StartsWith(s, PrPrefix) {
      assert s[6] == PrPrefix[6];
    }
    if StartsWith(s, LocalPrefix) {
      assert s[6] == LocalPrefix[6];
    }
    if StartsWith(s, RemotePrefix) {
      assert s[6] == RemotePrefix[6];
    }
  }

  /** A local or remote-tracking branch merge: `src` and `dst` are the two branch names. */
  lemma ParseBranchMerge(prefix: string, src: string, dst: string, rest: string, prLookup: Option<nat -> string>)
    requires prefix == LocalPrefix || prefix == RemotePrefix
    requires src != [] && NoSpace(src) && dst != [] && NoSpace(dst)
    requires rest == [] || IsSpace(rest[0])
    ensures ParseMergeMessage(prefix + (src + (Quote + (IntoText + (dst + rest)))), prLookup)
            == MergeInfo(Some(src), Some(dst), None)
  {
    var s := prefix + (src + (Quote + (IntoText + (dst + rest))));
    MatchBranchesComplete(prefix, src, dst, rest);
    PatternsExclusive(s);
  }

  /** A summary no pattern matches is kept whole, with neither branch known. */
  lemma ParseOtherMessage(summary: string, prLookup: Option<nat -> string>)
    requires MatchPr(summary).None?
    requires MatchBranches(summary, LocalPrefix).None? && MatchBranches(summary, RemotePrefix).None?
    ensures ParseMergeMessage(summary, prLookup) == MergeInfo(None, None, Some(summary))
  {
  }

  /** A pull-request summary from `owner/branch`: the number and the branch after the owner's slash. */
  lemma ParsePullRequestFrom(num: string, owner: string, branch: string, rest: string, prLookup: Option<nat -> string>)
    requires num != [] && AllDigits(num)
    requires owner != [] && NoSpace(owner) && branch != [] && NoSpace(branch) && '/' !in branch
    requires rest == [] || IsSpace(rest[0])
    ensures var info := ParseMergeMessage(PrPrefix + (num + (FromText + (owner + ("/" + (branch + rest))))), prLookup);
            && info.src == Some("PR #" + num + " " + branch)
            && info.dst == (if prLookup.Some? then Some(prLookup.value(DecimalValue(num))) else None)
            && info.summary == None
  {
    MatchPrExact(num, owner, branch, rest);
  }
}
