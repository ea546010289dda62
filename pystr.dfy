/**
 * The parts of Python's `str` that the program relies on: `isspace` (which is
 * also what `str.strip()` removes and what the regular-expression class `\s`
 * matches), `strip()`, `strip(chars)`, `split(sep)`, `sep in s`, and the join
 * that undoes a split.
 */
module PyStr {
  import opened Wrappers

  /** Python's `str.isspace()` for one character. */
  predicate IsSpace(c: char) {
    || c == ' '
    || ('\t' <= c <= '\r')
    || ('\U{1C}' <= c <= '\U{1F}')
    || c == '\U{85}' || c == '\U{A0}' || c == '\U{1680}'
    || ('\U{2000}' <= c <= '\U{200A}')
    || c == '\U{2028}' || c == '\U{2029}' || c == '\U{202F}' || c == '\U{205F}' || c == '\U{3000}'
  }

  predicate NoSpace(s: string) {
    forall i :: 0 <= i < |s| ==> !IsSpace(s[i])
  }

  predicate AllSpace(s: string) {
    forall i :: 0 <= i < |s| ==> IsSpace(s[i])
  }

  /** Trailing whitespace removed: a prefix of `s`. */
  function StripRight(s: string): (r: string)
    ensures |r| <= |s| && r == s[..|r|]
  {
    if s != [] && IsSpace(s[|s| - 1]) then StripRight(s[..|s| - 1]) else s
  }

  /** What `StripRight` cut off is whitespace, and what it kept does not end with whitespace. */
  lemma {:induction false} StripRightFacts(s: string)
    ensures AllSpace(s[|StripRight(s)|..])
    ensures StripRight(s) == [] || !IsSpace(StripRight(s)[|StripRight(s)| - 1])
    decreases |s|
  {
    if s != [] && IsSpace(s[|s| - 1]) {
      var init := s[..|s| - 1];
      StripRightFacts(init);
      assert s[|StripRight(s)|..] == init[|StripRight(init)|..] + [s[|s| - 1]];
    }
  }

  /** Python's `s.strip()`: leading whitespace dropped one character at a time, then trailing whitespace. */
  function Strip(s: string): string {
    if s != [] && IsSpace(s[0]) then Strip(s[1..]) else StripRight(s)
  }

  /** `Strip(s)` is the slice of `s` left once its whitespace margins are cut away. */
  lemma {:induction false} StripIsCore(s: string) returns (i: nat, j: nat)
    ensures i <= j <= |s| && Strip(s) == s[i..j]
    ensures AllSpace(s[..i]) && AllSpace(s[j..])
    ensures Strip(s) == [] || (!IsSpace(Strip(s)[0]) && !IsSpace(Strip(s)[|Strip(s)| - 1]))
    decreases |s|
  {
    if s != [] && IsSpace(s[0]) {
      var i', j' := StripIsCore(s[1..]);
      i, j := i' + 1, j' + 1;
      assert s[1..][i'..j'] == s[i..j];
      assert s[..i] == [s[0]] + s[1..][..i'];
      assert s[j..] == s[1..][j'..];
    } else {
      StripRightFacts(s);
      i, j := 0, |StripRight(s)|;
      assert Strip(s) == s[..j];
      assert Strip(s) != [] ==> Strip(s)[0] == s[0];
    }
  }

  /** Python's `s.strip(c)` for a one-character strip set: `c` is removed from both ends. */
  function StripCharLeft(s: string, c: char): (r: string)
    ensures |r| <= |s| && r == s[|s| - |r|..]
    ensures r == [] || r[0] != c
  {
    if s != [] && s[0] == c then StripCharLeft(s[1..], c) else s
  }

  function StripCharRight(s: string, c: char): (r: string)
    ensures |r| <= |s| && r == s[..|r|]
    ensures r == [] || r[|r| - 1] != c
  {
    if s != [] && s[|s| - 1] == c then StripCharRight(s[..|s| - 1], c) else s
  }

  function StripChar(s: string, c: char): string {
    StripCharRight(StripCharLeft(s, c), c)
  }

  /** `sub` occurs in `s` starting at index `i`. */
  predicate OccursAt(s: string, sub: string, i: nat) {
    i + |sub| <= |s| && s[i..i + |sub|] == sub
  }

  /** Python's `sub in s`. */
  predicate Contains(s: string, sub: string) {
    exists i: nat :: i <= |s| && OccursAt(s, sub, i)
  }

  /** Python's `s.find(sub, i)`: the first occurrence at or after `i`. */
  function FindFrom(s: string, sub: string, i: nat): (r: Option<nat>)
    requires sub != []
    decreases |s| - i
    ensures r.Some? ==> i <= r.value && OccursAt(s, sub, r.value)
    ensures r.Some? ==> forall j: nat :: i <= j < r.value ==> !OccursAt(s, sub, j)
    ensures r.None? ==> forall j: nat :: i <= j ==> !OccursAt(s, sub, j)
  {
    if i + |sub| > |s| then None
    else if s[i..i + |sub|] == sub then Some(i)
    else FindFrom(s, sub, i + 1)
  }

  /** Python's `s.split(sep)`: cut at every occurrence of `sep`, scanning left to right. */
  function Split(s: string, sep: string): (parts: seq<string>)
    requires sep != []
    ensures |parts| >= 1
    decreases |s|
  {
    match FindFrom(s, sep, 0)
    case None => [s]
    case Some(i) => [s[..i]] + Split(s[i + |sep|..], sep)
  }

  /** Python's `sep.join(parts)`. */
  function Join(parts: seq<string>, sep: string): string {
    if parts == [] then ""
    else if |parts| == 1 then parts[0]
    else parts[0] + sep + Join(parts[1..], sep)
  }

  /** Joining the pieces of a split with the same separator gives back the string. */
  lemma {:induction false} JoinSplit(s: string, sep: string)
    requires sep != []
    ensures Join(Split(s, sep), sep) == s
    decreases |s|
  {
    match FindFrom(s, sep, 0)
    case None =>
    case Some(i) =>
      var rest := s[i + |sep|..];
      assert OccursAt(s, sep, i);
      var parts := Split(s, sep);
      assert parts == [s[..i]] + Split(rest, sep);
      assert |parts| >= 2 && parts[0] == s[..i] && parts[1..] == Split(rest, sep);
      JoinSplit(rest, sep);
      calc {
        Join(parts, sep);
        parts[0] + sep + Join(parts[1..], sep);
        s[..i] + sep + rest;
        { assert s == s[..i] + s[i..i + |sep|] + s[i + |sep|..]; }
        s;
      }
  }

  lemma FindFromFirst(s: string, sub: string, i: nat)
    requires sub != [] && OccursAt(s, sub, i)
    requires forall j: nat :: j < i ==> !OccursAt(s, sub, j)
    ensures FindFrom(s, sub, 0) == Some(i)
  {
  }

  lemma OccursAtChar(s: string, c: char, j: nat)
    ensures OccursAt(s, [c], j) <==> j < |s| && s[j] == c
  {
    if j < |s| {
      assert s[j..j + 1] == [s[j]];
    }
  }

  /** The first cut of a split on one character is at the character's first occurrence. */
  lemma FirstSeparator(s: string, c: char, i: nat)
    requires i < |s| && s[i] == c && forall j :: 0 <= j < i ==> s[j] != c
    ensures FindFrom(s, [c], 0) == Some(i)
  {
    forall j: nat | j < i ensures !OccursAt(s, [c], j) {
      OccursAtChar(s, c, j);
    }
    OccursAtChar(s, c, i);
    FindFromFirst(s, [c], i);
  }

  /** A split on a character that does not occur makes no cut. */
  lemma NoSeparator(s: string, c: char)
    requires c !in s
    ensures FindFrom(s, [c], 0) == None
  {
    forall j: nat ensures !OccursAt(s, [c], j) {
      OccursAtChar(s, c, j);
    }
  }

  /** One step of a split on a character, at its first occurrence `i`. */
  lemma SplitStep(s: string, c: char, i: nat)
    requires i < |s| && s[i] == c && forall j :: 0 <= j < i ==> s[j] != c
    ensures Split(s, [c]) == [s[..i]] + Split(s[i + 1..], [c])
  {
    FirstSeparator(s, c, i);
  }

  /** A leading separator cuts off an empty first piece. */
  lemma SplitLeadingSeparator(s: string, c: char)
    ensures Split([c] + s, [c]) == [""] + Split(s, [c])
  {
    SplitStep([c] + s, c, 0);
    assert ([c] + s)[1..] == s;
  }

  /** A leading non-separator character joins the first piece. */
  lemma SplitLeadingOther(a: char, s: string, c: char)
    requires a != c
    ensures var p := Split(s, [c]); Split([a] + s, [c]) == [[a] + p[0]] + p[1..]
  {
    if c in s {
      var i := LeastIndex(s, c);
      SplitStep(s, c, i);
      SplitLeadingOtherAt(a, s, c, i);
    } else {
      var s' := [a] + s;
      NoSeparator(s, c);
      assert c !in s' by {
        forall j | 0 <= j < |s'| ensures s'[j] != c {
          if j > 0 {
            assert s'[j] == s[j - 1];
          }
        }
      }
      NoSeparator(s', c);
    }
  }

  /** The first separator of `s` at `i` is the first of `[a] + s` at `i + 1`. */
  lemma SplitLeadingOtherAt(a: char, s: string, c: char, i: nat)
    requires a != c && i < |s| && s[i] == c && forall j :: 0 <= j < i ==> s[j] != c
    ensures Split([a] + s, [c]) == [[a] + s[..i]] + Split(s[i + 1..], [c])
  {
    var s' := [a] + s;
    forall j | 0 <= j < i + 1 ensures s'[j] != c {
      if j > 0 {
        assert s'[j] == s[j - 1];
      }
    }
    SplitStep(s', c, i + 1);
    assert s'[..i + 1] == [a] + s[..i];
    assert s'[i + 2..] == s[i + 1..];
  }

  /** `s.split(c)` for a one-character separator, read character by character from the front. */
  function SplitOnChar(s: string, c: char): (parts: seq<string>)
    ensures |parts| >= 1
  {
    if s == [] then [""]
    else
      var rest := SplitOnChar(s[1..], c);
      if s[0] == c then [""] + rest else [[s[0]] + rest[0]] + rest[1..]
  }

  /** The one-character reading agrees with the left-to-right scan of `Split`. */
  lemma {:induction false} SplitOnCharAgrees(s: string, c: char)
    ensures Split(s, [c]) == SplitOnChar(s, c)
    decreases |s|
  {
    if s == [] {
      NoSeparator(s, c);
    } else {
      SplitOnCharAgrees(s[1..], c);
      assert s == [s[0]] + s[1..];
      if s[0] == c {
        SplitLeadingSeparator(s[1..], c);
      } else {
        SplitLeadingOther(s[0], s[1..], c);
      }
    }
  }

  lemma SplitOnCharCons(a: char, s: string, c: char)
    ensures var p := SplitOnChar(s, c);
            SplitOnChar([a] + s, c) == if a == c then [""] + p else [[a] + p[0]] + p[1..]
  {
    assert ([a] + s)[0] == a && ([a] + s)[1..] == s;
  }

  lemma ConsAssoc<T>(f: T, p: seq<T>, q: seq<T>)
    ensures [f] + (p + q) == ([f] + p) + q
  {
  }

  lemma GlueFirst<T>(f: T, p: seq<T>, q: seq<T>)
    requires |p| >= 1
    ensures (p + q)[0] == p[0] && [f] + (p + q)[1..] == ([f] + p[1..]) + q
  {
    assert (p + q)[1..] == p[1..] + q;
  }

  lemma {:induction false} SplitOnCharAround(x: string, c: char, y: string)
    ensures SplitOnChar(x + [c] + y, c) == SplitOnChar(x, c) + SplitOnChar(y, c)
    decreases |x|
  {
    if x == [] {
      assert x + [c] + y == [c] + y;
      SplitOnCharCons(c, y, c);
    } else {
      var a, tail := x[0], x[1..] + [c] + y;
      assert x + [c] + y == [a] + tail;
      assert x == [a] + x[1..];
      SplitOnCharCons(a, tail, c);
      SplitOnCharCons(a, x[1..], c);
      SplitOnCharAround(x[1..], c, y);
      var p, q := SplitOnChar(x[1..], c), SplitOnChar(y, c);
      if a == c {
        ConsAssoc("", p, q);
      } else {
        GlueFirst([a] + p[0], p, q);
      }
    }
  }

  /** Splitting on one character cuts independently on either side of an occurrence of it. */
  lemma SplitAroundSeparator(x: string, c: char, y: string)
    ensures Split(x + [c] + y, [c]) == Split(x, [c]) + Split(y, [c])
  {
    SplitOnCharAgrees(x + [c] + y, c);
    SplitOnCharAgrees(x, c);
    SplitOnCharAgrees(y, c);
    SplitOnCharAround(x, c, y);
  }

  lemma {:induction false} LeastIndex(x: string, c: char) returns (i: nat)
    requires c in x
    ensures i < |x| && x[i] == c && forall j :: 0 <= j < i ==> x[j] != c
  {
    if x[0] == c {
      i := 0;
    } else {
      assert c in x[1..] by {
        var k :| 0 <= k < |x| && x[k] == c;
        assert x[1..][k - 1] == c;
      }
      var k := LeastIndex(x[1..], c);
      i := k + 1;
      forall j | 0 <= j < i ensures x[j] != c {
        if j > 0 {
          assert x[j] == x[1..][j - 1];
        }
      }
    }
  }

  /** Two separators in a row leave an empty piece between them. */
  lemma DoubledSeparator(x: string, c: char, y: string)
    ensures Split(x + [c, c] + y, [c]) == Split(x, [c]) + [""] + Split(y, [c])
  {
    assert x + [c, c] + y == x + [c] + ([c] + y);
    SplitAroundSeparator(x, c, [c] + y);
    SplitLeadingSeparator(y, c);
    Assoc(Split(x, [c]), [""], Split(y, [c]));
  }

  /** No piece of a split contains the separator. */
  lemma {:induction false} SplitPiecesFree(s: string, sep: string)
    requires sep != []
    ensures forall k :: 0 <= k < |Split(s, sep)| ==> !Contains(Split(s, sep)[k], sep)
    decreases |s|
  {
    match FindFrom(s, sep, 0)
    case None =>
      forall j: nat | OccursAt(s, sep, j) ensures false { }
    case Some(i) =>
      var rest := s[i + |sep|..];
      SplitPiecesFree(rest, sep);
      forall j: nat | OccursAt(s[..i], sep, j) ensures false {
        assert s[..i][j..j + |sep|] == s[j..j + |sep|];
        assert OccursAt(s, sep, j);
      }
  }

  /** A split has a single piece exactly when the separator does not occur. */
  lemma SplitSingleIff(s: string, sep: string)
    requires sep != []
    ensures |Split(s, sep)| == 1 <==> !Contains(s, sep)
  {
    match FindFrom(s, sep, 0)
    case None =>
      forall j: nat | OccursAt(s, sep, j) ensures false { }
    case Some(i) =>
  }

  lemma OccursInSlice(s: string, i: nat, j: nat, sub: string, k: nat)
    requires i <= j <= |s|
    ensures OccursAt(s[i..j], sub, k) <==> k + |sub| <= j - i && OccursAt(s, sub, i + k)
  {
    if k + |sub| <= j - i {
      var n := |sub|;
      var inner, outer := s[i..j][k..k + n], s[i + k..i + k + n];
      forall t | 0 <= t < n ensures inner[t] == outer[t] {
        assert inner[t] == s[i..j][k + t] == s[i + k + t];
      }
      assert inner == outer;
    }
  }

  /** An occurrence of a whitespace-free `sub` lies clear of whitespace margins. */
  lemma OccurrenceInsideMargins(s: string, i: nat, j: nat, sub: string, k: nat)
    requires i <= j <= |s| && AllSpace(s[..i]) && AllSpace(s[j..])
    requires sub != [] && NoSpace(sub) && OccursAt(s, sub, k)
    ensures i <= k && k + |sub| <= j
  {
    assert forall t :: 0 <= t < i ==> s[..i][t] == s[t];
    assert forall t :: j <= t < |s| ==> s[j..][t - j] == s[t];
    assert s[k..k + |sub|][0] == s[k];
    var e := k + |sub| - 1;
    assert s[k..k + |sub|][|sub| - 1] == s[e];
  }

  /**
   * Trimming whitespace neither creates nor removes an occurrence of a
   * separator that has no whitespace in it.
   */
  lemma ContainsStrip(s: string, sub: string)
    requires sub != [] && NoSpace(sub)
    ensures Contains(Strip(s), sub) <==> Contains(s, sub)
  {
    var i, j := StripIsCore(s);
    if Contains(s, sub) {
      var k: nat :| OccursAt(s, sub, k);
      OccurrenceInsideMargins(s, i, j, sub, k);
      OccursInSlice(s, i, j, sub, k - i);
      assert OccursAt(Strip(s), sub, k - i);
    }
    if Contains(Strip(s), sub) {
      var k: nat :| OccursAt(Strip(s), sub, k);
      OccursInSlice(s, i, j, sub, k);
      assert OccursAt(s, sub, i + k);
    }
  }

  /** The longest prefix without whitespace (what a greedy `\S*` consumes). */
  function TakeNonSpace(s: string): (r: string)
    ensures |r| <= |s| && r == s[..|r|] && NoSpace(r)
    ensures |r| == |s| || IsSpace(s[|r|])
  {
    if s == [] || IsSpace(s[0]) then [] else [s[0]] + TakeNonSpace(s[1..])
  }

  /** A word followed by anything: the word is taken whole, then whatever word starts the rest. */
  lemma {:induction false} TakeNonSpaceAppend(a: string, b: string)
    requires NoSpace(a)
    ensures TakeNonSpace(a + b) == a + TakeNonSpace(b)
    decreases |a|
  {
    if a == [] {
      assert a + b == b;
    } else {
      assert (a + b)[0] == a[0] && (a + b)[1..] == a[1..] + b;
      assert NoSpace(a[1..]) by {
        forall i | 0 <= i < |a[1..]| ensures !IsSpace(a[1..][i]) {
          assert a[1..][i] == a[i + 1];
        }
      }
      TakeNonSpaceAppend(a[1..], b);
      ConsAssoc(a[0], a[1..], TakeNonSpace(b));
      assert a == [a[0]] + a[1..];
    }
  }

  predicate IsDigit(c: char) {
    '0' <= c <= '9'
  }

  predicate AllDigits(s: string) {
    forall i :: 0 <= i < |s| ==> IsDigit(s[i])
  }

  /** The longest prefix of ASCII digits (what a greedy `\d*` consumes). */
  function TakeDigits(s: string): (r: string)
    ensures |r| <= |s| && r == s[..|r|] && AllDigits(r)
    ensures |r| == |s| || !IsDigit(s[|r|])
  {
    if s == [] || !IsDigit(s[0]) then [] else [s[0]] + TakeDigits(s[1..])
  }

  /** A digit run followed by a non-digit or by nothing is taken whole. */
  lemma {:induction false} TakeDigitsConcat(a: string, b: string)
    requires AllDigits(a) && (b == [] || !IsDigit(b[0]))
    ensures TakeDigits(a + b) == a
    decreases |a|
  {
    if a == [] {
      assert a + b == b;
    } else {
      assert (a + b)[0] == a[0] && (a + b)[1..] == a[1..] + b;
      assert AllDigits(a[1..]) by {
        forall i | 0 <= i < |a[1..]| ensures IsDigit(a[1..][i]) {
          assert a[1..][i] == a[i + 1];
        }
      }
      TakeDigitsConcat(a[1..], b);
      assert a == [a[0]] + a[1..];
    }
  }

  /** Python's `int(s)` on a string of ASCII digits. */
  function DecimalValue(s: string): nat
    requires AllDigits(s)
  {
    if s == [] then 0 else 10 * DecimalValue(s[..|s| - 1]) + (s[|s| - 1] as int - '0' as int)
  }

  /** `prefix` starts `s`. */
  predicate StartsWith(s: string, prefix: string) {
    |prefix| <= |s| && s[..|prefix|] == prefix
  }

  /** What follows `prefix` at the start of `s`, if `s` starts with it. */
  function DropPrefix(s: string, prefix: string): (r: Option<string>)
    ensures r.Some? <==> StartsWith(s, prefix)
    ensures r.Some? ==> s == prefix + r.value
  {
    if StartsWith(s, prefix) then Some(s[|prefix|..]) else None
  }

  lemma DropPrefixOf(prefix: string, t: string)
    ensures DropPrefix(prefix + t, prefix) == Some(t)
  {
    assert (prefix + t)[..|prefix|] == prefix && (prefix + t)[|prefix|..] == t;
  }

  lemma Assoc<T>(a: seq<T>, b: seq<T>, c: seq<T>)
    ensures (a + b) + c == a + (b + c)
  {
  }

  /** Every slice of a word is a word. */
  lemma NoSpaceSlice(s: string, i: nat, j: nat)
    requires i <= j <= |s| && NoSpace(s)
    ensures NoSpace(s[i..j])
  {
    var slice := s[i..j];
    forall k | 0 <= k < |slice| ensures !IsSpace(slice[k]) {
      assert slice[k] == s[i + k];
    }
  }
}
