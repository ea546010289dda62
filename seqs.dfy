/** Sequence facts shared by the dictionary and list models. */
module Seqs {

  predicate Distinct<T(==)>(s: seq<T>) {
    forall i, j :: 0 <= i < j < |s| ==> s[i] != s[j]
  }

  /** `s` with every occurrence of `x` taken out, the rest in order. */
  function Remove<T(==, !new)>(s: seq<T>, x: T): (r: seq<T>)
    ensures forall y :: y in r <==> y in s && y != x
    ensures |r| <= |s|
  {
    if s == [] then []
    else (if s[0] == x then [] else [s[0]]) + Remove(s[1..], x)
  }

  lemma RemoveAbsent<T(!new)>(s: seq<T>, x: T)
    requires x !in s
    ensures Remove(s, x) == s
  {
  }

  /** Removing a member of a duplicate-free sequence shortens it by one and keeps it duplicate-free. */
  lemma {:induction false} RemoveDistinct<T(!new)>(s: seq<T>, x: T)
    requires Distinct(s)
    ensures Distinct(Remove(s, x))
    ensures x in s ==> |Remove(s, x)| == |s| - 1
    ensures x !in s ==> Remove(s, x) == s
  {
    if s == [] {
    } else {
      assert Distinct(s[1..]) by {
        forall i, j | 0 <= i < j < |s[1..]| ensures s[1..][i] != s[1..][j] {
          assert s[1..][i] == s[i + 1] && s[1..][j] == s[j + 1];
        }
      }
      RemoveDistinct(s[1..], x);
      var rest := Remove(s[1..], x);
      if s[0] == x {
        assert x !in s[1..];
        RemoveAbsent(s[1..], x);
      } else {
        assert s[0] !in rest;
        forall i, j | 0 <= i < j < |[s[0]] + rest| ensures ([s[0]] + rest)[i] != ([s[0]] + rest)[j] {
          if i == 0 {
            assert ([s[0]] + rest)[j] == rest[j - 1];
            assert rest[j - 1] in rest;
          } else {
            assert ([s[0]] + rest)[i] == rest[i - 1] && ([s[0]] + rest)[j] == rest[j - 1];
          }
        }
      }
    }
  }

  /** Removing either member of a pair leaves the other. */
  lemma RemoveOfPair<T(!new)>(a: T, b: T)
    requires a != b
    ensures Remove([a, b], a) == [b] && Remove([a, b], b) == [a]
  {
    assert [a, b][1..] == [b] && [b][1..] == [];
  }

  lemma AppendDistinct<T>(s: seq<T>, x: T)
    requires Distinct(s) && x !in s
    ensures Distinct(s + [x])
  {
    forall i, j | 0 <= i < j < |s + [x]| ensures (s + [x])[i] != (s + [x])[j] {
      if j == |s| {
        assert (s + [x])[i] == s[i];
        assert s[i] in s;
      } else {
        assert (s + [x])[i] == s[i] && (s + [x])[j] == s[j];
      }
    }
  }

  /** Python's `s.index(x)`: the position of the first occurrence of `x`. */
  function IndexOf<T(==)>(s: seq<T>, x: T): (i: nat)
    requires x in s
    ensures i < |s| && s[i] == x && x !in s[..i]
  {
    if s[0] == x then 0
    else
      var k := IndexOf(s[1..], x);
      assert s[..k + 1] == [s[0]] + s[1..][..k];
      k + 1
  }

  /** A position holding `x` with no `x` before it is `IndexOf(s, x)`. */
  lemma IndexOfUnique<T>(s: seq<T>, x: T, i: nat)
    requires i < |s| && s[i] == x && x !in s[..i]
    ensures IndexOf(s, x) == i
  {
  }

  /** Appending an element moves no first occurrence; a new element comes first at the end. */
  lemma IndexOfSnoc<T>(s: seq<T>, x: T, y: T)
    requires y in s + [x]
    ensures IndexOf(s + [x], y) == if y in s then IndexOf(s, y) else |s|
  {
    if y in s {
      var k := IndexOf(s, y);
      assert (s + [x])[..k] == s[..k];
      IndexOfUnique(s + [x], y, k);
    } else {
      assert (s + [x])[..|s|] == s;
      IndexOfUnique(s + [x], y, |s|);
    }
  }

  /** Every element of `t` occurs in `s`, and `t` lists them in the order of their first occurrence there. */
  predicate FirstOccurrenceOrder<T(==)>(t: seq<T>, s: seq<T>) {
    && (forall i :: 0 <= i < |t| ==> t[i] in s)
    && (forall i, j :: 0 <= i < j < |t| ==> IndexOf(s, t[i]) < IndexOf(s, t[j]))
  }

  /** Appending to `s` keeps the order of what `t` lists. */
  lemma FirstOccurrenceSnoc<T>(t: seq<T>, s: seq<T>, x: T)
    requires FirstOccurrenceOrder(t, s)
    ensures FirstOccurrenceOrder(t, s + [x])
  {
    forall i | 0 <= i < |t| ensures IndexOf(s + [x], t[i]) == IndexOf(s, t[i]) {
      IndexOfSnoc(s, x, t[i]);
    }
  }

  /** A new element appended to both comes last in both. */
  lemma FirstOccurrenceSnocNew<T>(t: seq<T>, s: seq<T>, x: T)
    requires FirstOccurrenceOrder(t, s) && x !in s
    ensures FirstOccurrenceOrder(t + [x], s + [x])
  {
    FirstOccurrenceSnoc(t, s, x);
    IndexOfSnoc(s, x, x);
    var t' := t + [x];
    forall i | 0 <= i < |t'| ensures t'[i] in s + [x] {
      if i < |t| {
        assert t'[i] == t[i];
      }
    }
    forall i, j | 0 <= i < j < |t'| ensures IndexOf(s + [x], t'[i]) < IndexOf(s + [x], t'[j]) {
      assert t'[i] == t[i];
      if j < |t| {
        assert t'[j] == t[j];
      }
    }
  }

  /** Where the pieces of `h + x + [m] + y + [f]` sit. */
  lemma FramedTwo<T>(h: seq<T>, x: seq<T>, m: T, y: seq<T>, f: T)
    ensures var l := h + x + [m] + y + [f];
            && |l| == |h| + |x| + |y| + 2
            && l[..|h|] == h
            && (forall i :: 0 <= i < |x| ==> l[|h| + i] == x[i])
            && l[|h| + |x|] == m
            && (forall j :: 0 <= j < |y| ==> l[|h| + |x| + 1 + j] == y[j])
            && l[|l| - 1] == f
  {
  }

  /** Where the pieces of `h + x + [m] + y + [n] + z + [f]` sit. */
  lemma FramedThree<T>(h: seq<T>, x: seq<T>, m: T, y: seq<T>, n: T, z: seq<T>, f: T)
    ensures var l := h + x + [m] + y + [n] + z + [f];
            && |l| == |h| + |x| + |y| + |z| + 3
            && l[..|h|] == h
            && (forall i :: 0 <= i < |x| ==> l[|h| + i] == x[i])
            && l[|h| + |x|] == m
            && (forall j :: 0 <= j < |y| ==> l[|h| + |x| + 1 + j] == y[j])
            && l[|h| + |x| + 1 + |y|] == n
            && (forall k :: 0 <= k < |z| ==> l[|h| + |x| + |y| + 2 + k] == z[k])
            && l[|l| - 1] == f
  {
  }
}
