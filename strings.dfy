/**
 * Plane IDs and the order the registry keeps them in.
 *
 * An ID is the text of one C string (no terminating NUL). The registry orders
 * IDs with `strcmp`, i.e. byte-wise lexicographic order in which a proper
 * prefix sorts before any of its extensions. `StrCmp` gives the sign of
 * `strcmp`, which is all the sort ever looks at.
 */
module Strings {

  /** The characters of a C string before its terminating NUL, so an ID
      never contains `'\0'`; `StrCmp` agrees with `strcmp` only on such IDs. */
  type Id = seq<char>

  /** The sign of `strcmp(a, b)`: -1, 0 or 1. */
  function StrCmp(a: Id, b: Id): (c: int)
    ensures -1 <= c <= 1
  {
    if a == [] && b == [] then 0
    else if a == [] then -1
    else if b == [] then 1
    else if a[0] < b[0] then -1
    else if a[0] > b[0] then 1
    else StrCmp(a[1..], b[1..])
  }

  /** Reference definition of "a sorts strictly before b", independent of the
      character-by-character recursion above. */
  ghost predicate LexLess(a: Id, b: Id) {
    (|a| < |b| && a == b[..|a|]) ||
    (exists k :: 0 <= k < |a| && k < |b| && a[..k] == b[..k] && a[k] < b[k])
  }

  /** Index of the first `c` in `t`, or `|t|` when there is none. */
  function IndexOf(t: seq<char>, c: char): (k: nat)
    ensures k <= |t|
    ensures k < |t| ==> t[k] == c
    ensures forall i :: 0 <= i < k ==> t[i] != c
  {
    if t == [] || t[0] == c then 0 else 1 + IndexOf(t[1..], c)
  }

  /** `a` may stay in front of `b`: the swap test `strcmp(a, b) > 0` fails. */
  predicate LessEq(a: Id, b: Id) {
    StrCmp(a, b) <= 0
  }

  /** Every earlier entry may stay in front of every later one. */
  predicate Sorted(s: seq<Id>) {
    forall i, j :: 0 <= i < j < |s| ==> LessEq(s[i], s[j])
  }

  /** `strcmp` reports 0 exactly for equal strings. */
  lemma {:induction false} StrCmpZero(a: Id, b: Id)
    ensures StrCmp(a, b) == 0 <==> a == b
  {
    if a != [] && b != [] && a[0] == b[0] {
      StrCmpZero(a[1..], b[1..]);
      if a[1..] == b[1..] {
        assert a == [a[0]] + a[1..] && b == [b[0]] + b[1..];
      }
    }
  }

  /** Swapping the arguments flips the sign. */
  lemma {:induction false} StrCmpAntisymmetric(a: Id, b: Id)
    ensures StrCmp(a, b) == -StrCmp(b, a)
  {
    if a != [] && b != [] && a[0] == b[0] {
      StrCmpAntisymmetric(a[1..], b[1..]);
    }
  }

  /** `LessEq` is transitive. */
  lemma {:induction false} LessEqTransitive(a: Id, b: Id, c: Id)
    requires LessEq(a, b) && LessEq(b, c)
    ensures LessEq(a, c)
  {
    if a != [] && b != [] && c != [] && a[0] == b[0] == c[0] {
      LessEqTransitive(a[1..], b[1..], c[1..]);
    }
  }

  /** `LessEq` is total: when the swap test fires, the swapped pair is in order. */
  lemma LessEqTotal(a: Id, b: Id)
    ensures LessEq(a, b) || LessEq(b, a)
    ensures !LessEq(a, b) ==> LessEq(b, a)
  {
    StrCmpAntisymmetric(a, b);
  }

  /** `LessEq` is antisymmetric: two IDs each allowed before the other are equal. */
  lemma LessEqAntisymmetric(a: Id, b: Id)
    requires LessEq(a, b) && LessEq(b, a)
    ensures a == b
  {
    StrCmpAntisymmetric(a, b);
    StrCmpZero(a, b);
  }

  /** Two IDs whose first characters differ share no non-empty prefix. */
  lemma HeadsDiffer(a: Id, b: Id)
    requires a != [] && b != [] && a[0] != b[0]
    ensures forall k :: 0 < k <= |a| && k <= |b| ==> a[..k] != b[..k]
  {
  }

  /** The recursive comparison agrees with the reference definition of
      lexicographic order, in both directions. */
  lemma {:induction false} StrCmpNegativeIff(a: Id, b: Id)
    ensures StrCmp(a, b) < 0 <==> LexLess(a, b)
  {
    if a == [] || b == [] {
      if LexLess(a, b) {
        assert |a| < |b|;
      }
    } else if a[0] < b[0] {
      assert a[..0] == b[..0];
    } else if a[0] > b[0] {
      HeadsDiffer(a, b);
    } else {
      StrCmpNegativeIff(a[1..], b[1..]);
      if LexLess(a[1..], b[1..]) {
        if |a[1..]| < |b[1..]| && a[1..] == b[1..][..|a[1..]|] {
          assert a == [a[0]] + a[1..];
          assert b[..|a|] == [b[0]] + b[1..][..|a[1..]|];
        } else {
          var k :| 0 <= k < |a[1..]| && k < |b[1..]| && a[1..][..k] == b[1..][..k] && a[1..][k] < b[1..][k];
          assert a[..k + 1] == [a[0]] + a[1..][..k];
          assert b[..k + 1] == [b[0]] + b[1..][..k];
          assert a[k + 1] < b[k + 1];
        }
      }
      if LexLess(a, b) {
        if |a| < |b| && a == b[..|a|] {
          assert a[1..] == b[1..][..|a[1..]|];
        } else {
          var k :| 0 <= k < |a| && k < |b| && a[..k] == b[..k] && a[k] < b[k];
          assert k != 0;
          assert a[1..][..k - 1] == a[..k][1..] == b[..k][1..] == b[1..][..k - 1];
          assert a[1..][k - 1] < b[1..][k - 1];
        }
      }
    }
  }

  /** Inserts `x` into `s` in front of the first entry it may precede. */
  function InsertSorted(s: seq<Id>, x: Id): (r: seq<Id>)
    ensures |r| == |s| + 1
    ensures multiset(r) == multiset(s) + multiset{x}
  {
    if s == [] || LessEq(x, s[0]) then [x] + s
    else
      assert s == [s[0]] + s[1..];
      [s[0]] + InsertSorted(s[1..], x)
  }

  /** Inserting into a sorted sequence keeps it sorted. */
  lemma {:induction false} InsertSortedKeepsSorted(s: seq<Id>, x: Id)
    requires Sorted(s)
    ensures Sorted(InsertSorted(s, x))
  {
    var r := InsertSorted(s, x);
    if s == [] || LessEq(x, s[0]) {
      forall i, j | 0 <= i < j < |r| ensures LessEq(r[i], r[j]) {
        if i == 0 && j > 1 { LessEqTransitive(x, s[0], s[j - 1]); }
      }
    } else {
      LessEqTotal(x, s[0]);
      var t := InsertSorted(s[1..], x);
      InsertSortedKeepsSorted(s[1..], x);
      forall i, j | 0 <= i < j < |r| ensures LessEq(r[i], r[j]) {
        if i == 0 {
          assert r[j] == t[j - 1] && r[j] in multiset(t);
          if r[j] != x {
            SortedHeadBeforeTail(s, r[j]);
          }
        }
      }
    }
  }

  /** The first entry of a sorted sequence may precede every later entry. */
  lemma SortedHeadBeforeTail(s: seq<Id>, y: Id)
    requires Sorted(s) && s != [] && y in multiset(s[1..])
    ensures LessEq(s[0], y)
  {
    var k :| 0 <= k < |s[1..]| && s[1..][k] == y;
    assert s[k + 1] == y;
  }

  /** The first entry of a sorted sequence may precede every entry. */
  lemma SortedHeadFirst(s: seq<Id>, x: Id)
    requires Sorted(s) && x in s
    ensures LessEq(s[0], x)
  {
    var i :| 0 <= i < |s| && s[i] == x;
    if i == 0 { StrCmpZero(x, x); }
  }

  /** A sorted sequence is determined by its multiset of entries. */
  lemma {:induction false} SortedUnique(s: seq<Id>, t: seq<Id>)
    requires Sorted(s) && Sorted(t)
    requires multiset(s) == multiset(t)
    ensures s == t
  {
    if s != [] {
      assert |t| == |s| by { assert |multiset(t)| == |multiset(s)|; }
      assert s[0] in multiset(t) && t[0] in multiset(s);
      SortedHeadFirst(t, s[0]);
      SortedHeadFirst(s, t[0]);
      LessEqAntisymmetric(s[0], t[0]);
      TailMultiset(s);
      TailMultiset(t);
      SortedUnique(s[1..], t[1..]);
      assert s == [s[0]] + s[1..] && t == [t[0]] + t[1..];
    }
  }

  lemma TailMultiset(s: seq<Id>)
    requires s != []
    ensures multiset(s[1..]) == multiset(s) - multiset{s[0]}
  {
    assert s == [s[0]] + s[1..];
  }
}
