/**
 * The few str operations the tool relies on: `endswith`, `lower`, and the
 * ordering used by `sorted` (lexicographic by code point, a proper prefix
 * coming first). `sorted` on a list of paths yields the unique ordered
 * permutation of the list under this order.
 */
module Strings {

  predicate EndsWith(s: string, suffix: string) {
    |suffix| <= |s| && s[|s| - |suffix|..] == suffix
  }

  predicate StartsWith(s: string, prefix: string) {
    |prefix| <= |s| && s[..|prefix|] == prefix
  }

  /** Lower-cases one character; only ASCII letters change (see README). */
  function LowerChar(c: char): (d: char)
    ensures 'A' <= c <= 'Z' ==> d as int == c as int + 32
    ensures !('A' <= c <= 'Z') ==> d == c
  {
    if 'A' <= c <= 'Z' then (c as int + 32) as char else c
  }

  /** str.lower() */
  function Lower(s: string): (r: string)
    ensures |r| == |s|
    ensures forall i :: 0 <= i < |s| ==> r[i] == LowerChar(s[i])
  {
    seq(|s|, i requires 0 <= i < |s| => LowerChar(s[i]))
  }

  /** a <= b as Python compares two str values. */
  predicate LessEq(a: string, b: string)
    decreases |a|
  {
    |a| == 0 || (|b| > 0 && (a[0] < b[0] || (a[0] == b[0] && LessEq(a[1..], b[1..]))))
  }

  lemma {:induction false} LessEqReflexive(a: string)
    ensures LessEq(a, a)
    decreases |a|
  {
    if |a| > 0 {
      LessEqReflexive(a[1..]);
    }
  }

  lemma {:induction false} LessEqTotal(a: string, b: string)
    ensures LessEq(a, b) || LessEq(b, a)
    decreases |a|
  {
    if |a| > 0 && |b| > 0 && a[0] == b[0] {
      LessEqTotal(a[1..], b[1..]);
    }
  }

  lemma {:induction false} LessEqTransitive(a: string, b: string, c: string)
    requires LessEq(a, b) && LessEq(b, c)
    ensures LessEq(a, c)
    decreases |a|
  {
    if |a| > 0 && a[0] == b[0] && b[0] == c[0] {
      LessEqTransitive(a[1..], b[1..], c[1..]);
    }
  }

  lemma {:induction false} LessEqAntisymmetric(a: string, b: string)
    requires LessEq(a, b) && LessEq(b, a)
    ensures a == b
    decreases |a|
  {
    if |a| > 0 {
      LessEqAntisymmetric(a[1..], b[1..]);
      assert a == [a[0]] + a[1..];
      assert b == [b[0]] + b[1..];
    }
  }

  predicate IsSorted(s: seq<string>) {
    forall i, j :: 0 <= i < j < |s| ==> LessEq(s[i], s[j])
  }

  /** Every element of an ordered list is at least its first. */
  lemma SortedHeadIsLeast(a: seq<string>, y: string)
    requires IsSorted(a) && y in multiset(a)
    ensures LessEq(a[0], y)
  {
    var i :| 0 <= i < |a| && a[i] == y;
    if i == 0 {
      LessEqReflexive(y);
    }
  }

  /** The multiset of a non-empty list's tail is the list's multiset less its head. */
  lemma TailMultiset(a: seq<string>)
    requires |a| > 0
    ensures multiset(a[1..]) == multiset(a) - multiset{a[0]}
  {
    assert a == [a[0]] + a[1..];
  }

  /** Inserts x into a list before the first element it does not exceed. */
  function Insert(x: string, s: seq<string>): (r: seq<string>)
    ensures multiset(r) == multiset(s) + multiset{x}
    ensures |r| == |s| + 1
  {
    if |s| == 0 then [x]
    else if LessEq(x, s[0]) then [x] + s
    else
      assert s == [s[0]] + s[1..];
      [s[0]] + Insert(x, s[1..])
  }

  /** Inserting into an ordered list keeps it ordered. */
  lemma {:induction false} InsertSorted(x: string, s: seq<string>)
    requires IsSorted(s)
    ensures IsSorted(Insert(x, s))
    decreases |s|
  {
    if |s| > 0 {
      if LessEq(x, s[0]) {
        forall j | 0 < j < |s| ensures LessEq(x, s[j]) {
          LessEqTransitive(x, s[0], s[j]);
        }
      } else {
        var tail := Insert(x, s[1..]);
        InsertSorted(x, s[1..]);
        LessEqTotal(x, s[0]);
        forall j | 0 <= j < |tail| ensures LessEq(s[0], tail[j]) {
          assert tail[j] in multiset(tail);
          if tail[j] != x {
            TailMultiset(s);
            assert tail[j] in multiset(s);
            SortedHeadIsLeast(s, tail[j]);
          }
        }
        assert Insert(x, s) == [s[0]] + tail;
      }
    }
  }

  /** sorted(s): insertion sort, the reference for Python's `sorted` on str values. */
  function Sort(s: seq<string>): (r: seq<string>)
    ensures IsSorted(r)
    ensures multiset(r) == multiset(s)
    ensures |r| == |s|
  {
    if |s| == 0 then []
    else
      assert s == [s[0]] + s[1..];
      InsertSorted(s[0], Sort(s[1..]));
      Insert(s[0], Sort(s[1..]))
  }

  /** Two ordered lists with the same non-empty multiset start with the same element. */
  lemma SortedSameHead(a: seq<string>, b: seq<string>)
    requires IsSorted(a) && IsSorted(b)
    requires multiset(a) == multiset(b) && |a| > 0
    ensures |b| > 0 && a[0] == b[0]
  {
    assert a[0] in multiset(b);
    assert b[0] in multiset(a);
    SortedHeadIsLeast(a, b[0]);
    SortedHeadIsLeast(b, a[0]);
    LessEqAntisymmetric(a[0], b[0]);
  }

  /** Two ordered lists with the same elements are equal: the sorted order is unique. */
  lemma {:induction false} SortedUnique(a: seq<string>, b: seq<string>)
    requires IsSorted(a) && IsSorted(b)
    requires multiset(a) == multiset(b)
    ensures a == b
    decreases |a|
  {
    if |a| == 0 {
      assert |multiset(b)| == 0;
    } else {
      SortedSameHead(a, b);
      TailMultiset(a);
      TailMultiset(b);
      var a', b' := a[1..], b[1..];
      assert IsSorted(a') && IsSorted(b');
      SortedUnique(a', b');
      assert a == [a[0]] + a';
      assert b == [b[0]] + b';
    }
  }
}
