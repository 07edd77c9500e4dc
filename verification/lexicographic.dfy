/**
 * std::lexicographical_compare on byte strings, the order both of the
 * store's keys (KeyValue::operator<) and of segment file names (std::sort
 * on paths), and a sort by it.
 */
module Lexicographic {
  import opened Bytes

  /** a sorts strictly before b: first differing byte decides, and a proper prefix comes first. */
  predicate LexLess(a: seq<u8>, b: seq<u8>)
    decreases |a|
  {
    if |a| == 0 then |b| > 0
    else if |b| == 0 then false
    else if a[0] != b[0] then a[0] < b[0]
    else LexLess(a[1..], b[1..])
  }

  predicate LexLeq(a: seq<u8>, b: seq<u8>) {
    a == b || LexLess(a, b)
  }

  lemma {:induction false} LexIrreflexive(a: seq<u8>)
    ensures !LexLess(a, a)
  {
    if |a| > 0 {
      LexIrreflexive(a[1..]);
    }
  }

  lemma {:induction false} LexAsymmetric(a: seq<u8>, b: seq<u8>)
    ensures LexLess(a, b) ==> !LexLess(b, a)
  {
    if |a| > 0 && |b| > 0 && a[0] == b[0] {
      LexAsymmetric(a[1..], b[1..]);
    }
  }

  lemma {:induction false} LexTransitive(a: seq<u8>, b: seq<u8>, c: seq<u8>)
    requires LexLess(a, b) && LexLess(b, c)
    ensures LexLess(a, c)
  {
    if |a| > 0 && a[0] == b[0] && b[0] == c[0] {
      LexTransitive(a[1..], b[1..], c[1..]);
    }
  }

  /** Any two different byte strings are ordered one way or the other. */
  lemma {:induction false} LexTotal(a: seq<u8>, b: seq<u8>)
    ensures a == b || LexLess(a, b) || LexLess(b, a)
  {
    if |a| > 0 && |b| > 0 && a[0] == b[0] {
      LexTotal(a[1..], b[1..]);
      if a[1..] == b[1..] {
        assert a == [a[0]] + a[1..] && b == [b[0]] + b[1..];
      }
    }
  }

  /** A key that is a proper prefix of another sorts before it. */
  lemma {:induction false} LexProperPrefix(a: seq<u8>, b: seq<u8>)
    requires |a| < |b| && a == b[..|a|]
    ensures LexLess(a, b)
  {
    if |a| > 0 {
      assert a[1..] == b[1..][..|a| - 1];
      LexProperPrefix(a[1..], b[1..]);
    }
  }

  lemma LexLeqTransitive(a: seq<u8>, b: seq<u8>, c: seq<u8>)
    requires LexLeq(a, b) && LexLeq(b, c)
    ensures LexLeq(a, c)
  {
    if a != b && b != c {
      LexTransitive(a, b, c);
    }
  }

  /** Not-less is the same as at-least, because the order is total. */
  lemma LexNotLess(a: seq<u8>, b: seq<u8>)
    ensures !LexLess(a, b) <==> LexLeq(b, a)
  {
    LexTotal(a, b);
    LexAsymmetric(a, b);
    LexIrreflexive(a);
  }

  /** Ascending (non-strictly) in LexLess order. */
  predicate SortedAsc(s: seq<seq<u8>>) {
    forall i, j :: 0 <= i < j < |s| ==> LexLeq(s[i], s[j])
  }

  lemma SortedCons(h: seq<u8>, t: seq<seq<u8>>)
    requires SortedAsc(t)
    requires forall y :: y in t ==> LexLeq(h, y)
    ensures SortedAsc([h] + t)
  {
    var r := [h] + t;
    forall i, j | 0 <= i < j < |r| ensures LexLeq(r[i], r[j]) {
      if i > 0 {
        assert r[i] == t[i - 1] && r[j] == t[j - 1];
      } else {
        assert r[j] in t;
      }
    }
  }

  /** Everything in a sorted sequence is at least its head, so at least anything below the head. */
  lemma BelowHead(x: seq<u8>, s: seq<seq<u8>>)
    requires SortedAsc(s) && |s| > 0 && LexLeq(x, s[0])
    ensures forall y :: y in s ==> LexLeq(x, y)
  {
    forall y | y in s ensures LexLeq(x, y) {
      var j :| 0 <= j < |s| && s[j] == y;
      if j > 0 { LexLeqTransitive(x, s[0], y); }
    }
  }

  /** A lower bound of every element of t and of x bounds every element of a permutation of t + [x]. */
  lemma BoundOfPermutation(h: seq<u8>, x: seq<u8>, t: seq<seq<u8>>, r: seq<seq<u8>>)
    requires multiset(r) == multiset(t) + multiset{x}
    requires LexLeq(h, x) && forall y :: y in t ==> LexLeq(h, y)
    ensures forall y :: y in r ==> LexLeq(h, y)
  {
    forall y | y in r ensures LexLeq(h, y) {
      assert y in multiset(r);
      if y != x {
        assert y in multiset(t);
      }
    }
  }

  /** One step of insertion sort: x placed before the first element not below it. */
  function InsertSorted(x: seq<u8>, s: seq<seq<u8>>): (r: seq<seq<u8>>)
    requires SortedAsc(s)
    ensures SortedAsc(r)
    ensures multiset(r) == multiset(s) + multiset{x}
    decreases |s|
  {
    if s == [] then [x]
    else if LexLeq(x, s[0]) then
      BelowHead(x, s);
      SortedCons(x, s);
      [x] + s
    else
      var rest := InsertSorted(x, s[1..]);
      LexNotLess(x, s[0]);
      BelowHead(s[0], s);
      assert forall y :: y in s[1..] ==> y in s;
      BoundOfPermutation(s[0], x, s[1..], rest);
      SortedCons(s[0], rest);
      assert s == [s[0]] + s[1..];
      [s[0]] + rest
  }

  /** Insertion sort by LexLess; it plays the part of std::sort. */
  function SortAsc(s: seq<seq<u8>>): (r: seq<seq<u8>>)
    ensures SortedAsc(r)
    ensures multiset(r) == multiset(s)
  {
    if s == [] then []
    else
      assert s == [s[0]] + s[1..];
      InsertSorted(s[0], SortAsc(s[1..]))
  }
}
