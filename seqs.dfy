/** The array operations of JavaScript the core is written with, on values:
    `find`/`findIndex`, `filter` and `splice`. */
module Seqs {

  /** A lookup's result: JavaScript's `undefined` is `None`. */
  datatype Option<T> = None | Some(value: T)

  /** `s.findIndex(p)`: the first index whose element satisfies `p`, or -1. */
  function FindIndex<T>(s: seq<T>, p: T -> bool): (i: int)
    ensures -1 <= i < |s|
    ensures i == -1 <==> forall j :: 0 <= j < |s| ==> !p(s[j])
    ensures 0 <= i ==> p(s[i]) && forall j :: 0 <= j < i ==> !p(s[j])
  {
    if |s| == 0 then -1
    else if p(s[0]) then 0
    else
      var k := FindIndex(s[1..], p);
      if k == -1 then -1 else k + 1
  }

  /** `s.filter(p)`: the elements of `s` that satisfy `p`, in their order. */
  function Filter<T>(s: seq<T>, p: T -> bool): seq<T>
  {
    if |s| == 0 then [] else (if p(s[0]) then [s[0]] else []) + Filter(s[1..], p)
  }

  /** An element is kept exactly when it is in `s` and satisfies `p`. */
  lemma {:induction false} FilterMembers<T>(s: seq<T>, p: T -> bool)
    ensures forall x :: x in Filter(s, p) ==> x in s && p(x)
    ensures forall x :: x in s && p(x) ==> x in Filter(s, p)
  {
    if |s| > 0 {
      FilterMembers(s[1..], p);
      assert s == [s[0]] + s[1..];
    }
  }

  lemma {:induction false} FilterConcat<T>(a: seq<T>, b: seq<T>, p: T -> bool)
    ensures Filter(a + b, p) == Filter(a, p) + Filter(b, p)
  {
    if |a| == 0 {
      assert a + b == b;
    } else {
      var ab := a + b;
      assert ab[0] == a[0];
      assert ab[1..] == a[1..] + b;
      FilterConcat(a[1..], b, p);
      var h := if p(a[0]) then [a[0]] else [];
      assert Filter(ab, p) == h + Filter(ab[1..], p);
      assert Filter(a, p) == h + Filter(a[1..], p);
    }
  }

  /** Filtering keeps everything when every element satisfies `p`, and
      nothing when none does. */
  lemma {:induction false} FilterAllOrNone<T>(s: seq<T>, p: T -> bool)
    ensures (forall j :: 0 <= j < |s| ==> p(s[j])) ==> Filter(s, p) == s
    ensures (forall j :: 0 <= j < |s| ==> !p(s[j])) ==> Filter(s, p) == []
  {
    if |s| > 0 {
      FilterAllOrNone(s[1..], p);
      assert s == [s[0]] + s[1..];
    }
  }

  /** Two tests that agree on the elements of `s` keep the same elements. */
  lemma {:induction false} FilterAgree<T>(s: seq<T>, p: T -> bool, q: T -> bool)
    requires forall j :: 0 <= j < |s| ==> p(s[j]) == q(s[j])
    ensures Filter(s, p) == Filter(s, q)
  {
    if |s| > 0 {
      FilterAgree(s[1..], p, q);
    }
  }

  /** Filtering by `p` and then by `q` is filtering by their conjunction. */
  lemma {:induction false} FilterFilter<T>(s: seq<T>, p: T -> bool, q: T -> bool, pq: T -> bool)
    requires forall x :: pq(x) == (p(x) && q(x))
    ensures Filter(Filter(s, p), q) == Filter(s, pq)
  {
    if |s| > 0 {
      FilterFilter(s[1..], p, q, pq);
      FilterConcat(if p(s[0]) then [s[0]] else [], Filter(s[1..], p), q);
    }
  }

  /** Filtering by a test and by its negation splits `s` into two parts
      that together hold every element of `s` as often as `s` does. */
  lemma {:induction false} FilterSplit<T>(s: seq<T>, p: T -> bool, q: T -> bool)
    requires forall x :: q(x) == !p(x)
    ensures multiset(Filter(s, p)) + multiset(Filter(s, q)) == multiset(s)
  {
    if |s| > 0 {
      FilterSplit(s[1..], p, q);
      var hp := if p(s[0]) then [s[0]] else [];
      var hq := if q(s[0]) then [s[0]] else [];
      assert Filter(s, p) == hp + Filter(s[1..], p);
      assert Filter(s, q) == hq + Filter(s[1..], q);
      assert multiset(hp) + multiset(hq) == multiset{s[0]};
      assert s == [s[0]] + s[1..];
      assert multiset(s) == multiset{s[0]} + multiset(s[1..]);
    }
  }

  /** Filtering a sequence whose first `m` elements pass the test and whose
      rest fails it keeps the first `m`. */
  lemma {:induction false} FilterKeepsPrefix<T>(s: seq<T>, m: nat, p: T -> bool)
    requires m <= |s|
    requires forall i :: 0 <= i < m ==> p(s[i])
    requires forall i :: m <= i < |s| ==> !p(s[i])
    ensures Filter(s, p) == s[..m]
  {
    if |s| > 0 {
      var t := s[1..];
      var m' := if m == 0 then 0 else m - 1;
      assert forall i :: 0 <= i < |t| ==> t[i] == s[i + 1];
      FilterKeepsPrefix(t, m', p);
      if m > 0 {
        assert s[..m] == [s[0]] + t[..m'];
      }
    }
  }

  /** Filtering a sequence whose first `m` elements fail the test and whose
      rest passes it keeps the rest. */
  lemma {:induction false} FilterKeepsSuffix<T>(s: seq<T>, m: nat, p: T -> bool)
    requires m <= |s|
    requires forall i :: 0 <= i < m ==> !p(s[i])
    requires forall i :: m <= i < |s| ==> p(s[i])
    ensures Filter(s, p) == s[m..]
  {
    if |s| > 0 {
      var t := s[1..];
      var m' := if m == 0 then 0 else m - 1;
      assert forall i :: 0 <= i < |t| ==> t[i] == s[i + 1];
      FilterKeepsSuffix(t, m', p);
      if m == 0 {
        assert s == [s[0]] + t;
      } else {
        assert s[m..] == t[m'..];
      }
    }
  }

  /** Two searches that see the same answers at every position find the
      same index. */
  lemma {:induction false} FindIndexAgree<T, U>(s: seq<T>, p: T -> bool, t: seq<U>, q: U -> bool)
    requires |s| == |t|
    requires forall j :: 0 <= j < |s| ==> p(s[j]) == q(t[j])
    ensures FindIndex(s, p) == FindIndex(t, q)
  {
    if |s| > 0 {
      FindIndexAgree(s[1..], p, t[1..], q);
    }
  }

  /** Removing the element at `i`: the elements before it keep their
      positions, the ones after it move down by one, and only `s[i]` is
      lost. */
  lemma DropAtFacts<T>(s: seq<T>, i: int, r: seq<T>)
    requires 0 <= i < |s| && r == s[..i] + s[i + 1..]
    ensures |r| == |s| - 1
    ensures forall k :: 0 <= k < |r| ==> r[k] == s[if k < i then k else k + 1]
    ensures forall x :: x in r ==> x in s
    ensures multiset(r) + multiset{s[i]} == multiset(s)
  {
    assert s == s[..i] + [s[i]] + s[i + 1..];
  }

  /** What `s.splice(start, 1)` leaves in the array: a negative `start`
      counts from the end, and a start past either end is clamped to it. */
  function SpliceOne<T>(s: seq<T>, start: int): (r: seq<T>)
    ensures 0 <= start < |s| ==> r == s[..start] + s[start + 1..]
    ensures -|s| <= start < 0 ==> r == s[..|s| + start] + s[|s| + start + 1..]
    ensures |s| <= start ==> r == s
    ensures start < -|s| ==> r == if |s| == 0 then s else s[1..]
  {
    var k := if start < 0 then (if |s| + start < 0 then 0 else |s| + start)
             else (if start < |s| then start else |s|);
    if k < |s| then s[..k] + s[k + 1..] else s
  }
}
