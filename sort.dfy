/** The display order of lib/sort.js: items that are not done first, then
    the done ones, each part sorted by `compareByTitle` with a stable sort.
    Written once over any item type, given the item's title and its
    `isDone` test, and used for todo lists and for todos. */
module Sort {
  import opened Text
  import opened Seqs
  import opened Records

  /** What `compareByTitle` compares: the lower-cased title. */
  function Key<T>(x: T, title: T -> string): string
  {
    Lower(title(x))
  }

  /** `compareByTitle(a, b)`: -1, 0 or 1 as a's lower-cased title is below,
      equal to or above b's. */
  function CompareByTitle<T>(a: T, b: T, title: T -> string): (r: int)
    ensures r == -1 || r == 0 || r == 1
    ensures r == 0 <==> Key(a, title) == Key(b, title)
    ensures r == -1 <==> Less(Key(a, title), Key(b, title))
    ensures r == 1 <==> Less(Key(b, title), Key(a, title))
  {
    var ka, kb := Key(a, title), Key(b, title);
    LessTrichotomous(ka, kb);
    LessIrreflexive(ka);
    LessAsymmetric(ka, kb);
    if Less(ka, kb) then -1 else if Less(kb, ka) then 1 else 0
  }

  /** The comparison ignores ASCII case: it answers 0 exactly when the two
      titles differ at most in the case of their letters. */
  lemma CompareIgnoresCase<T>(a: T, b: T, title: T -> string)
    ensures CompareByTitle(a, b, title) == 0 <==> SameUpToCase(title(a), title(b))
  {
    LowerIgnoresCase(title(a), title(b));
  }

  /** "Work" and "work" are different list titles that sort as equal. */
  lemma CaseVariantsTie()
    ensures "Work" != "work"
    ensures CompareByTitle(TodoList(1, "Work", []), TodoList(2, "work", []), ListTitle) == 0
  {
    assert "Work"[0] != "work"[0];
    CompareIgnoresCase(TodoList(1, "Work", []), TodoList(2, "work", []), ListTitle);
  }

  lemma CompareAntisymmetric<T>(a: T, b: T, title: T -> string)
    ensures CompareByTitle(a, b, title) == -CompareByTitle(b, a, title)
  {
  }

  /** Both "at most" and "below" carry over from a to b to c. */
  lemma CompareTransitive<T>(a: T, b: T, c: T, title: T -> string)
    ensures CompareByTitle(a, b, title) <= 0 && CompareByTitle(b, c, title) <= 0
            ==> CompareByTitle(a, c, title) <= 0
    ensures CompareByTitle(a, b, title) < 0 && CompareByTitle(b, c, title) < 0
            ==> CompareByTitle(a, c, title) < 0
  {
    var ka, kb, kc := Key(a, title), Key(b, title), Key(c, title);
    LessTransitive(ka, kb, kc);
    LessTransitive(kc, ka, kb);
    LessTransitive(kb, kc, ka);
  }

  /** Every item is at most every later one. */
  predicate SortedByTitle<T>(s: seq<T>, title: T -> string)
  {
    forall i, j :: 0 <= i < j < |s| ==> CompareByTitle(s[i], s[j], title) <= 0
  }

  function KeyIs<T>(title: T -> string, k: string): T -> bool
  {
    x => Key(x, title) == k
  }

  /** The items of `s` whose lower-cased title is `k`, in their order. */
  function WithKey<T>(s: seq<T>, title: T -> string, k: string): seq<T>
  {
    Filter(s, KeyIs(title, k))
  }

  /** Items with equal lower-cased titles come in the same order in `r` as in
      `s`, and there are as many of them. */
  ghost predicate StableFor<T>(r: seq<T>, s: seq<T>, title: T -> string)
  {
    forall k :: WithKey(r, title, k) == WithKey(s, title, k)
  }

  /** `x` placed into the sorted `s` after every item that is at most `x`. */
  function Insert<T>(s: seq<T>, x: T, title: T -> string): seq<T>
    decreases |s|
  {
    if |s| == 0 || CompareByTitle(s[|s| - 1], x, title) <= 0 then s + [x]
    else Insert(s[..|s| - 1], x, title) + [s[|s| - 1]]
  }

  /** `Array.prototype.sort(compareByTitle)`, which is stable: insertion sort,
      one item at a time from the left. */
  function SortByTitle<T>(s: seq<T>, title: T -> string): seq<T>
    decreases |s|
  {
    if |s| == 0 then [] else Insert(SortByTitle(s[..|s| - 1], title), s[|s| - 1], title)
  }

  lemma {:induction false} InsertPermutation<T>(s: seq<T>, x: T, title: T -> string)
    ensures multiset(Insert(s, x, title)) == multiset(s) + multiset{x}
    decreases |s|
  {
    if |s| > 0 && CompareByTitle(s[|s| - 1], x, title) > 0 {
      InsertPermutation(s[..|s| - 1], x, title);
      assert s == s[..|s| - 1] + [s[|s| - 1]];
    }
  }

  lemma {:induction false} InsertSorted<T>(s: seq<T>, x: T, title: T -> string)
    requires SortedByTitle(s, title)
    ensures SortedByTitle(Insert(s, x, title), title)
    decreases |s|
  {
    if |s| > 0 {
      var last := s[|s| - 1];
      if CompareByTitle(last, x, title) <= 0 {
        forall i | 0 <= i < |s| ensures CompareByTitle(s[i], x, title) <= 0 {
          CompareTransitive(s[i], last, x, title);
        }
      } else {
        var init := s[..|s| - 1];
        InsertSorted(init, x, title);
        InsertPermutation(init, x, title);
        var ins := Insert(init, x, title);
        forall i | 0 <= i < |ins| ensures CompareByTitle(ins[i], last, title) <= 0 {
          assert ins[i] in multiset(ins);
          if ins[i] != x {
            var m :| 0 <= m < |init| && init[m] == ins[i];
          }
        }
      }
    }
  }

  lemma {:induction false} InsertWithKey<T>(s: seq<T>, x: T, title: T -> string, k: string)
    ensures WithKey(Insert(s, x, title), title, k) == WithKey(s, title, k) + WithKey([x], title, k)
    decreases |s|
  {
    var p := KeyIs(title, k);
    if |s| == 0 || CompareByTitle(s[|s| - 1], x, title) <= 0 {
      FilterConcat(s, [x], p);
    } else {
      var init, last := s[..|s| - 1], s[|s| - 1];
      InsertWithKey(init, x, title, k);
      FilterConcat(Insert(init, x, title), [last], p);
      assert s == init + [last];
      FilterConcat(init, [last], p);
      assert Filter([x], p) == if p(x) then [x] else [];
      assert Filter([last], p) == if p(last) then [last] else [];
    }
  }

  /** The sort returns its input rearranged. */
  lemma {:induction false} SortByTitlePermutation<T>(s: seq<T>, title: T -> string)
    ensures multiset(SortByTitle(s, title)) == multiset(s)
    decreases |s|
  {
    if |s| > 0 {
      SortByTitlePermutation(s[..|s| - 1], title);
      InsertPermutation(SortByTitle(s[..|s| - 1], title), s[|s| - 1], title);
      assert s == s[..|s| - 1] + [s[|s| - 1]];
    }
  }

  /** The sort's output is in `compareByTitle` order. */
  lemma {:induction false} SortByTitleSorted<T>(s: seq<T>, title: T -> string)
    ensures SortedByTitle(SortByTitle(s, title), title)
    decreases |s|
  {
    if |s| > 0 {
      SortByTitleSorted(s[..|s| - 1], title);
      InsertSorted(SortByTitle(s[..|s| - 1], title), s[|s| - 1], title);
    }
  }

  lemma {:induction false} SortByTitleWithKey<T>(s: seq<T>, title: T -> string, k: string)
    ensures WithKey(SortByTitle(s, title), title, k) == WithKey(s, title, k)
    decreases |s|
  {
    if |s| > 0 {
      var init, last := s[..|s| - 1], s[|s| - 1];
      SortByTitleWithKey(init, title, k);
      InsertWithKey(SortByTitle(init, title), last, title, k);
      assert s == init + [last];
      FilterConcat(init, [last], KeyIs(title, k));
    }
  }

  /** The sort is stable: items whose lower-cased titles are equal keep their
      relative order. */
  lemma SortByTitleStable<T>(s: seq<T>, title: T -> string)
    ensures StableFor(SortByTitle(s, title), s, title)
  {
    forall k ensures WithKey(SortByTitle(s, title), title, k) == WithKey(s, title, k) {
      SortByTitleWithKey(s, title, k);
    }
  }

  lemma NonEmptyWhenStable<T>(r1: seq<T>, r2: seq<T>, title: T -> string)
    requires StableFor(r1, r2, title)
    ensures |r1| > 0 ==> |r2| > 0
  {
    if |r1| > 0 {
      assert WithKey(r1, title, Key(r1[0], title)) != [];
    }
  }

  lemma WithKeyCons<T>(r: seq<T>, title: T -> string, k: string)
    requires |r| > 0
    ensures Key(r[0], title) == k ==> WithKey(r, title, k) == [r[0]] + WithKey(r[1..], title, k)
    ensures Key(r[0], title) != k ==> WithKey(r, title, k) == WithKey(r[1..], title, k)
  {
    assert KeyIs(title, k)(r[0]) == (Key(r[0], title) == k);
  }

  /** In a sorted sequence no title is below the first one. */
  lemma HeadIsLeast<T>(r: seq<T>, title: T -> string, k: string)
    requires SortedByTitle(r, title) && |r| > 0
    requires WithKey(r, title, k) != []
    ensures !Less(k, Key(r[0], title))
  {
    FilterMembers(r, KeyIs(title, k));
    var x := WithKey(r, title, k)[0];
    assert x in Filter(r, KeyIs(title, k));
    assert x in r;
    var m :| 0 <= m < |r| && r[m] == x;
    if m > 0 {
      assert CompareByTitle(r[0], r[m], title) <= 0;
    } else {
      LessIrreflexive(k);
    }
  }

  /** Two non-empty sorted sequences that agree on every group of equal
      titles start with the same item. */
  lemma HeadsAgree<T>(r1: seq<T>, r2: seq<T>, title: T -> string)
    requires SortedByTitle(r1, title) && SortedByTitle(r2, title)
    requires StableFor(r1, r2, title)
    requires |r1| > 0 && |r2| > 0
    ensures r1[0] == r2[0]
  {
    var k1, k2 := Key(r1[0], title), Key(r2[0], title);
    WithKeyCons(r1, title, k1);
    WithKeyCons(r2, title, k2);
    HeadIsLeast(r2, title, k1);
    HeadIsLeast(r1, title, k2);
    LessTrichotomous(k1, k2);
    assert k1 == k2;
    assert r1[0] == WithKey(r1, title, k1)[0] == WithKey(r2, title, k1)[0] == r2[0];
  }

  /** Dropping a common first item keeps the groups of equal titles in
      agreement. */
  lemma TailsStable<T>(r1: seq<T>, r2: seq<T>, title: T -> string)
    requires StableFor(r1, r2, title)
    requires |r1| > 0 && |r2| > 0 && r1[0] == r2[0]
    ensures StableFor(r1[1..], r2[1..], title)
  {
    forall k ensures WithKey(r1[1..], title, k) == WithKey(r2[1..], title, k) {
      WithKeyCons(r1, title, k);
      WithKeyCons(r2, title, k);
      var w1, w2 := WithKey(r1, title, k), WithKey(r2, title, k);
      assert w1 == w2;
      if Key(r1[0], title) == k {
        assert WithKey(r1[1..], title, k) == w1[1..];
        assert WithKey(r2[1..], title, k) == w2[1..];
      }
    }
  }

  /** Two sorted sequences that agree on the order of every group of equal
      titles are the same sequence. */
  lemma {:induction false} SortedStableUnique<T>(r1: seq<T>, r2: seq<T>, title: T -> string)
    requires SortedByTitle(r1, title) && SortedByTitle(r2, title)
    requires StableFor(r1, r2, title)
    ensures r1 == r2
    decreases |r1|
  {
    NonEmptyWhenStable(r1, r2, title);
    NonEmptyWhenStable(r2, r1, title);
    if |r1| > 0 {
      HeadsAgree(r1, r2, title);
      TailsStable(r1, r2, title);
      SortedStableUnique(r1[1..], r2[1..], title);
      assert r1 == [r1[0]] + r1[1..] && r2 == [r2[0]] + r2[1..];
    }
  }

  /** A stable sort by `compareByTitle` has only one possible output: any
      sorted rearrangement that keeps equal titles in order is the one
      `SortByTitle` gives. */
  lemma SortByTitleUnique<T>(s: seq<T>, r: seq<T>, title: T -> string)
    requires SortedByTitle(r, title) && StableFor(r, s, title)
    ensures r == SortByTitle(s, title)
  {
    SortByTitleSorted(s, title);
    SortByTitleStable(s, title);
    SortedStableUnique(r, SortByTitle(s, title), title);
  }

  /** One step of insertion: swapping `x` with the item before it. */
  lemma SwapStep<T>(prev: seq<T>, sorted: seq<T>, x: T, j: int)
    requires 0 < j <= |sorted|
    requires prev == sorted[..j] + [x] + sorted[j..]
    ensures prev[j - 1 := x][j := sorted[j - 1]] == sorted[..j - 1] + [x] + sorted[j - 1..]
  {
    var next := prev[j - 1 := x][j := sorted[j - 1]];
    var want := sorted[..j - 1] + [x] + sorted[j - 1..];
    assert |next| == |want|;
    forall m | 0 <= m < |next| ensures next[m] == want[m] {
      if m < j - 1 {
      } else if m == j - 1 {
      } else if m == j {
      } else {
        assert next[m] == prev[m] == sorted[m - 1];
      }
    }
  }

  /** Where the swapping stops, `x` goes at the end of what is before it,
      and the items after it are in place. */
  lemma InsertStops<T>(sorted: seq<T>, j: int, x: T, title: T -> string)
    requires 0 <= j <= |sorted|
    requires j == 0 || CompareByTitle(sorted[j - 1], x, title) <= 0
    requires Insert(sorted, x, title) == Insert(sorted[..j], x, title) + sorted[j..]
    ensures Insert(sorted, x, title) == sorted[..j] + [x] + sorted[j..]
  {
    assert j > 0 ==> sorted[..j][j - 1] == sorted[j - 1];
  }

  /** Insertion passes over an item that is above `x`. */
  lemma InsertPasses<T>(s: seq<T>, j: int, x: T, title: T -> string)
    requires 0 < j <= |s|
    requires CompareByTitle(s[j - 1], x, title) > 0
    ensures Insert(s[..j], x, title) + s[j..] == Insert(s[..j - 1], x, title) + s[j - 1..]
  {
    assert s[..j][..j - 1] == s[..j - 1];
    assert s[j - 1..] == [s[j - 1]] + s[j..];
  }

  /** Moves `a[i]` left past every item above it, so that `a[..i + 1]` is
      the sorted `a[..i]` with `a[i]` inserted. */
  method InsertInPlace<T>(a: array<T>, i: int, title: T -> string)
    requires 0 <= i < a.Length
    modifies a
    ensures a[..i + 1] == Insert(old(a[..i]), old(a[i]), title)
    ensures a[i + 1..] == old(a[i + 1..])
  {
    ghost var sorted := a[..i];
    ghost var x := a[i];
    ghost var rest := a[i + 1..];
    assert a[..i + 1] == sorted + [x];
    var j := i;
    assert sorted[..i] == sorted && sorted[i..] == [];
    while 0 < j && CompareByTitle(a[j - 1], a[j], title) > 0
      invariant 0 <= j <= i
      invariant a[..i + 1] == sorted[..j] + [x] + sorted[j..]
      invariant a[i + 1..] == rest
      invariant Insert(sorted, x, title) == Insert(sorted[..j], x, title) + sorted[j..]
    {
      ghost var prev := a[..i + 1];
      assert a[j - 1] == prev[j - 1] == sorted[j - 1] && a[j] == prev[j] == x;
      InsertPasses(sorted, j, x, title);
      a[j - 1], a[j] := a[j], a[j - 1];
      assert a[..i + 1] == prev[j - 1 := x][j := sorted[j - 1]];
      SwapStep(prev, sorted, x, j);
      j := j - 1;
    }
    ghost var here := a[..i + 1];
    assert 0 < j ==> a[j - 1] == here[j - 1] == sorted[j - 1] && a[j] == here[j] == x;
    InsertStops(sorted, j, x, title);
  }

  /** `a.sort(compareByTitle)` on an array, in place. */
  method SortInPlace<T>(a: array<T>, title: T -> string)
    modifies a
    ensures a[..] == SortByTitle(old(a[..]), title)
  {
    ghost var input := a[..];
    var i := 0;
    while i < a.Length
      invariant 0 <= i <= a.Length
      invariant a[..i] == SortByTitle(input[..i], title)
      invariant a[i..] == input[i..]
    {
      assert a[i] == input[i];
      InsertInPlace(a, i, title);
      assert input[..i + 1][..i] == input[..i];
      i := i + 1;
    }
    assert a[..] == a[..a.Length] && input == input[..a.Length];
  }

  function NotDone<T>(isDone: T -> bool): T -> bool
  {
    x => !isDone(x)
  }

  function InBlock<T>(title: T -> string, isDone: T -> bool, b: bool, k: string): T -> bool
  {
    x => isDone(x) == b && Key(x, title) == k
  }

  /** The items of `s` with done flag `b` and lower-cased title `k`. */
  function Block<T>(s: seq<T>, title: T -> string, isDone: T -> bool, b: bool, k: string): seq<T>
  {
    Filter(s, InBlock(title, isDone, b, k))
  }

  /** The order the lists and todos are shown in: the items that are not
      done, sorted by title, then the done ones, sorted by title. */
  function DisplayOrder<T>(s: seq<T>, title: T -> string, isDone: T -> bool): seq<T>
  {
    SortByTitle(Filter(s, NotDone(isDone)), title) + SortByTitle(Filter(s, isDone), title)
  }

  /** Every item that is not done comes before every item that is. */
  predicate DoneLast<T>(r: seq<T>, isDone: T -> bool)
  {
    forall i, j :: 0 <= i < j < |r| && isDone(r[i]) ==> isDone(r[j])
  }

  /** Among the items that are not done, and among the done ones, titles
      are in `compareByTitle` order. */
  predicate BlocksSorted<T>(r: seq<T>, title: T -> string, isDone: T -> bool)
  {
    forall i, j :: 0 <= i < j < |r| && isDone(r[i]) == isDone(r[j])
                   ==> CompareByTitle(r[i], r[j], title) <= 0
  }

  /** Items with the same done flag and equal lower-cased titles come in the
      same order in `r` as in `s`, and there are as many of them. */
  ghost predicate BlocksStable<T>(r: seq<T>, s: seq<T>, title: T -> string, isDone: T -> bool)
  {
    forall b, k :: Block(r, title, isDone, b, k) == Block(s, title, isDone, b, k)
  }

  /** Sorting the items that pass a test gives a sorted sequence of items
      that all pass it. */
  lemma SortedPart<T>(s: seq<T>, p: T -> bool, title: T -> string)
    ensures var u := SortByTitle(Filter(s, p), title);
            && (forall i :: 0 <= i < |u| ==> p(u[i]))
            && SortedByTitle(u, title)
  {
    var f := Filter(s, p);
    var u := SortByTitle(f, title);
    FilterMembers(s, p);
    SortByTitlePermutation(f, title);
    SortByTitleSorted(f, title);
    forall i | 0 <= i < |u| ensures p(u[i]) {
      assert u[i] in multiset(u);
    }
  }

  lemma DisplayParts<T>(s: seq<T>, title: T -> string, isDone: T -> bool)
    ensures var u := SortByTitle(Filter(s, NotDone(isDone)), title);
            var d := SortByTitle(Filter(s, isDone), title);
            && (forall i :: 0 <= i < |u| ==> !isDone(u[i]))
            && (forall i :: 0 <= i < |d| ==> isDone(d[i]))
            && SortedByTitle(u, title) && SortedByTitle(d, title)
  {
    SortedPart(s, NotDone(isDone), title);
    SortedPart(s, isDone, title);
  }

  /** The display order is a rearrangement of its input. */
  lemma DisplayOrderPermutation<T>(s: seq<T>, title: T -> string, isDone: T -> bool)
    ensures multiset(DisplayOrder(s, title, isDone)) == multiset(s)
  {
    SortByTitlePermutation(Filter(s, NotDone(isDone)), title);
    SortByTitlePermutation(Filter(s, isDone), title);
    FilterSplit(s, isDone, NotDone(isDone));
  }

  /** The display order puts the done items last and keeps each part sorted. */
  lemma DisplayOrderSorted<T>(s: seq<T>, title: T -> string, isDone: T -> bool)
    ensures DoneLast(DisplayOrder(s, title, isDone), isDone)
    ensures BlocksSorted(DisplayOrder(s, title, isDone), title, isDone)
  {
    DisplayParts(s, title, isDone);
  }

  /** The display order is stable within each part. */
  lemma DisplayOrderStable<T>(s: seq<T>, title: T -> string, isDone: T -> bool)
    ensures BlocksStable(DisplayOrder(s, title, isDone), s, title, isDone)
  {
    var nd := NotDone(isDone);
    var fu, fd := Filter(s, nd), Filter(s, isDone);
    var u, d := SortByTitle(fu, title), SortByTitle(fd, title);
    DisplayParts(s, title, isDone);
    forall b, k ensures Block(u + d, title, isDone, b, k) == Block(s, title, isDone, b, k) {
      var p := InBlock(title, isDone, b, k);
      FilterConcat(u, d, p);
      SortByTitleWithKey(fu, title, k);
      SortByTitleWithKey(fd, title, k);
      if b {
        FilterAllOrNone(u, p);
        FilterAgree(d, p, KeyIs(title, k));
        FilterFilter(s, isDone, KeyIs(title, k), p);
      } else {
        FilterAllOrNone(d, p);
        FilterAgree(u, p, KeyIs(title, k));
        FilterFilter(s, nd, KeyIs(title, k), p);
      }
    }
  }

  /** A sequence made of not-done items up to `m` and done items from `m`
      on splits at `m` under both filters. */
  lemma FiltersAtSplit<T>(r: seq<T>, m: nat, isDone: T -> bool)
    requires m <= |r|
    requires forall i :: 0 <= i < m ==> !isDone(r[i])
    requires forall i :: m <= i < |r| ==> isDone(r[i])
    ensures Filter(r, NotDone(isDone)) == r[..m] && Filter(r, isDone) == r[m..]
  {
    var nd := NotDone(isDone);
    FilterKeepsPrefix(r, m, nd);
    FilterKeepsSuffix(r, m, isDone);
  }

  /** A sequence whose done items all come last is its not-done items
      followed by its done items. */
  lemma SplitAtFirstDone<T>(r: seq<T>, isDone: T -> bool) returns (m: nat)
    requires DoneLast(r, isDone)
    ensures m <= |r|
    ensures Filter(r, NotDone(isDone)) == r[..m] && Filter(r, isDone) == r[m..]
    ensures forall i :: 0 <= i < m ==> !isDone(r[i])
    ensures forall i :: m <= i < |r| ==> isDone(r[i])
  {
    var f := FindIndex(r, isDone);
    m := if f == -1 then |r| else f;
    forall i | m <= i < |r| ensures isDone(r[i]) {
      assert isDone(r[m]);
    }
    FiltersAtSplit(r, m, isDone);
  }

  /** A stretch of `r` whose items share one done flag is sorted when the
      parts of `r` are. */
  lemma PartSorted<T>(r: seq<T>, lo: nat, hi: nat, b: bool, title: T -> string, isDone: T -> bool)
    requires lo <= hi <= |r| && BlocksSorted(r, title, isDone)
    requires forall i :: lo <= i < hi ==> isDone(r[i]) == b
    ensures SortedByTitle(r[lo..hi], title)
  {
    var u := r[lo..hi];
    forall i, j | 0 <= i < j < |u| ensures CompareByTitle(u[i], u[j], title) <= 0 {
      assert u[i] == r[lo + i] && u[j] == r[lo + j];
    }
  }

  /** When the blocks of `r` and `s` agree, so do the groups of equal titles
      among their items with done flag `b`. */
  lemma PartStable<T>(r: seq<T>, s: seq<T>, p: T -> bool, b: bool, title: T -> string, isDone: T -> bool)
    requires forall x :: p(x) == (isDone(x) == b)
    requires BlocksStable(r, s, title, isDone)
    ensures StableFor(Filter(r, p), Filter(s, p), title)
  {
    forall k ensures WithKey(Filter(r, p), title, k) == WithKey(Filter(s, p), title, k) {
      FilterFilter(r, p, KeyIs(title, k), InBlock(title, isDone, b, k));
      FilterFilter(s, p, KeyIs(title, k), InBlock(title, isDone, b, k));
      assert Block(r, title, isDone, b, k) == Block(s, title, isDone, b, k);
    }
  }

  /** The display order is the only sequence with its three properties:
      whatever stable sort stands behind `Array.prototype.sort`, a
      rearrangement that puts done items last, keeps each part sorted and
      each part stable is the display order. */
  lemma DisplayOrderUnique<T>(s: seq<T>, r: seq<T>, title: T -> string, isDone: T -> bool)
    requires DoneLast(r, isDone) && BlocksSorted(r, title, isDone)
    requires BlocksStable(r, s, title, isDone)
    ensures r == DisplayOrder(s, title, isDone)
  {
    var nd := NotDone(isDone);
    var m := SplitAtFirstDone(r, isDone);
    var u, d := r[..m], r[m..];
    PartSorted(r, 0, m, false, title, isDone);
    PartSorted(r, m, |r|, true, title, isDone);
    assert r[0..m] == u && r[m..|r|] == d;
    PartStable(r, s, nd, false, title, isDone);
    PartStable(r, s, isDone, true, title, isDone);
    SortByTitleUnique(Filter(s, nd), u, title);
    SortByTitleUnique(Filter(s, isDone), d, title);
    assert r == u + d;
  }

  /** Putting the display order into display order changes nothing. */
  lemma DisplayOrderIdempotent<T>(s: seq<T>, title: T -> string, isDone: T -> bool)
    ensures DisplayOrder(DisplayOrder(s, title, isDone), title, isDone) == DisplayOrder(s, title, isDone)
  {
    var r := DisplayOrder(s, title, isDone);
    DisplayOrderSorted(s, title, isDone);
    DisplayOrderUnique(r, r, title, isDone);
  }

  /** The shared body of `sortTodoLists` and `sortTodos`: filter into two
      fresh arrays, sort each in place, concatenate. The method changes no
      object that existed before it was called. */
  method SortByDoneThenTitle<T>(items: seq<T>, title: T -> string, isDone: T -> bool) returns (r: seq<T>)
    ensures r == DisplayOrder(items, title, isDone)
  {
    var u := Filter(items, NotDone(isDone));
    var d := Filter(items, isDone);
    var undone := new T[|u|](i requires 0 <= i < |u| => u[i]);
    var done := new T[|d|](i requires 0 <= i < |d| => d[i]);
    assert undone[..] == u && done[..] == d;
    SortInPlace(undone, title);
    SortInPlace(done, title);
    r := undone[..] + done[..];
  }

  /** `sortTodoLists(todoLists)`. */
  method SortTodoLists(todoLists: seq<TodoList>) returns (r: seq<TodoList>)
    ensures r == DisplayOrder(todoLists, ListTitle, ListIsDone)
    ensures multiset(r) == multiset(todoLists)
    ensures DoneLast(r, ListIsDone) && BlocksSorted(r, ListTitle, ListIsDone)
    ensures BlocksStable(r, todoLists, ListTitle, ListIsDone)
  {
    r := SortByDoneThenTitle(todoLists, ListTitle, ListIsDone);
    DisplayOrderPermutation(todoLists, ListTitle, ListIsDone);
    DisplayOrderSorted(todoLists, ListTitle, ListIsDone);
    DisplayOrderStable(todoLists, ListTitle, ListIsDone);
  }

  /** `sortTodos(todoList)`. */
  method SortTodos(todoList: TodoList) returns (r: seq<Todo>)
    ensures r == DisplayOrder(todoList.todos, TodoTitle, TodoIsDone)
    ensures multiset(r) == multiset(todoList.todos)
    ensures DoneLast(r, TodoIsDone) && BlocksSorted(r, TodoTitle, TodoIsDone)
    ensures BlocksStable(r, todoList.todos, TodoTitle, TodoIsDone)
  {
    r := SortByDoneThenTitle(todoList.todos, TodoTitle, TodoIsDone);
    DisplayOrderPermutation(todoList.todos, TodoTitle, TodoIsDone);
    DisplayOrderSorted(todoList.todos, TodoTitle, TodoIsDone);
    DisplayOrderStable(todoList.todos, TodoTitle, TodoIsDone);
  }
}
