/** The ordering step of the janitor: `results.sort((a, b) => size(b) - size(a))`,
    a stable sort (as every `Array.prototype.sort` is since ES2019) that puts
    the largest entries first and keeps entries of equal size in fetch order. */
module SizeOrder {
  import opened Caches

  /** Sizes never increase from left to right. */
  ghost predicate SortedBySize(s: seq<Cache>) {
    forall i, j :: 0 <= i < j < |s| ==> SizeOf(s[i]) >= SizeOf(s[j])
  }

  /** The entries of `s` whose size is `v`, in their order in `s`. */
  function WithSize(s: seq<Cache>, v: nat): seq<Cache> {
    if s == [] then []
    else WithSize(s[..|s| - 1], v) + (if SizeOf(s[|s| - 1]) == v then [s[|s| - 1]] else [])
  }

  /** `x` placed into the size-ordered `t` after every entry at least as
      large as itself: the step that keeps equal sizes in arrival order. */
  function Insert(t: seq<Cache>, x: Cache): (r: seq<Cache>)
    ensures |r| == |t| + 1 && x in r
  {
    if t == [] || SizeOf(t[|t| - 1]) >= SizeOf(x) then t + [x]
    else Insert(t[..|t| - 1], x) + [t[|t| - 1]]
  }

  /** The stable descending-size order of `s`. */
  function SortBySize(s: seq<Cache>): (r: seq<Cache>)
    ensures |r| == |s|
  {
    if s == [] then [] else Insert(SortBySize(s[..|s| - 1]), s[|s| - 1])
  }

  /** Where Insert places `x`: after position `j - 1`, before everything
      smaller than `x`. */
  lemma {:induction false} InsertAt(t: seq<Cache>, x: Cache, j: nat)
    requires j <= |t|
    requires forall k :: j <= k < |t| ==> SizeOf(t[k]) < SizeOf(x)
    requires j == 0 || SizeOf(t[j - 1]) >= SizeOf(x)
    ensures Insert(t, x) == t[..j] + [x] + t[j..]
  {
    if j < |t| {
      var t' := t[..|t| - 1];
      InsertAt(t', x, j);
      assert t'[..j] == t[..j] && t'[j..] + [t[|t| - 1]] == t[j..];
    } else {
      assert t[..j] == t && t[j..] == [];
    }
  }

  /** A lower bound on all sizes survives an insertion. */
  lemma {:induction false} InsertBounded(t: seq<Cache>, x: Cache, m: nat)
    requires forall k :: 0 <= k < |t| ==> SizeOf(t[k]) >= m
    requires SizeOf(x) >= m
    ensures forall k :: 0 <= k < |Insert(t, x)| ==> SizeOf(Insert(t, x)[k]) >= m
  {
    if !(t == [] || SizeOf(t[|t| - 1]) >= SizeOf(x)) {
      InsertBounded(t[..|t| - 1], x, m);
    }
  }

  lemma {:induction false} InsertSorted(t: seq<Cache>, x: Cache)
    requires SortedBySize(t)
    ensures SortedBySize(Insert(t, x))
  {
    if !(t == [] || SizeOf(t[|t| - 1]) >= SizeOf(x)) {
      var t', last := t[..|t| - 1], t[|t| - 1];
      InsertSorted(t', x);
      InsertBounded(t', x, SizeOf(last));
    }
  }

  lemma {:induction false} InsertPermutes(t: seq<Cache>, x: Cache)
    ensures multiset(Insert(t, x)) == multiset(t) + multiset{x}
  {
    if !(t == [] || SizeOf(t[|t| - 1]) >= SizeOf(x)) {
      var t', last := t[..|t| - 1], t[|t| - 1];
      InsertPermutes(t', x);
      assert t == t' + [last];
    }
  }

  lemma {:induction false} WithSizeAppend(a: seq<Cache>, b: seq<Cache>, v: nat)
    ensures WithSize(a + b, v) == WithSize(a, v) + WithSize(b, v)
  {
    if b != [] {
      assert (a + b)[..|a + b| - 1] == a + b[..|b| - 1];
      WithSizeAppend(a, b[..|b| - 1], v);
    } else {
      assert a + b == a;
    }
  }

  lemma {:induction false} InsertWithSize(t: seq<Cache>, x: Cache, v: nat)
    ensures WithSize(Insert(t, x), v) == WithSize(t, v) + (if SizeOf(x) == v then [x] else [])
  {
    if t == [] || SizeOf(t[|t| - 1]) >= SizeOf(x) {
      WithSizeAppend(t, [x], v);
    } else {
      var t', last := t[..|t| - 1], t[|t| - 1];
      InsertWithSize(t', x, v);
      WithSizeAppend(Insert(t', x), [last], v);
    }
  }

  lemma {:induction false} InsertTotal(t: seq<Cache>, x: Cache)
    ensures SumSizes(Insert(t, x)) == SumSizes(t) + SizeOf(x)
  {
    if !(t == [] || SizeOf(t[|t| - 1]) >= SizeOf(x)) {
      var t', last := t[..|t| - 1], t[|t| - 1];
      InsertTotal(t', x);
      SumSizesAppend(Insert(t', x), [last]);
    }
  }

  /** The result is ordered largest first. */
  lemma {:induction false} SortBySizeSorted(s: seq<Cache>)
    ensures SortedBySize(SortBySize(s))
  {
    if s != [] {
      SortBySizeSorted(s[..|s| - 1]);
      InsertSorted(SortBySize(s[..|s| - 1]), s[|s| - 1]);
    }
  }

  /** The result holds the same entries, each as often. */
  lemma {:induction false} SortBySizePermutes(s: seq<Cache>)
    ensures multiset(SortBySize(s)) == multiset(s)
  {
    if s != [] {
      var init, last := s[..|s| - 1], s[|s| - 1];
      SortBySizePermutes(init);
      InsertPermutes(SortBySize(init), last);
      assert s == init + [last];
      assert multiset(s) == multiset(init) + multiset{last};
    }
  }

  /** Stability: entries of equal size keep their relative order. */
  lemma {:induction false} SortBySizeStable(s: seq<Cache>, v: nat)
    ensures WithSize(SortBySize(s), v) == WithSize(s, v)
  {
    if s != [] {
      SortBySizeStable(s[..|s| - 1], v);
      InsertWithSize(SortBySize(s[..|s| - 1]), s[|s| - 1], v);
    }
  }

  /** Sorting does not change the total size. */
  lemma {:induction false} SortBySizeTotal(s: seq<Cache>)
    ensures SumSizes(SortBySize(s)) == SumSizes(s)
  {
    if s != [] {
      SortBySizeTotal(s[..|s| - 1]);
      InsertTotal(SortBySize(s[..|s| - 1]), s[|s| - 1]);
    }
  }

  /** Every entry of a size group is an entry of the list, of that size. */
  lemma {:induction false} WithSizeIn(t: seq<Cache>, v: nat)
    ensures forall c :: c in WithSize(t, v) ==> c in t && SizeOf(c) == v
  {
    if t != [] {
      WithSizeIn(t[..|t| - 1], v);
      assert t == t[..|t| - 1] + [t[|t| - 1]];
    }
  }

  lemma SnocInjective(a: seq<Cache>, x: Cache, b: seq<Cache>, y: Cache)
    requires a + [x] == b + [y]
    ensures a == b && x == y
  {
    assert |a| == |b|;
    assert a == (a + [x])[..|a|] && b == (b + [y])[..|b|];
    assert x == (a + [x])[|a|];
  }

  /** A size that has a group in a size-ordered list is at least the size of its last entry. */
  lemma GroupAtLeastLast(t: seq<Cache>, c: Cache, w: nat)
    requires SortedBySize(t) && t != []
    requires c in WithSize(t, w)
    ensures w >= SizeOf(t[|t| - 1])
  {
    WithSizeIn(t, w);
    var i :| 0 <= i < |t| && t[i] == c;
  }

  /** Two size-ordered lists with the same size groups end with the same entry. */
  lemma SameGroupsLast(t1: seq<Cache>, t2: seq<Cache>)
    requires SortedBySize(t1) && SortedBySize(t2) && t1 != [] && t2 != []
    requires forall v :: WithSize(t1, v) == WithSize(t2, v)
    ensures t1[|t1| - 1] == t2[|t2| - 1]
  {
    var x, y := t1[|t1| - 1], t2[|t2| - 1];
    var m := SizeOf(x);
    assert y in WithSize(t2, SizeOf(y));
    GroupAtLeastLast(t1, y, SizeOf(y));
    assert x in WithSize(t1, m);
    GroupAtLeastLast(t2, x, m);
    assert SizeOf(y) == m;
    assert WithSize(t1, m) == WithSize(t1[..|t1| - 1], m) + [x];
    assert WithSize(t2, m) == WithSize(t2[..|t2| - 1], m) + [y];
    SnocInjective(WithSize(t1[..|t1| - 1], m), x, WithSize(t2[..|t2| - 1], m), y);
  }

  lemma AppendCancel(a: seq<Cache>, b: seq<Cache>, w: seq<Cache>)
    requires a + w == b + w
    ensures a == b
  {
    assert a == (a + w)[..|a|] && b == (b + w)[..|b|];
  }

  /** Lists with the same size groups and the same last entry still have
      the same size groups without it. */
  lemma SameGroupsInit(init1: seq<Cache>, init2: seq<Cache>, x: Cache)
    requires forall v :: WithSize(init1 + [x], v) == WithSize(init2 + [x], v)
    ensures forall v :: WithSize(init1, v) == WithSize(init2, v)
  {
    forall v ensures WithSize(init1, v) == WithSize(init2, v) {
      WithSizeAppend(init1, [x], v);
      WithSizeAppend(init2, [x], v);
      AppendCancel(WithSize(init1, v), WithSize(init2, v), WithSize([x], v));
    }
  }

  /** Two size-ordered lists with the same size groups are the same list. */
  lemma {:induction false} SameGroupsSame(t1: seq<Cache>, t2: seq<Cache>)
    requires SortedBySize(t1) && SortedBySize(t2)
    requires forall v :: WithSize(t1, v) == WithSize(t2, v)
    ensures t1 == t2
    decreases |t1|
  {
    if t2 != [] {
      LastHasGroup(t2);
    }
    if t1 != [] {
      LastHasGroup(t1);
      SameGroupsLast(t1, t2);
      var init1, init2, x := t1[..|t1| - 1], t2[..|t2| - 1], t1[|t1| - 1];
      assert t1 == init1 + [x] && t2 == init2 + [x];
      SameGroupsInit(init1, init2, x);
      SortedInit(t1);
      SortedInit(t2);
      SameGroupsSame(init1, init2);
    }
  }

  lemma LastHasGroup(t: seq<Cache>)
    requires t != []
    ensures WithSize(t, SizeOf(t[|t| - 1])) != []
  {
  }

  lemma SortedInit(t: seq<Cache>)
    requires SortedBySize(t) && t != []
    ensures SortedBySize(t[..|t| - 1])
  {
  }

  /** The stable largest-first order is the only one: any list that is
      ordered largest first and keeps every size group in the order of `s`
      is SortBySize(s), whatever algorithm produced it. */
  lemma SortBySizeUnique(s: seq<Cache>, t: seq<Cache>)
    requires SortedBySize(t)
    requires forall v :: WithSize(t, v) == WithSize(s, v)
    ensures t == SortBySize(s)
  {
    SortBySizeSorted(s);
    forall v ensures WithSize(SortBySize(s), v) == WithSize(s, v) {
      SortBySizeStable(s, v);
    }
    SameGroupsSame(t, SortBySize(s));
  }

  /** One pass of insertion sort: `a[i]` moves left past every larger-size
      prefix entry that is smaller than it. */
  method InsertStep(a: array<Cache>, i: nat)
    requires i < a.Length
    modifies a
    ensures a[..i + 1] == Insert(old(a[..i]), old(a[i]))
    ensures a[i + 1..] == old(a[i + 1..])
  {
    var x := a[i];
    ghost var sorted := a[..i];
    var j := i;
    while j > 0 && SizeOf(a[j - 1]) < SizeOf(x)
      invariant 0 <= j <= i
      invariant forall k :: 0 <= k < j ==> a[k] == sorted[k]
      invariant forall k :: j < k <= i ==> a[k] == sorted[k - 1]
      invariant forall k :: i < k < a.Length ==> a[k] == old(a[k])
      invariant forall k :: j <= k < i ==> SizeOf(sorted[k]) < SizeOf(x)
    {
      a[j] := a[j - 1];
      j := j - 1;
    }
    a[j] := x;
    InsertAt(sorted, x, j);
    assert a[..i + 1] == sorted[..j] + [x] + sorted[j..] by {
      forall k | 0 <= k <= i
        ensures a[k] == (sorted[..j] + [x] + sorted[j..])[k]
      {
        if k < j {
          assert a[k] == sorted[k];
        } else if j < k {
          assert a[k] == sorted[k - 1];
        }
      }
    }
    assert a[i + 1..] == old(a[i + 1..]);
  }

  /** The in-place sort of the fetched entries, by insertion. */
  method SortInPlace(a: array<Cache>)
    modifies a
    ensures a[..] == SortBySize(old(a[..]))
  {
    ghost var input := a[..];
    for i := 0 to a.Length
      invariant a[..i] == SortBySize(input[..i])
      invariant a[i..] == input[i..]
    {
      assert a[i] == input[i];
      InsertStep(a, i);
      assert input[..i + 1][..i] == input[..i];
    }
    assert input[..a.Length] == input;
  }
}
