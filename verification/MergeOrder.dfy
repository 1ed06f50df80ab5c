/** Bottom-up merge sort on sequences: what the list sort of `uthash.h` computes. */
module MergeOrder {
  import opened Util
  import opened HashLists

  type Cmp = (Handle, Handle) -> int

  predicate Le(cmp: Cmp, x: Handle, y: Handle) { cmp(x, y) <= 0 }

  /** A total preorder on the members of `s`. */
  ghost predicate Preorder(cmp: Cmp, s: set<Handle>) {
    (forall x, y :: x in s && y in s ==> Le(cmp, x, y) || Le(cmp, y, x))
    && forall x, y, z :: x in s && y in s && z in s && Le(cmp, x, y) && Le(cmp, y, z) ==> Le(cmp, x, z)
  }

  ghost predicate Sorted(cmp: Cmp, s: seq<Handle>) {
    forall i, j :: 0 <= i < j < |s| ==> Le(cmp, s[i], s[j])
  }

  /** On a tie the element of the first run goes first. */
  ghost function Merge(cmp: Cmp, a: seq<Handle>, b: seq<Handle>): (r: seq<Handle>)
    ensures |r| == |a| + |b|
  {
    if a == [] then b
    else if b == [] then a
    else if Le(cmp, a[0], b[0]) then [a[0]] + Merge(cmp, a[1..], b)
    else [b[0]] + Merge(cmp, a, b[1..])
  }

  /** Merging the runs of length `k` in pairs. */
  ghost function Pass(cmp: Cmp, s: seq<Handle>, k: nat): (r: seq<Handle>)
    requires 0 < k
    ensures |r| == |s|
    decreases |s|
  {
    if s == [] then []
    else
      var p, q := Min(k, |s|), Min(2 * k, |s|);
      Merge(cmp, s[..p], s[p..q]) + Pass(cmp, s[q..], k)
  }

  /** Passes with runs of twice the length until one merge is enough. */
  ghost function MergeSort(cmp: Cmp, s: seq<Handle>, k: nat): (r: seq<Handle>)
    requires 0 < k
    ensures |r| == |s|
    decreases if |s| > k then |s| - k else 0
  {
    if |s| <= 2 * k then Pass(cmp, s, k) else MergeSort(cmp, Pass(cmp, s, k), 2 * k)
  }

  // ---------------------------------------------------------------------
  // Permutation

  lemma CutThree(s: seq<Handle>, p: nat, q: nat)
    requires p <= q <= |s|
    ensures s == s[..p] + s[p..q] + s[q..] && s[p..q] == s[p..][..q - p] && s[q..] == s[p..][q - p..]
    ensures Set(s[..p]) + Set(s[p..q]) <= Set(s) && Set(s[q..]) <= Set(s)
  {
  }

  lemma CutCounts(s: seq<Handle>, p: nat, q: nat)
    requires p <= q <= |s|
    ensures multiset(s) == multiset(s[..p]) + multiset(s[p..q]) + multiset(s[q..])
  {
    assert s == s[..p] + s[p..q] + s[q..];
  }

  lemma Peel(a: seq<Handle>, b: seq<Handle>, r: seq<Handle>)
    requires a != [] && multiset(r) == multiset(a[1..]) + multiset(b)
    ensures multiset([a[0]] + r) == multiset(a) + multiset(b)
  {
    assert a == [a[0]] + a[1..];
  }

  lemma {:induction false} MergePermutes(cmp: Cmp, a: seq<Handle>, b: seq<Handle>)
    ensures multiset(Merge(cmp, a, b)) == multiset(a) + multiset(b)
  {
    if a != [] && b != [] {
      if Le(cmp, a[0], b[0]) {
        MergePermutes(cmp, a[1..], b);
        Peel(a, b, Merge(cmp, a[1..], b));
      } else {
        MergePermutes(cmp, a, b[1..]);
        Peel(b, a, Merge(cmp, a, b[1..]));
      }
    }
  }

  lemma {:induction false} PassPermutes(cmp: Cmp, s: seq<Handle>, k: nat)
    requires 0 < k
    ensures multiset(Pass(cmp, s, k)) == multiset(s)
    decreases |s|
  {
    if s != [] {
      var p, q := Min(k, |s|), Min(2 * k, |s|);
      MergePermutes(cmp, s[..p], s[p..q]);
      PassPermutes(cmp, s[q..], k);
      CutCounts(s, p, q);
    }
  }

  lemma {:induction false} SortPermutes(cmp: Cmp, s: seq<Handle>, k: nat)
    requires 0 < k
    ensures multiset(MergeSort(cmp, s, k)) == multiset(s)
    decreases if |s| > k then |s| - k else 0
  {
    PassPermutes(cmp, s, k);
    if |s| > 2 * k {
      SortPermutes(cmp, Pass(cmp, s, k), 2 * k);
    }
  }

  ghost function Set(s: seq<Handle>): set<Handle> {
    set h | h in s
  }

  lemma SameSet(s: seq<Handle>, t: seq<Handle>)
    requires multiset(s) == multiset(t)
    ensures Set(s) == Set(t) && |s| == |t|
  {
    assert |s| == |multiset(s)| && |t| == |multiset(t)|;
    forall h ensures h in Set(s) <==> h in Set(t) {
      assert h in s <==> h in multiset(s);
      assert h in t <==> h in multiset(t);
    }
  }

  // ---------------------------------------------------------------------
  // Order

  lemma Smaller(cmp: Cmp, s: set<Handle>, t: set<Handle>)
    requires Preorder(cmp, s) && t <= s
    ensures Preorder(cmp, t)
  {
  }

  lemma OtherWay(cmp: Cmp, s: set<Handle>, x: Handle, y: Handle)
    requires Preorder(cmp, s) && x in s && y in s
    ensures !Le(cmp, x, y) ==> Le(cmp, y, x)
  {
  }

  lemma TailSorted(cmp: Cmp, s: seq<Handle>)
    requires s != [] && Sorted(cmp, s)
    ensures Sorted(cmp, s[1..]) && s == [s[0]] + s[1..] && Set(s) == {s[0]} + Set(s[1..])
  {
  }

  lemma {:induction false} MergeSorts(cmp: Cmp, a: seq<Handle>, b: seq<Handle>)
    requires Preorder(cmp, Set(a) + Set(b)) && Sorted(cmp, a) && Sorted(cmp, b)
    ensures Sorted(cmp, Merge(cmp, a, b))
  {
    hide Preorder, Sorted;
    if a != [] && b != [] {
      TailSorted(cmp, a);
      TailSorted(cmp, b);
      OtherWay(cmp, Set(a) + Set(b), a[0], b[0]);
      if Le(cmp, a[0], b[0]) {
        MergeSortsOne(cmp, a[0], a[1..], b);
        Smaller(cmp, Set(a) + Set(b), Set(a[1..]) + Set(b));
        MergeSorts(cmp, a[1..], b);
        MergePermutes(cmp, a[1..], b);
        LeastFirst(cmp, a[0], Merge(cmp, a[1..], b), a[1..], b);
      } else {
        MergeSortsOne(cmp, b[0], b[1..], a);
        Smaller(cmp, Set(a) + Set(b), Set(a) + Set(b[1..]));
        MergeSorts(cmp, a, b[1..]);
        MergePermutes(cmp, a, b[1..]);
        LeastFirst(cmp, b[0], Merge(cmp, a, b[1..]), a, b[1..]);
      }
    }
  }

  lemma MergeSortsOne(cmp: Cmp, x: Handle, more: seq<Handle>, other: seq<Handle>)
    requires other != [] && Sorted(cmp, [x] + more) && Sorted(cmp, other) && Le(cmp, x, other[0])
    requires Preorder(cmp, Set([x] + more) + Set(other)) || Preorder(cmp, Set(other) + Set([x] + more))
    ensures forall y :: y in more || y in other ==> Le(cmp, x, y)
  {
    assert Set([x] + more) == {x} + Set(more) by {
      assert ([x] + more)[0] == x;
    }
    assert Set(other) + Set([x] + more) == {x} + Set(more) + Set(other);
    FirstLeast(cmp, x, more, other);
  }

  lemma FirstLeast(cmp: Cmp, x: Handle, more: seq<Handle>, other: seq<Handle>)
    requires other != [] && Sorted(cmp, [x] + more) && Sorted(cmp, other) && Preorder(cmp, {x} + Set(more) + Set(other)) && Le(cmp, x, other[0])
    ensures forall y :: y in more || y in other ==> Le(cmp, x, y)
  {
    forall y | y in more ensures Le(cmp, x, y) {
      var j :| 0 <= j < |more| && more[j] == y;
      assert ([x] + more)[0] == x && ([x] + more)[j + 1] == y;
    }
    forall y | y in other ensures Le(cmp, x, y) {
      var j :| 0 <= j < |other| && other[j] == y;
      assert other[0] in Set(other) && x in {x};
    }
  }

  lemma LeastFirst(cmp: Cmp, x: Handle, r: seq<Handle>, a: seq<Handle>, b: seq<Handle>)
    requires Sorted(cmp, r) && multiset(r) == multiset(a) + multiset(b) && forall y :: y in a || y in b ==> Le(cmp, x, y)
    ensures Sorted(cmp, [x] + r)
  {
    forall j | 0 <= j < |r| ensures Le(cmp, x, r[j]) {
      assert r[j] in multiset(r);
    }
  }

  /** Sorted runs of length `k`. */
  ghost predicate Runs(cmp: Cmp, s: seq<Handle>, k: nat)
    requires 0 < k
    decreases |s|
  {
    s == [] || (Sorted(cmp, s[..Min(k, |s|)]) && Runs(cmp, s[Min(k, |s|)..], k))
  }

  lemma {:induction false} OneRuns(cmp: Cmp, s: seq<Handle>)
    ensures Runs(cmp, s, 1)
  {
    if s != [] {
      OneRuns(cmp, s[1..]);
    }
  }

  lemma RunsSplit(cmp: Cmp, s: seq<Handle>, k: nat)
    requires 0 < k && s != [] && Runs(cmp, s, k)
    ensures var p, q := Min(k, |s|), Min(2 * k, |s|);
            Sorted(cmp, s[..p]) && Sorted(cmp, s[p..q]) && Runs(cmp, s[q..], k)
            && s == s[..p] + s[p..q] + s[q..] && Set(s[..p]) + Set(s[p..q]) <= Set(s) && Set(s[q..]) <= Set(s)
  {
    hide Sorted, Set;
    var p, q := Min(k, |s|), Min(2 * k, |s|);
    CutThree(s, p, q);
    var rest := s[p..];
    assert q - p == Min(k, |rest|);
    if rest == [] {
      SortedNothing(cmp, s[p..q]);
      assert s[q..] == [];
    }
  }

  lemma SortedNothing(cmp: Cmp, s: seq<Handle>)
    requires s == []
    ensures Sorted(cmp, s)
  {
  }

  lemma {:induction false} PassRuns(cmp: Cmp, s: seq<Handle>, k: nat)
    requires 0 < k && Runs(cmp, s, k) && Preorder(cmp, Set(s))
    ensures Runs(cmp, Pass(cmp, s, k), 2 * k)
    decreases |s|
  {
    if s != [] {
      var p, q := Min(k, |s|), Min(2 * k, |s|);
      RunsSplit(cmp, s, k);
      Smaller(cmp, Set(s), Set(s[..p]) + Set(s[p..q]));
      Smaller(cmp, Set(s), Set(s[q..]));
      MergeSorts(cmp, s[..p], s[p..q]);
      PassRuns(cmp, s[q..], k);
      var m, more := Merge(cmp, s[..p], s[p..q]), Pass(cmp, s[q..], k);
      assert (m + more)[..Min(2 * k, |s|)] == m && (m + more)[Min(2 * k, |s|)..] == more;
    }
  }

  /** The sort sorts. */
  lemma {:induction false} SortSorts(cmp: Cmp, s: seq<Handle>, k: nat)
    requires 0 < k && Runs(cmp, s, k) && Preorder(cmp, Set(s))
    ensures Sorted(cmp, MergeSort(cmp, s, k))
    decreases if |s| > k then |s| - k else 0
  {
    PassRuns(cmp, s, k);
    PassPermutes(cmp, s, k);
    SameSet(Pass(cmp, s, k), s);
    if |s| > 2 * k {
      SortSorts(cmp, Pass(cmp, s, k), 2 * k);
    } else {
      var r := Pass(cmp, s, k);
      assert r[..|r|] == r;
    }
  }

  // ---------------------------------------------------------------------
  // Stability

  /** The elements of `s` that compare equal to `x`, in order. */
  ghost function Ties(cmp: Cmp, s: seq<Handle>, x: Handle): seq<Handle> {
    if s == [] then [] else (if Le(cmp, x, s[0]) && Le(cmp, s[0], x) then [s[0]] else []) + Ties(cmp, s[1..], x)
  }

  lemma {:induction false} TiesConcat(cmp: Cmp, a: seq<Handle>, b: seq<Handle>, x: Handle)
    ensures Ties(cmp, a + b, x) == Ties(cmp, a, x) + Ties(cmp, b, x)
  {
    if a == [] {
      assert a + b == b;
    } else {
      TiesConcat(cmp, a[1..], b, x);
      assert (a + b)[1..] == a[1..] + b && (a + b)[0] == a[0];
    }
  }

  lemma {:induction false} NoTies(cmp: Cmp, a: seq<Handle>, x: Handle)
    requires forall y :: y in a ==> !(Le(cmp, x, y) && Le(cmp, y, x))
    ensures Ties(cmp, a, x) == []
  {
    if a != [] {
      NoTies(cmp, a[1..], x);
    }
  }

  lemma {:induction false} MergeStable(cmp: Cmp, a: seq<Handle>, b: seq<Handle>, x: Handle)
    requires Preorder(cmp, Set(a) + Set(b) + {x}) && Sorted(cmp, a) && Sorted(cmp, b)
    ensures Ties(cmp, Merge(cmp, a, b), x) == Ties(cmp, a, x) + Ties(cmp, b, x)
  {
    hide Preorder, Sorted, Ties;
    if a == [] || b == [] {
      NoTies(cmp, [], x);
      assert Ties(cmp, a, x) + [] == Ties(cmp, a, x) && [] + Ties(cmp, b, x) == Ties(cmp, b, x);
    } else {
      TailSorted(cmp, a);
      TailSorted(cmp, b);
      if Le(cmp, a[0], b[0]) {
        Smaller(cmp, Set(a) + Set(b) + {x}, Set(a[1..]) + Set(b) + {x});
        MergeStable(cmp, a[1..], b, x);
        FirstTie(cmp, a[0], Merge(cmp, a[1..], b), x);
        FirstTie(cmp, a[0], a[1..], x);
        Group(Ties(cmp, [a[0]], x), Ties(cmp, a[1..], x), Ties(cmp, b, x));
      } else {
        Smaller(cmp, Set(a) + Set(b) + {x}, Set(a) + Set(b[1..]) + {x});
        MergeStable(cmp, a, b[1..], x);
        FirstTie(cmp, b[0], Merge(cmp, a, b[1..]), x);
        FirstTie(cmp, b[0], b[1..], x);
        SecondFirst(cmp, a, b[0], x, Set(b));
        Group(Ties(cmp, a, x), Ties(cmp, [b[0]], x), Ties(cmp, b[1..], x));
        Group(Ties(cmp, [b[0]], x), Ties(cmp, a, x), Ties(cmp, b[1..], x));
      }
    }
  }

  lemma Group(a: seq<Handle>, b: seq<Handle>, c: seq<Handle>)
    ensures (a + b) + c == a + (b + c)
  {
  }

  /** When the head of the second run goes first, it is no tie of `x`, or nothing in the first run is. */
  lemma SecondFirst(cmp: Cmp, a: seq<Handle>, b: Handle, x: Handle, all: set<Handle>)
    requires a != [] && Sorted(cmp, a) && b in all && Preorder(cmp, Set(a) + all + {x}) && !Le(cmp, a[0], b)
    ensures Ties(cmp, [b], x) + Ties(cmp, a, x) == Ties(cmp, a, x) + Ties(cmp, [b], x)
  {
    FirstTie(cmp, b, [], x);
    if Le(cmp, x, b) && Le(cmp, b, x) {
      Smaller(cmp, Set(a) + all + {x}, Set(a) + {b} + {x});
      LargerAreNoTies(cmp, a, b, x);
      NoTies(cmp, a, x);
    }
  }

  lemma FirstTie(cmp: Cmp, y: Handle, r: seq<Handle>, x: Handle)
    ensures Ties(cmp, [y], x) == if Le(cmp, x, y) && Le(cmp, y, x) then [y] else []
    ensures Ties(cmp, [y] + r, x) == Ties(cmp, [y], x) + Ties(cmp, r, x)
  {
    assert ([y] + r)[1..] == r && [y][1..] == [];
    assert Ties(cmp, [y], x) == (if Le(cmp, x, y) && Le(cmp, y, x) then [y] else []) + [];
  }

  lemma LargerAreNoTies(cmp: Cmp, a: seq<Handle>, b: Handle, x: Handle)
    requires a != [] && Sorted(cmp, a) && Preorder(cmp, Set(a) + {b} + {x}) && !Le(cmp, a[0], b) && Le(cmp, x, b)
    ensures forall y :: y in a ==> !(Le(cmp, x, y) && Le(cmp, y, x))
  {
    forall y | y in a ensures !Le(cmp, y, x) {
      var j :| 0 <= j < |a| && a[j] == y;
      assert a[0] in Set(a) && y in Set(a) && b in {b} && x in {x};
      assert j > 0 ==> Le(cmp, a[0], y);
      assert Le(cmp, y, x) ==> Le(cmp, y, b);
    }
  }

  lemma {:induction false} PassStable(cmp: Cmp, s: seq<Handle>, k: nat, x: Handle)
    requires 0 < k && Runs(cmp, s, k) && Preorder(cmp, Set(s) + {x})
    ensures Ties(cmp, Pass(cmp, s, k), x) == Ties(cmp, s, x)
    decreases |s|
  {
    hide Preorder, Sorted, Ties, Runs;
    if s != [] {
      var p, q := Min(k, |s|), Min(2 * k, |s|);
      RunsSplit(cmp, s, k);
      Smaller(cmp, Set(s) + {x}, Set(s[..p]) + Set(s[p..q]) + {x});
      Smaller(cmp, Set(s) + {x}, Set(s[q..]) + {x});
      MergeStable(cmp, s[..p], s[p..q], x);
      PassStable(cmp, s[q..], k, x);
      TiesConcat(cmp, Merge(cmp, s[..p], s[p..q]), Pass(cmp, s[q..], k), x);
      TiesConcat(cmp, s[..p] + s[p..q], s[q..], x);
      TiesConcat(cmp, s[..p], s[p..q], x);
    }
  }

  /** Elements that compare equal stay in the order they had. */
  lemma {:induction false} SortStable(cmp: Cmp, s: seq<Handle>, k: nat, x: Handle)
    requires 0 < k && Runs(cmp, s, k) && Preorder(cmp, Set(s) + {x})
    ensures Ties(cmp, MergeSort(cmp, s, k), x) == Ties(cmp, s, x)
    decreases if |s| > k then |s| - k else 0
  {
    PassStable(cmp, s, k, x);
    PassRuns(cmp, s, k);
    PassPermutes(cmp, s, k);
    SameSet(Pass(cmp, s, k), s);
    if |s| > 2 * k {
      SortStable(cmp, Pass(cmp, s, k), 2 * k, x);
    }
  }

  /** The list sort: sorted, a permutation, and stable. */
  lemma StableSort(cmp: Cmp, s: seq<Handle>)
    requires Preorder(cmp, Set(s))
    ensures var r := MergeSort(cmp, s, 1);
            Sorted(cmp, r) && multiset(r) == multiset(s) && forall x :: x in s ==> Ties(cmp, r, x) == Ties(cmp, s, x)
  {
    OneRuns(cmp, s);
    SortSorts(cmp, s, 1);
    SortPermutes(cmp, s, 1);
    forall x | x in s ensures Ties(cmp, MergeSort(cmp, s, 1), x) == Ties(cmp, s, x) {
      assert Set(s) + {x} == Set(s);
      SortStable(cmp, s, 1, x);
    }
  }
}
