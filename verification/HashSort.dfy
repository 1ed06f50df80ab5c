/** HASH_SRT: the bottom-up merge sort of a table's list, in place. */
module HashSort {
  import opened Lists
  import opened Util
  import opened HashLists
  import opened HashChains
  import opened MergeOrder
  import opened HashTable

  /** What has been put out: linked back and forth, the forward link of the last element apart. */
  ghost predicate Out(list: Handle?, tail: Handle?, out: seq<Handle>)
    reads out`prev, out`next
  {
    list == First(out) && tail == Last(out)
    && forall k {:trigger Place(k)} :: Place(k) && 0 <= k < |out| ==> out[k].prev == Before(out, k) && (k + 1 < |out| ==> out[k].next == out[k + 1])
  }

  /** A run that starts at `p`; where its last element leads does not matter. */
  ghost predicate RunAt(p: Handle?, ps: seq<Handle>)
    reads ps`next
  {
    (ps != [] ==> p == ps[0]) && forall k {:trigger Place(k)} :: Place(k) && 0 <= k && k + 1 < |ps| ==> ps[k].next == ps[k + 1]
  }

  /** The rest of the list, from `q` on. */
  ghost predicate RestAt(q: Handle?, qs: seq<Handle>)
    reads qs`next
  {
    q == First(qs) && forall k {:trigger Place(k)} :: Place(k) && 0 <= k < |qs| ==> qs[k].next == After(qs, k)
  }

  /** The state of the merging. */
  ghost predicate Merging(list: Handle?, tail: Handle?, p: Handle?, q: Handle?, out: seq<Handle>, ps: seq<Handle>, qs: seq<Handle>)
    reads out`prev, out`next, ps`next, qs`next
  {
    Out(list, tail, out) && RunAt(p, ps) && RestAt(q, qs) && Distinct(out + ps + qs)
  }

  lemma DistinctFront(out: seq<Handle>, ps: seq<Handle>, qs: seq<Handle>)
    requires Distinct(out + ps + qs) && ps != []
    ensures out + ps + qs == (out + [ps[0]]) + ps[1..] + qs
  {
  }

  /** Taking the head of the rest before the run. */
  lemma DistinctSwap(out: seq<Handle>, ps: seq<Handle>, qs: seq<Handle>)
    requires Distinct(out + ps + qs) && qs != []
    ensures Distinct((out + [qs[0]]) + ps + qs[1..])
  {
    var s, t := out + ps + qs, (out + [qs[0]]) + ps + qs[1..];
    forall i, j | 0 <= i < j < |t| ensures t[i] != t[j] {
      assert Place(Came(|out|, |ps|, i)) && Place(Came(|out|, |ps|, j));
      assert t[i] == s[Came(|out|, |ps|, i)] && t[j] == s[Came(|out|, |ps|, j)];
    }
  }

  /** Where an element was before the swap. */
  function Came(a: nat, b: nat, i: nat): nat {
    if i < a then i else if i == a then a + b else if i <= a + b then i - 1 else i
  }

  lemma DistinctParts(out: seq<Handle>, ps: seq<Handle>, qs: seq<Handle>)
    requires Distinct(out + ps + qs)
    ensures forall i, j :: 0 <= i < |out| && 0 <= j < |ps| ==> out[i] != ps[j]
    ensures forall i, j :: 0 <= i < |out| && 0 <= j < |qs| ==> out[i] != qs[j]
    ensures forall i, j :: 0 <= i < |ps| && 0 <= j < |qs| ==> ps[i] != qs[j]
    ensures Distinct(out)
  {
    var s := out + ps + qs;
    forall i, j | 0 <= i < |out| && 0 <= j < |ps| ensures out[i] != ps[j] {
      assert Place(i) && Place(|out| + j) && s[i] == out[i] && s[|out| + j] == ps[j];
    }
    forall i, j | 0 <= i < |out| && 0 <= j < |qs| ensures out[i] != qs[j] {
      assert Place(i) && Place(|out| + |ps| + j) && s[i] == out[i] && s[|out| + |ps| + j] == qs[j];
    }
    forall i, j | 0 <= i < |ps| && 0 <= j < |qs| ensures ps[i] != qs[j] {
      assert Place(|out| + i) && Place(|out| + |ps| + j) && s[|out| + i] == ps[i] && s[|out| + |ps| + j] == qs[j];
    }
    forall i, j | 0 <= i < j < |out| ensures out[i] != out[j] {
      assert Place(i) && Place(j) && s[i] == out[i] && s[j] == out[j];
    }
  }

  // Linking an element behind what has been put out
  method Emit(list: Handle?, tail: Handle?, e: Handle, ghost out: seq<Handle>) returns (newList: Handle?, newTail: Handle?)
    requires Out(list, tail, out) && e !in out && Distinct(out)
    modifies out`next, e`prev
    ensures Out(newList, newTail, out + [e])
    ensures forall h :: h in out && h != Last(out) ==> h.next == old(h.next)
  {
    newList := list;
    if tail != null {
      tail.next := e;
    } else {
      newList := e;
    }
    e.prev := tail;
    newTail := e;
    ghost var s := out + [e];
    forall k {:trigger Place(k)} | Place(k) && 0 <= k < |s| ensures s[k].prev == Before(s, k) && (k + 1 < |s| ==> s[k].next == s[k + 1]) {
      assert Place(|out| - 1);
    }
  }

  // The head of the first run goes out.
  method TakeP(list: Handle?, tail: Handle?, p: Handle, q: Handle?, ghost out: seq<Handle>, ghost ps: seq<Handle>, ghost qs: seq<Handle>)
    returns (newList: Handle?, newTail: Handle?, newP: Handle?)
    requires Merging(list, tail, p, q, out, ps, qs) && ps != [] && p == ps[0]
    modifies out`next, p`prev
    ensures Merging(newList, newTail, newP, q, out + [p], ps[1..], qs)
  {
    assert Place(0);
    newP := p.next;
    DistinctParts(out, ps, qs);
    DistinctFront(out, ps, qs);
    newList, newTail := Emit(list, tail, p, out);
    forall k {:trigger Place(k)} | Place(k) && 0 <= k && k + 1 < |ps[1..]| ensures ps[1..][k].next == ps[1..][k + 1] {
      assert Place(k + 1);
    }
    forall k {:trigger Place(k)} | Place(k) && 0 <= k < |qs| ensures qs[k].next == After(qs, k) {
    }
  }

  // The head of the rest goes out.
  method TakeQ(list: Handle?, tail: Handle?, p: Handle?, q: Handle, ghost out: seq<Handle>, ghost ps: seq<Handle>, ghost qs: seq<Handle>)
    returns (newList: Handle?, newTail: Handle?, newQ: Handle?)
    requires Merging(list, tail, p, q, out, ps, qs) && qs != []
    modifies out`next, q`prev
    ensures Merging(newList, newTail, p, newQ, out + [q], ps, qs[1..])
  {
    assert Place(0);
    newQ := q.next;
    DistinctParts(out, ps, qs);
    DistinctSwap(out, ps, qs);
    newList, newTail := Emit(list, tail, q, out);
    forall k {:trigger Place(k)} | Place(k) && 0 <= k < |qs[1..]| ensures qs[1..][k].next == After(qs[1..], k) {
      assert Place(k + 1);
    }
    forall k {:trigger Place(k)} | Place(k) && 0 <= k && k + 1 < |ps| ensures ps[k].next == ps[k + 1] {
    }
  }

  /** The part of the rest that belongs to the second run. */
  function Second(qs: seq<Handle>, qsize: nat): seq<Handle> {
    qs[..Min(qsize, |qs|)]
  }

  /** What the merging of the two runs will put out in all. */
  ghost predicate WillBe(cmp: Cmp, out: seq<Handle>, ps: seq<Handle>, qs: seq<Handle>, qsize: nat, goal: seq<Handle>, after: seq<Handle>) {
    out + Merge(cmp, ps, Second(qs, qsize)) == goal && qs[Min(qsize, |qs|)..] == after
  }

  lemma WillBeP(cmp: Cmp, out: seq<Handle>, ps: seq<Handle>, qs: seq<Handle>, qsize: nat, goal: seq<Handle>, after: seq<Handle>)
    requires WillBe(cmp, out, ps, qs, qsize, goal, after) && ps != []
    requires qsize == 0 || qs == [] || Le(cmp, ps[0], qs[0])
    ensures WillBe(cmp, out + [ps[0]], ps[1..], qs, qsize, goal, after)
  {
    var b := Second(qs, qsize);
    assert Merge(cmp, ps, b) == [ps[0]] + Merge(cmp, ps[1..], b) by {
      if b == [] {
        assert Merge(cmp, ps[1..], b) == ps[1..] && ps == [ps[0]] + ps[1..];
      } else {
        assert b[0] == qs[0];
      }
    }
    assert out + ([ps[0]] + Merge(cmp, ps[1..], b)) == (out + [ps[0]]) + Merge(cmp, ps[1..], b);
  }

  lemma WillBeQ(cmp: Cmp, out: seq<Handle>, ps: seq<Handle>, qs: seq<Handle>, qsize: nat, goal: seq<Handle>, after: seq<Handle>)
    requires WillBe(cmp, out, ps, qs, qsize, goal, after) && 0 < qsize && qs != []
    requires ps == [] || !Le(cmp, ps[0], qs[0])
    ensures WillBe(cmp, out + [qs[0]], ps, qs[1..], qsize - 1, goal, after)
  {
    var b, c := Second(qs, qsize), Second(qs[1..], qsize - 1);
    assert b[0] == qs[0] && b[1..] == c;
    assert Merge(cmp, ps, b) == [qs[0]] + Merge(cmp, ps, c) by {
      if ps == [] {
        assert b == [qs[0]] + c;
      }
    }
    assert out + ([qs[0]] + Merge(cmp, ps, c)) == (out + [qs[0]]) + Merge(cmp, ps, c);
    assert qs[1..][Min(qsize - 1, |qs[1..]|)..] == qs[Min(qsize, |qs|)..];
  }

  // The loop that merges two runs
  method MergeRuns(list: Handle?, tail: Handle?, p: Handle?, psize: nat, q: Handle?, qsize: nat, cmp: Cmp,
                   ghost out: seq<Handle>, ghost ps: seq<Handle>, ghost qs: seq<Handle>, ghost all: seq<Handle>)
    returns (newList: Handle?, newTail: Handle?, newQ: Handle?, ghost newOut: seq<Handle>, ghost after: seq<Handle>)
    requires Merging(list, tail, p, q, out, ps, qs) && psize == |ps| && Within(out, ps, qs, all)
    modifies all`prev, all`next
    ensures newOut == out + Merge(cmp, ps, Second(qs, qsize)) && after == qs[Min(qsize, |qs|)..]
    ensures Merging(newList, newTail, null, newQ, newOut, [], after) && Within(newOut, [], after, all)
  {
    hide Distinct, Merge;
    newList, newTail, newQ, newOut, after := list, tail, q, out, qs;
    ghost var goal, last := out + Merge(cmp, ps, Second(qs, qsize)), qs[Min(qsize, |qs|)..];
    ghost var run := ps;
    var pp, pn, qn := p, psize, qsize;
    while pn > 0 || (qn > 0 && newQ != null)
      invariant Merging(newList, newTail, pp, newQ, newOut, run, after) && pn == |run| && Within(newOut, run, after, all)
      invariant WillBe(cmp, newOut, run, after, qn, goal, last)
      decreases |run| + |after|
    {
      if pn == 0 {
        newList, newTail, newQ, newOut, after, qn := StepQ(newList, newTail, pp, newQ, qn, cmp, newOut, run, after, all, goal, last);
      } else if qn == 0 || newQ == null {
        newList, newTail, pp, newOut, run := StepP(newList, newTail, pp, newQ, qn, cmp, newOut, run, after, all, goal, last);
        pn := pn - 1;
      } else if cmp(pp, newQ) <= 0 {
        newList, newTail, pp, newOut, run := StepP(newList, newTail, pp, newQ, qn, cmp, newOut, run, after, all, goal, last);
        pn := pn - 1;
      } else {
        newList, newTail, newQ, newOut, after, qn := StepQ(newList, newTail, pp, newQ, qn, cmp, newOut, run, after, all, goal, last);
      }
    }
    Merged(cmp, newOut, after, qn, goal, last);
    NothingRun(newList, newTail, pp, newQ, newOut, run, after);
  }

  ghost predicate Within(out: seq<Handle>, ps: seq<Handle>, qs: seq<Handle>, all: seq<Handle>) {
    (forall k :: 0 <= k < |out| ==> out[k] in all) && (forall k :: 0 <= k < |ps| ==> ps[k] in all) && (forall k :: 0 <= k < |qs| ==> qs[k] in all)
  }

  lemma Merged(cmp: Cmp, out: seq<Handle>, qs: seq<Handle>, qsize: nat, goal: seq<Handle>, last: seq<Handle>)
    requires WillBe(cmp, out, [], qs, qsize, goal, last) && (qsize == 0 || qs == [])
    ensures out == goal && qs == last
  {
    assert out + [] == out;
  }

  lemma NothingRun(list: Handle?, tail: Handle?, p: Handle?, q: Handle?, out: seq<Handle>, ps: seq<Handle>, qs: seq<Handle>)
    requires Merging(list, tail, p, q, out, ps, qs) && ps == []
    ensures Merging(list, tail, null, q, out, [], qs) && (q == null <==> qs == [])
  {
  }

  method StepP(list: Handle?, tail: Handle?, p: Handle?, q: Handle?, ghost qsize: nat, ghost cmp: Cmp, ghost out: seq<Handle>, ghost ps: seq<Handle>, ghost qs: seq<Handle>,
               ghost all: seq<Handle>, ghost goal: seq<Handle>, ghost last: seq<Handle>)
    returns (newList: Handle?, newTail: Handle?, newP: Handle?, ghost newOut: seq<Handle>, ghost run: seq<Handle>)
    requires Merging(list, tail, p, q, out, ps, qs) && ps != [] && Within(out, ps, qs, all)
    requires WillBe(cmp, out, ps, qs, qsize, goal, last) && (qsize == 0 || q == null || (p != null && cmp(p, q) <= 0))
    modifies all`prev, all`next
    ensures Merging(newList, newTail, newP, q, newOut, run, qs) && Within(newOut, run, qs, all) && |run| == |ps| - 1
    ensures WillBe(cmp, newOut, run, qs, qsize, goal, last)
  {
    hide Distinct;
    assert p == ps[0] && (q == null <==> qs == []);
    WillBeP(cmp, out, ps, qs, qsize, goal, last);
    newList, newTail, newP := TakeP(list, tail, p, q, out, ps, qs);
    newOut, run := out + [p], ps[1..];
  }

  method StepQ(list: Handle?, tail: Handle?, p: Handle?, q: Handle?, qsize: nat, ghost cmp: Cmp, ghost out: seq<Handle>, ghost ps: seq<Handle>, ghost qs: seq<Handle>,
               ghost all: seq<Handle>, ghost goal: seq<Handle>, ghost last: seq<Handle>)
    returns (newList: Handle?, newTail: Handle?, newQ: Handle?, ghost newOut: seq<Handle>, ghost after: seq<Handle>, left: nat)
    requires Merging(list, tail, p, q, out, ps, qs) && q != null && 0 < qsize && Within(out, ps, qs, all)
    requires WillBe(cmp, out, ps, qs, qsize, goal, last) && (ps == [] || (p != null && cmp(p, q) > 0))
    modifies all`prev, all`next
    ensures Merging(newList, newTail, p, newQ, newOut, ps, after) && Within(newOut, ps, after, all) && |after| == |qs| - 1 && left == qsize - 1
    ensures WillBe(cmp, newOut, ps, after, left, goal, last)
  {
    hide Distinct;
    assert qs != [] && q == qs[0] && (ps != [] ==> p == ps[0]);
    WillBeQ(cmp, out, ps, qs, qsize, goal, last);
    newList, newTail, newQ := TakeQ(list, tail, p, q, out, ps, qs);
    newOut, after, left := out + [q], qs[1..], qsize - 1;
  }

  // Stepping over the first run: its size, and the start of the second
  method FindSecond(p: Handle, insize: nat, ghost rest: seq<Handle>) returns (q: Handle?, psize: nat)
    requires RestAt(p, rest) && rest != [] && 0 < insize
    ensures psize == Min(insize, |rest|) && q == First(rest[psize..])
  {
    q, psize := p, 0;
    for i := 0 to insize
      invariant psize == i < |rest| && q == rest[i]
    {
      assert Place(i);
      psize := psize + 1;
      q := q.next;
      if q == null {
        break;
      }
    }
  }

  lemma SplitRest(list: Handle?, tail: Handle?, p: Handle?, out: seq<Handle>, rest: seq<Handle>, n: nat)
    requires Merging(list, tail, null, p, out, [], rest) && n <= |rest|
    ensures Merging(list, tail, p, First(rest[n..]), out, rest[..n], rest[n..])
  {
    var ps, qs := rest[..n], rest[n..];
    assert out + [] + rest == out + ps + qs;
    forall k {:trigger Place(k)} | Place(k) && 0 <= k && k + 1 < |ps| ensures ps[k].next == ps[k + 1] {
      assert rest[k].next == After(rest, k);
    }
    forall k {:trigger Place(k)} | Place(k) && 0 <= k < |qs| ensures qs[k].next == After(qs, k) {
      assert Place(n + k) && rest[n + k].next == After(rest, n + k);
    }
  }

  lemma PassOnce(cmp: Cmp, rest: seq<Handle>, k: nat, n: nat)
    requires 0 < k && rest != [] && n == Min(k, |rest|)
    ensures var qs := rest[n..];
            Pass(cmp, rest, k) == Merge(cmp, rest[..n], Second(qs, k)) + Pass(cmp, qs[Min(k, |qs|)..], k)
            && qs[Min(k, |qs|)..] == rest[Min(2 * k, |rest|)..] && |qs[Min(k, |qs|)..]| < |rest|
  {
    var qs := rest[n..];
    assert Second(qs, k) == rest[n..Min(2 * k, |rest|)];
    assert qs[Min(k, |qs|)..] == rest[Min(2 * k, |rest|)..];
  }

  /** A pass under way over `s`. */
  ghost predicate Passing(cmp: Cmp, s: seq<Handle>, k: nat, merges: nat, out: seq<Handle>, rest: seq<Handle>)
    requires 0 < k
  {
    out + Pass(cmp, rest, k) == Pass(cmp, s, k)
    && (merges == 0 ==> rest == s && out == []) && (merges == 1 ==> rest == s[Min(2 * k, |s|)..]) && (merges >= 2 ==> |s| > 2 * k)
  }

  // Two runs out of the rest, merged
  method MergeNext(list: Handle?, tail: Handle?, p: Handle, insize: nat, cmp: Cmp, ghost s: seq<Handle>, ghost merges: nat,
                   ghost out: seq<Handle>, ghost rest: seq<Handle>, ghost all: seq<Handle>)
    returns (newList: Handle?, newTail: Handle?, newP: Handle?, ghost newOut: seq<Handle>, ghost after: seq<Handle>)
    requires Merging(list, tail, null, p, out, [], rest) && Within(out, [], rest, all) && 0 < insize && Passing(cmp, s, insize, merges, out, rest)
    modifies all`prev, all`next
    ensures Merging(newList, newTail, null, newP, newOut, [], after) && Within(newOut, [], after, all)
    ensures Passing(cmp, s, insize, merges + 1, newOut, after) && |after| < |rest|
  {
    hide Distinct, Merge, Pass, Within;
    assert rest != [];
    var q, psize := FindSecond(p, insize, rest);
    SplitRest(list, tail, p, out, rest, psize);
    WithinSplit(out, rest, psize, all);
    PassOnce(cmp, rest, insize, psize);
    ghost var qs := rest[psize..];
    newList, newTail, newP, newOut, after := MergeRuns(list, tail, p, psize, q, insize, cmp, out, rest[..psize], qs, all);
    ghost var m := Merge(cmp, rest[..psize], Second(qs, insize));
    assert out + (m + Pass(cmp, after, insize)) == (out + m) + Pass(cmp, after, insize);
  }

  lemma WithinSplit(out: seq<Handle>, rest: seq<Handle>, n: nat, all: seq<Handle>)
    requires Within(out, [], rest, all) && n <= |rest|
    ensures Within(out, rest[..n], rest[n..], all)
  {
  }

  // One pass over the list
  method OnePass(first: Handle?, insize: nat, cmp: Cmp, ghost s: seq<Handle>, ghost all: seq<Handle>)
    returns (list: Handle?, tail: Handle?, merges: nat)
    requires RestAt(first, s) && Distinct(s) && 0 < insize && Within([], [], s, all)
    modifies all`prev, all`next
    ensures Threads(list, tail, Pass(cmp, s, insize)) && Distinct(Pass(cmp, s, insize)) && Within([], [], Pass(cmp, s, insize), all)
    ensures merges <= 1 <==> |s| <= 2 * insize
  {
    hide Pass, Within;
    var p := first;
    list, tail, merges := null, null, 0;
    ghost var out: seq<Handle>, rest := [], s;
    assert [] + [] + s == s && [] + Pass(cmp, s, insize) == Pass(cmp, s, insize);
    while p != null
      invariant Merging(list, tail, null, p, out, [], rest) && Within(out, [], rest, all)
      invariant Passing(cmp, s, insize, merges, out, rest) && (merges == 0 ==> |s| == |rest|)
      decreases |rest|
    {
      list, tail, p, out, rest := MergeNext(list, tail, p, insize, cmp, s, merges, out, rest, all);
      merges := merges + 1;
    }
    PassDone(cmp, s, insize, merges, out, rest, all);
    CloseList(list, tail, out, all);
  }

  lemma PassDone(cmp: Cmp, s: seq<Handle>, k: nat, merges: nat, out: seq<Handle>, rest: seq<Handle>, all: seq<Handle>)
    requires 0 < k && Passing(cmp, s, k, merges, out, rest) && rest == [] && Within(out, [], rest, all) && Distinct(out + [] + rest)
    ensures out == Pass(cmp, s, k) && Within([], [], out, all) && Distinct(out) && (merges <= 1 <==> |s| <= 2 * k)
  {
    assert out + [] + rest == out;
  }

  // The last element leads nowhere.
  method CloseList(list: Handle?, tail: Handle?, ghost out: seq<Handle>, ghost all: seq<Handle>)
    requires Out(list, tail, out) && Distinct(out) && Within([], [], out, all)
    modifies all`next
    ensures Threads(list, tail, out)
  {
    if tail != null {
      tail.next := null;
    }
    forall k {:trigger Place(k)} | Place(k) && 0 <= k < |out| ensures out[k].prev == Before(out, k) && out[k].next == After(out, k) {
      assert Place(|out| - 1);
    }
  }

  // ---------------------------------------------------------------------
  // The table

  lemma Permuted(order: seq<Handle>, sorted: seq<Handle>, chains: Chains, hash: string -> nat)
    requires multiset(order) == multiset(sorted) && Distinct(sorted) && Keyed(order, hash) && Indexed(order, chains)
    ensures Keyed(sorted, hash) && Indexed(sorted, chains)
  {
    SameSet(order, sorted);
    forall h | h in sorted ensures h in order {
      assert h in Set(sorted);
    }
    forall h | h in order ensures h in sorted {
      assert h in Set(order);
    }
    forall i, j | 0 <= i < j < |sorted| && sorted[i].key == sorted[j].key ensures sorted[i] == sorted[j] {
      SameKey(order, hash, sorted[i], sorted[j]);
    }
    forall i, j {:trigger Place(i), Place(j)} | Place(i) && Place(j) && 0 <= i < j < |sorted| ensures sorted[i].key != sorted[j].key {
      assert sorted[i] != sorted[j];
    }
    forall b | 0 <= b < |chains| ensures InPlace(sorted, chains, b) {
      assert InPlace(order, chains, b);
    }
  }

  lemma SameKey(order: seq<Handle>, hash: string -> nat, x: Handle, y: Handle)
    requires Keyed(order, hash) && x in order && y in order && x.key == y.key
    ensures x == y
  {
    var i :| 0 <= i < |order| && order[i] == x;
    var j :| 0 <= j < |order| && order[j] == y;
    assert Place(i) && Place(j);
  }

  lemma ThreadsRest(head: Handle?, tail: Handle?, s: seq<Handle>)
    requires Threads(head, tail, s)
    ensures RestAt(head, s)
  {
  }

  // The passes
  method SortList(head: Handle, cmp: Cmp, ghost order: seq<Handle>) returns (list: Handle?, tail: Handle?)
    requires RestAt(head, order) && Distinct(order)
    modifies order`prev, order`next
    ensures Threads(list, tail, MergeSort(cmp, order, 1)) && Distinct(MergeSort(cmp, order, 1))
  {
    hide Pass, Distinct, RestAt, Threads;
    var insize := 1;
    var looping := true;
    list, tail := head, null;
    ghost var s := order;
    while looping
      invariant 0 < insize && |s| == |order| && Within([], [], s, order) && Distinct(s)
      invariant if looping then RestAt(list, s) && MergeSort(cmp, s, insize) == MergeSort(cmp, order, 1)
                else Threads(list, tail, s) && s == MergeSort(cmp, order, 1)
      decreases looping, if |s| > insize then |s| - insize else 0
    {
      var merges;
      list, tail, merges := OnePass(list, insize, cmp, s, order);
      s := Pass(cmp, s, insize);
      ThreadsRest(list, tail, s);
      if merges <= 1 {
        looping := false;
      }
      insize := insize * 2;
    }
  }

  // HASH_SRT: the same elements, found as before, in sorted order
  method Sort(t: Table, cmp: Cmp)
    requires t.Valid()
    modifies t`head, t`tail, t`order, t.order`prev, t.order`next
    ensures t.Valid() && t.order == MergeSort(cmp, old(t.order), 1) && t.chains == old(t.chains) && t.buckets == old(t.buckets)
  {
    hide MergeSort, Indexed, HungAt, Keyed, Distinct;
    if t.head == null {
      NothingSorted(cmp, t.order);
      return;
    }
    ghost var order, sorted := t.order, MergeSort(cmp, t.order, 1);
    ThreadsRest(t.head, t.tail, order);
    var list, tail := SortList(t.head, cmp, order);
    SortPermutes(cmp, order, 1);
    Permuted(order, sorted, t.chains, t.hash);
    HeadOf(list, tail, sorted);
    t.head, t.tail, t.order := list, tail, sorted;
  }

  lemma NothingSorted(cmp: Cmp, s: seq<Handle>)
    requires s == []
    ensures MergeSort(cmp, s, 1) == s
  {
  }
}
