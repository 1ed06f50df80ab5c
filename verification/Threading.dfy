/** Threading a branch of the entry tree into a doubly linked list, in place: `link_entry_after` and the
    recursive pass of save_file. `link_branch` is the same pass without the verification. */
module Threading {
  import opened Lists
  import opened Codes
  import opened Entries

  /** The shape of a branch. */
  datatype Tree = Tree(node: Entry, kids: seq<Tree>)

  ghost function Preorder(t: Tree): seq<Entry>
    decreases t, 0
  {
    [t.node] + PreorderAll(t.kids)
  }

  ghost function PreorderAll(kids: seq<Tree>): seq<Entry>
    decreases kids, 1
  {
    if kids == [] then [] else PreorderAll(kids[..|kids| - 1]) + Preorder(kids[|kids| - 1])
  }

  function Nodes(kids: seq<Tree>): seq<Entry> {
    seq(|kids|, i requires 0 <= i < |kids| => kids[i].node)
  }

  /** The child arrays recorded in `childOf` form the tree. */
  ghost predicate Shaped(t: Tree, childOf: map<Entry, seq<Entry>>) {
    t.node in childOf && childOf[t.node] == Nodes(t.kids) && forall i :: 0 <= i < |t.kids| ==> Shaped(t.kids[i], childOf)
  }

  ghost predicate Recorded(childOf: map<Entry, seq<Entry>>)
    reads childOf.Keys`child
  {
    forall x :: x in childOf ==> x.child == childOf[x]
  }

  /** `list` is a doubly linked list of its own. */
  ghost predicate Chain(list: seq<Entry>)
    reads list`linkPrev, list`linkNext
  {
    forall k {:trigger Place(k)} :: Place(k) && 0 <= k < |list| ==>
      list[k].linkPrev == (if k == 0 then null else list[k - 1])
      && list[k].linkNext == (if k + 1 < |list| then list[k + 1] else null)
  }

  /** `list` with `seg` put in after place `p`. */
  function InsertAt(list: seq<Entry>, p: nat, seg: seq<Entry>): seq<Entry>
    requires p < |list|
  {
    list[..p + 1] + seg + list[p + 1..]
  }

  // link_entry_after, for two entries
  method LinkEntryAfter(dst: Entry, tar: Entry, ghost list: seq<Entry>, ghost p: nat)
    requires Chain(list) && Distinct(list) && p < |list| && list[p] == dst && tar !in list
    modifies list`linkPrev, list`linkNext, tar`linkPrev, tar`linkNext
    ensures Chain(InsertAt(list, p, [tar]))
  {
    assert Place(p);
    var tmp := dst.linkNext;
    dst.linkNext := tar;
    if tmp != null {
      tmp.linkPrev := tar;
    }
    tar.linkPrev := dst;
    tar.linkNext := tmp;
    Inserted(list, p, tar);
    ghost var r := InsertAt(list, p, [tar]);
    forall k {:trigger Place(k)} | Place(k) && 0 <= k < |r|
      ensures r[k].linkPrev == (if k == 0 then null else r[k - 1])
      ensures r[k].linkNext == (if k + 1 < |r| then r[k + 1] else null)
    {
      assert Place(if k <= p then k else k - 1) && Place(p) && Place(p + 1);
    }
  }

  lemma Inserted(list: seq<Entry>, p: nat, tar: Entry)
    requires p < |list|
    ensures var r := InsertAt(list, p, [tar]);
            |r| == |list| + 1 && forall k :: 0 <= k < |r| ==> r[k] == if k <= p then list[k] else if k == p + 1 then tar else list[k - 1]
  {
  }

  // ---------------------------------------------------------------------
  // What the pass leaves, by recursion over the branch

  /** The entries linked, in list order, and the place of the one returned as the tail. */
  datatype Segment = Segment(nodes: seq<Entry>, last: nat)

  /** Does the pass stop here because the only child does not verify? */
  ghost predicate Stops(t: Tree, ok: set<Entry>) {
    |t.kids| == 1 && t.kids[0].node !in ok
  }

  /** The pass over a branch whose root verifies. When it stops below an only child, the tail it returns is
      one layer above the last entry it linked. */
  ghost function Threaded(t: Tree, ok: set<Entry>): (r: Segment)
    ensures r.last < |r.nodes| && r.nodes[0] == t.node
    decreases t, 0
  {
    if Stops(t, ok) then Segment([t.node], 0)
    else if |t.kids| == 1 then
      var r := Threaded(t.kids[0], ok);
      Segment([t.node] + r.nodes, if Stops(t.kids[0], ok) then 0 else r.last + 1)
    else ThreadedKids(t, |t.kids|, ok)
  }

  ghost function ThreadedKids(t: Tree, n: nat, ok: set<Entry>): (r: Segment)
    requires n <= |t.kids|
    ensures r.last < |r.nodes| && r.nodes[0] == t.node
    decreases t, 0, n
  {
    if n == 0 then Segment([t.node], 0)
    else
      var r := ThreadedKids(t, n - 1, ok);
      if t.kids[n - 1].node !in ok then r
      else
        var k := Threaded(t.kids[n - 1], ok);
        Segment(InsertAt(r.nodes, r.last, k.nodes), r.last + 1 + k.last)
  }

  /** The code returned: that of the last child looked at decides. */
  ghost function Code(t: Tree, ok: set<Entry>): int
    decreases t, 0
  {
    if t.node !in ok || Stops(t, ok) then VERIFY_FAIL
    else if |t.kids| == 1 then Code(t.kids[0], ok)
    else CodeKids(t, |t.kids|, ok)
  }

  ghost function CodeKids(t: Tree, n: nat, ok: set<Entry>): int
    requires n <= |t.kids|
    decreases t, 0, n
  {
    if n == 0 then OK else Code(t.kids[n - 1], ok)
  }

  lemma {:induction false} ThreadedWithin(t: Tree, ok: set<Entry>, x: Entry)
    ensures Times(Threaded(t, ok).nodes, x) <= Times(Preorder(t), x)
    decreases t, 0
  {
    TimesConcat([t.node], PreorderAll(t.kids), x);
    if Stops(t, ok) {
    } else if |t.kids| == 1 {
      ThreadedWithin(t.kids[0], ok, x);
      OnlyChild(t);
      TimesConcat([t.node], Threaded(t.kids[0], ok).nodes, x);
      TimesConcat([t.node], Preorder(t.kids[0]), x);
    } else {
      ThreadedKidsWithin(t, |t.kids|, ok, x);
      assert t.kids[..|t.kids|] == t.kids;
    }
  }

  lemma {:induction false} ThreadedKidsWithin(t: Tree, n: nat, ok: set<Entry>, x: Entry)
    requires n <= |t.kids|
    ensures Times(ThreadedKids(t, n, ok).nodes, x) <= Times([t.node], x) + Times(PreorderAll(t.kids[..n]), x)
    decreases t, 0, n
  {
    hide *;
    if n == 0 {
      JustRoot(t, ok);
    } else {
      ThreadedKidsWithin(t, n - 1, ok, x);
      ThreadedWithin(t.kids[n - 1], ok, x);
      KidsStep(t.kids, n - 1);
      TimesConcat(PreorderAll(t.kids[..n - 1]), Preorder(t.kids[n - 1]), x);
      KidTimes(t, n - 1, ok, x);
    }
  }

  lemma KidTimes(t: Tree, n: nat, ok: set<Entry>, x: Entry)
    requires n < |t.kids|
    ensures Times(ThreadedKids(t, n + 1, ok).nodes, x) <= Times(ThreadedKids(t, n, ok).nodes, x) + Times(Threaded(t.kids[n], ok).nodes, x)
  {
    var r := ThreadedKids(t, n, ok);
    InsertedTimes(r.nodes, r.last, Threaded(t.kids[n], ok).nodes, x);
  }

  function Times(s: seq<Entry>, x: Entry): nat {
    multiset(s)[x]
  }

  lemma TimesConcat(a: seq<Entry>, b: seq<Entry>, x: Entry)
    ensures Times(a + b, x) == Times(a, x) + Times(b, x)
  {
  }

  lemma InsertedTimes(list: seq<Entry>, p: nat, seg: seq<Entry>, x: Entry)
    requires p < |list|
    ensures Times(InsertAt(list, p, seg), x) == Times(list, x) + Times(seg, x)
  {
    assert list == list[..p + 1] + list[p + 1..];
  }

  lemma KidsStep(kids: seq<Tree>, n: nat)
    requires n < |kids|
    ensures PreorderAll(kids[..n + 1]) == PreorderAll(kids[..n]) + Preorder(kids[n])
  {
    assert kids[..n + 1][..n] == kids[..n];
  }

  lemma InsertAtEnd(list: seq<Entry>, seg: seq<Entry>)
    requires list != []
    ensures InsertAt(list, |list| - 1, seg) == list + seg
  {
  }

  /** No entry is in `a` and `rest` together more often than in `all`. */
  ghost predicate Room(a: seq<Entry>, rest: seq<Entry>, all: seq<Entry>) {
    forall i {:trigger Place(i)} :: Place(i) && 0 <= i < |a + rest| ==>
      Times(a, (a + rest)[i]) + Times(rest, (a + rest)[i]) <= Times(all, (a + rest)[i])
  }

  lemma PrefixRoom(a: seq<Entry>, rest: seq<Entry>, more: seq<Entry>)
    ensures Room(a, rest, a + rest + more)
  {
    forall i | 0 <= i < |a + rest|
      ensures Times(a, (a + rest)[i]) + Times(rest, (a + rest)[i]) <= Times(a + rest + more, (a + rest)[i])
    {
      TimesConcat(a, rest, (a + rest)[i]);
      TimesConcat(a + rest, more, (a + rest)[i]);
    }
  }

  lemma TwiceIsMany(s: seq<Entry>, i: nat, j: nat)
    requires i < j < |s| && s[i] == s[j]
    ensures Times(s, s[i]) >= 2
  {
    assert s == s[..j] + s[j..];
    TimesConcat(s[..j], s[j..], s[i]);
    assert s[..j][i] == s[i] && s[j..][0] == s[i];
  }

  lemma {:induction false} AppearsOnce(t: seq<Entry>, x: Entry)
    requires Distinct(t)
    ensures Times(t, x) <= 1
  {
    if t != [] {
      assert t == t[..|t| - 1] + [t[|t| - 1]];
      forall i | 0 <= i < |t| - 1 ensures t[i] != t[|t| - 1] {
        assert Place(i) && Place(|t| - 1);
      }
      AppearsOnce(t[..|t| - 1], x);
    }
  }

  /** When every entry verifies, the pass links the preorder and returns its last entry. */
  lemma {:induction false} VerifiedIsPreorder(t: Tree, ok: set<Entry>)
    requires forall x :: x in Preorder(t) ==> x in ok
    ensures Threaded(t, ok) == Segment(Preorder(t), |Preorder(t)| - 1) && Code(t, ok) == OK
    decreases t, 0
  {
    forall i | 0 <= i < |t.kids| ensures forall x :: x in Preorder(t.kids[i]) ==> x in ok {
      KidInPreorder(t, i);
    }
    if |t.kids| == 1 {
      assert t.kids[0].node in Preorder(t.kids[0]);
      VerifiedIsPreorder(t.kids[0], ok);
      OnlyChild(t);
      if |t.kids[0].kids| == 1 {
        KidInPreorder(t.kids[0], 0);
        assert t.kids[0].kids[0].node in Preorder(t.kids[0].kids[0]);
      }
      assert !Stops(t, ok) && !Stops(t.kids[0], ok);
    } else {
      VerifiedKids(t, |t.kids|, ok);
      assert t.kids[..|t.kids|] == t.kids;
    }
  }

  lemma AppendKid(t: Tree, n: nat, ok: set<Entry>, before: seq<Entry>, kid: seq<Entry>)
    requires n < |t.kids| && t.kids[n].node in ok && kid != []
    requires ThreadedKids(t, n, ok) == Segment([t.node] + before, |before|)
    requires Threaded(t.kids[n], ok) == Segment(kid, |kid| - 1)
    ensures ThreadedKids(t, n + 1, ok) == Segment([t.node] + (before + kid), |before + kid|)
  {
    InsertAtEnd([t.node] + before, kid);
    assert [t.node] + before + kid == [t.node] + (before + kid);
  }

  lemma OnlyChild(t: Tree)
    requires |t.kids| == 1
    ensures Preorder(t) == [t.node] + Preorder(t.kids[0])
  {
    assert t.kids[..0] == [];
    assert PreorderAll(t.kids[..0]) == [];
  }

  lemma {:induction false} VerifiedKids(t: Tree, n: nat, ok: set<Entry>)
    requires n <= |t.kids| && forall i :: 0 <= i < |t.kids| ==> forall x :: x in Preorder(t.kids[i]) ==> x in ok
    ensures ThreadedKids(t, n, ok) == Segment([t.node] + PreorderAll(t.kids[..n]), |PreorderAll(t.kids[..n])|)
    ensures CodeKids(t, n, ok) == OK
    decreases t, 0, n
  {
    if n > 0 {
      VerifiedKids(t, n - 1, ok);
      VerifiedIsPreorder(t.kids[n - 1], ok);
      assert t.kids[n - 1].node in Preorder(t.kids[n - 1]);
      KidsStep(t.kids, n - 1);
      AppendKid(t, n - 1, ok, PreorderAll(t.kids[..n - 1]), Preorder(t.kids[n - 1]));
    }
  }

  lemma {:induction false} KidInPreorder(t: Tree, i: nat)
    requires i < |t.kids|
    ensures forall x :: x in Preorder(t.kids[i]) ==> x in Preorder(t)
  {
    KidInAll(t.kids, i);
  }

  lemma {:induction false} KidInAll(kids: seq<Tree>, i: nat)
    requires i < |kids|
    ensures forall x :: x in Preorder(kids[i]) ==> x in PreorderAll(kids)
  {
    var init := kids[..|kids| - 1];
    if i < |kids| - 1 {
      KidInAll(init, i);
      assert init[..i] == kids[..i];
    } else {
      assert kids[..i] == init;
    }
  }

  lemma {:induction false} KidTimesInAll(kids: seq<Tree>, i: nat, x: Entry)
    requires i < |kids|
    ensures Times(PreorderAll(kids[..i]), x) + Times(Preorder(kids[i]), x) <= Times(PreorderAll(kids), x)
  {
    var init := kids[..|kids| - 1];
    TimesConcat(PreorderAll(init), Preorder(kids[|kids| - 1]), x);
    if i < |kids| - 1 {
      KidTimesInAll(init, i, x);
      assert init[..i] == kids[..i];
    } else {
      assert kids[..i] == init;
    }
  }

  /** Where the pass puts its entries: after the given tail, or into a new list. */
  ghost function Placed(list: seq<Entry>, p: nat, seg: seq<Entry>): seq<Entry>
    requires list == [] || p < |list|
  {
    if list == [] then seg else InsertAt(list, p, seg)
  }

  /** The place in `Placed(list, p, seg)` of the segment's place `q`. */
  function PlaceOf(list: seq<Entry>, p: nat, q: nat): nat {
    if list == [] then q else p + 1 + q
  }

  lemma PlacedTwice(list: seq<Entry>, p: nat, a: seq<Entry>, q: nat, b: seq<Entry>)
    requires (list == [] || p < |list|) && q < |a|
    ensures PlaceOf(list, p, q) < |Placed(list, p, a)| && Placed(list, p, a)[PlaceOf(list, p, q)] == a[q]
    ensures InsertAt(Placed(list, p, a), PlaceOf(list, p, q), b) == Placed(list, p, InsertAt(a, q, b))
  {
    if list != [] {
      var x, z, a0, a1 := list[..p + 1], list[p + 1..], a[..q + 1], a[q + 1..];
      assert a0 + a1 == a;
      Regroup(x + a + z, x, a0, a1, z, b);
      assert |x + a0| == PlaceOf(list, p, q) + 1;
    }
  }

  lemma Regroup(l: seq<Entry>, x: seq<Entry>, a0: seq<Entry>, a1: seq<Entry>, z: seq<Entry>, b: seq<Entry>)
    requires l == x + (a0 + a1) + z
    ensures l[..|x + a0|] + b + l[|x + a0|..] == x + (a0 + b + a1) + z
  {
    assert l[..|x + a0|] == x + a0 && l[|x + a0|..] == a1 + z;
  }

  lemma PlacedTimes(list: seq<Entry>, p: nat, a: seq<Entry>, x: Entry)
    requires list == [] || p < |list|
    ensures Times(Placed(list, p, a), x) == Times(list, x) + Times(a, x)
  {
    if list != [] {
      InsertedTimes(list, p, a, x);
    }
  }

  /** Entries of the list built so far and of what is still to come are all different, and all known. */
  lemma StillDistinct(list: seq<Entry>, p: nat, a: seq<Entry>, rest: seq<Entry>, all: seq<Entry>)
    requires (list == [] || p < |list|) && Distinct(list + all) && Room(a, rest, all)
    ensures Distinct(Placed(list, p, a) + rest)
    ensures forall i :: 0 <= i < |Placed(list, p, a)| ==> Placed(list, p, a)[i] in list || Placed(list, p, a)[i] in all
    ensures forall i :: 0 <= i < |rest| ==> rest[i] in all
  {
    var built := Placed(list, p, a);
    forall i | 0 <= i < |built + rest|
      ensures Times(built + rest, (built + rest)[i]) <= 1
      ensures (built + rest)[i] in list || (built + rest)[i] in all
    {
      var x := (built + rest)[i];
      AppearsOnce(list + all, x);
      CountBuilt(list, p, a, rest, all, x);
    }
    forall i, j | 0 <= i < j < |built + rest| ensures (built + rest)[i] != (built + rest)[j] {
      if (built + rest)[i] == (built + rest)[j] {
        TwiceIsMany(built + rest, i, j);
      }
    }
    forall i | 0 <= i < |rest| ensures rest[i] in all {
      assert Place(|a| + i) && (a + rest)[|a| + i] == rest[i];
      assert Times(rest, rest[i]) > 0;
    }
    forall i | 0 <= i < |built| ensures built[i] in list || built[i] in all {
      assert (built + rest)[i] == built[i];
    }
  }

  lemma CountBuilt(list: seq<Entry>, p: nat, a: seq<Entry>, rest: seq<Entry>, all: seq<Entry>, x: Entry)
    requires (list == [] || p < |list|) && Room(a, rest, all) && Times(list + all, x) <= 1
    ensures Times(Placed(list, p, a) + rest, x) <= 1
    ensures x in Placed(list, p, a) + rest ==> x in list || x in all
  {
    TimesConcat(Placed(list, p, a), rest, x);
    PlacedTimes(list, p, a, x);
    TimesConcat(list, all, x);
    TimesConcat(a, rest, x);
    if x in a + rest {
      var i :| 0 <= i < |a + rest| && (a + rest)[i] == x;
      assert Place(i);
    } else {
      assert Times(a + rest, x) == 0;
    }
    assert x in list <==> Times(list, x) > 0;
    assert x in all <==> Times(all, x) > 0;
    assert x in Placed(list, p, a) + rest <==> Times(Placed(list, p, a) + rest, x) > 0;
  }

  // The first entry of a branch: after the tail, or first of a new list
  method LinkFirst(entry: Entry, tail: Entry?, ghost list: seq<Entry>, ghost p: nat)
    requires if tail == null then list == [] else p < |list| && list[p] == tail && Chain(list)
    requires Distinct(list + [entry])
    modifies list`linkPrev, list`linkNext, entry`linkPrev, entry`linkNext
    ensures Chain(Placed(list, p, [entry]))
  {
    if tail == null {
      entry.linkPrev := null;
      entry.linkNext := null;
    } else {
      SplitDistinct(list, entry);
      LinkEntryAfter(tail, entry, list, p);
    }
  }

  /** How the pass over `t` continues after a run of only children: `pre` is linked, `cur` is next. */
  ghost predicate Continues(t: Tree, ok: set<Entry>, pre: seq<Entry>, cur: Tree) {
    var r := Threaded(cur, ok);
    Threaded(t, ok) == Segment(pre + r.nodes, if Stops(cur, ok) && pre != [] then |pre| - 1 else |pre| + r.last)
    && Code(t, ok) == Code(cur, ok)
    && Preorder(t) == pre + Preorder(cur)
  }

  lemma ContinuesDown(t: Tree, ok: set<Entry>, pre: seq<Entry>, cur: Tree)
    requires Continues(t, ok, pre, cur) && |cur.kids| == 1 && !Stops(cur, ok) && cur.node in ok
    ensures Continues(t, ok, pre + [cur.node], cur.kids[0])
  {
    OnlyChild(cur);
    var r := Threaded(cur.kids[0], ok);
    assert pre + ([cur.node] + r.nodes) == (pre + [cur.node]) + r.nodes;
    assert pre + ([cur.node] + Preorder(cur.kids[0])) == (pre + [cur.node]) + Preorder(cur.kids[0]);
  }

  /** Linking the only child: it is new to the list built so far, and goes after the last entry linked. */
  lemma OnlyChildFresh(list: seq<Entry>, p: nat, pre: seq<Entry>, cur: Tree, all: seq<Entry>)
    requires |cur.kids| == 1 && (list == [] || p < |list|) && Distinct(list + all)
    requires all == pre + Preorder(cur)
    ensures var built, q, kid := Placed(list, p, pre + [cur.node]), PlaceOf(list, p, |pre|), cur.kids[0].node;
            Distinct(built) && kid !in built && kid in all && q < |built| && built[q] == cur.node
            && (forall i :: 0 <= i < |built| ==> built[i] in list || built[i] in all)
            && InsertAt(built, q, [kid]) == Placed(list, p, pre + [cur.node] + [kid])
  {
    hide Placed;
    var a, kid := pre + [cur.node], cur.kids[0].node;
    OnlyChild(cur);
    PrefixRoom(a, [kid], PreorderAll(cur.kids[0].kids));
    assert all == a + [kid] + PreorderAll(cur.kids[0].kids);
    StillDistinct(list, p, a, [kid], all);
    assert [kid][0] == kid;
    SplitDistinct(Placed(list, p, a), kid);
    PlacedTwice(list, p, a, |pre|, [kid]);
    assert InsertAt(a, |pre|, [kid]) == a + [kid];
  }

  // One turn of "while (temp->child_num == 1)"
  method LinkOnlyChild(temp: Entry, ghost t: Tree, ghost ok: set<Entry>, ghost list: seq<Entry>, ghost p: nat, ghost pre: seq<Entry>, ghost cur: Tree)
    returns (next: Entry)
    requires Continues(t, ok, pre, cur) && cur.node == temp && temp in ok && temp.child == Nodes(cur.kids) && |cur.kids| == 1 && temp.child[0] in ok
    requires (list == [] || p < |list|) && Distinct(list + Preorder(t)) && Chain(Placed(list, p, pre + [temp]))
    modifies list`linkPrev, list`linkNext, Preorder(t)`linkPrev, Preorder(t)`linkNext
    ensures next == cur.kids[0].node && Continues(t, ok, pre + [temp], cur.kids[0]) && Chain(Placed(list, p, pre + [temp] + [next]))
  {
    next := temp.child[0];
    OnlyChildFresh(list, p, pre, cur, Preorder(t));
    ContinuesDown(t, ok, pre, cur);
    LinkEntryAfter(temp, next, Placed(list, p, pre + [temp]), PlaceOf(list, p, |pre|));
  }

  lemma ContinuesStart(t: Tree, ok: set<Entry>)
    ensures Continues(t, ok, [], t)
  {
    assert [] + Threaded(t, ok).nodes == Threaded(t, ok).nodes;
    assert [] + Preorder(t) == Preorder(t);
  }

  lemma ShapeFacts(t: Tree, childOf: map<Entry, seq<Entry>>, ok: set<Entry>)
    requires Shaped(t, childOf) && Recorded(childOf)
    ensures t.node.child == Nodes(t.kids) && |Nodes(t.kids)| == |t.kids|
    ensures forall i :: 0 <= i < |t.kids| ==> Nodes(t.kids)[i] == t.kids[i].node && Shaped(t.kids[i], childOf)
    ensures Stops(t, ok) <==> |t.kids| == 1 && t.kids[0].node !in ok
  {
  }

  // "while (temp->child_num == 1)": the run of only children below `entry`, which is already linked
  method LinkSpine(entry: Entry, ok: set<Entry>, ghost t: Tree, ghost childOf: map<Entry, seq<Entry>>, ghost list: seq<Entry>, ghost p: nat)
    returns (temp: Entry, failed: bool, ghost pre: seq<Entry>, ghost cur: Tree)
    requires Shaped(t, childOf) && Recorded(childOf) && t.node == entry && entry in ok
    requires (list == [] || p < |list|) && Distinct(list + Preorder(t)) && Chain(Placed(list, p, [entry]))
    modifies list`linkPrev, list`linkNext, Preorder(t)`linkPrev, Preorder(t)`linkNext
    ensures Continues(t, ok, pre, cur) && cur.node in ok && Shaped(cur, childOf)
    ensures failed == Stops(cur, ok) && (!failed ==> |cur.kids| != 1 && temp == cur.node)
    ensures failed ==> temp == if pre == [] then cur.node else pre[|pre| - 1]
    ensures Chain(Placed(list, p, pre + [cur.node]))
  {
    hide *;
    temp := entry;
    var backup := temp;
    pre, cur, failed := [], t, false;
    ContinuesStart(t, ok);
    ShapeFacts(t, childOf, ok);
    assert [] + [entry] == [entry];
    while |temp.child| == 1
      invariant Continues(t, ok, pre, cur) && cur.node == temp && temp in ok && Shaped(cur, childOf)
      invariant backup == if pre == [] then temp else pre[|pre| - 1]
      invariant Chain(Placed(list, p, pre + [temp])) && !failed && Recorded(childOf)
      invariant temp.child == Nodes(cur.kids) && |temp.child| == |cur.kids| && (|cur.kids| != 1 ==> !Stops(cur, ok))
      decreases cur
    {
      ShapeFacts(cur, childOf, ok);
      if temp.child[0] !in ok {
        temp, failed := backup, true;
        break;
      }
      var next := LinkOnlyChild(temp, t, ok, list, p, pre, cur);
      pre, cur := pre + [temp], cur.kids[0];
      ShapeFacts(cur, childOf, ok);
      backup := temp;
      temp := next;
    }
  }

  lemma SplitDistinct(s: seq<Entry>, x: Entry)
    requires Distinct(s + [x])
    ensures Distinct(s) && x !in s
  {
    forall i | 0 <= i < |s| ensures s[i] != x {
      assert Place(i) && Place(|s|) && (s + [x])[i] == s[i];
    }
  }

  /** What is linked before the `i`-th child of `cur` is looked at. */
  ghost function Built(pre: seq<Entry>, cur: Tree, i: nat, ok: set<Entry>): Segment
    requires i <= |cur.kids|
  {
    var r := ThreadedKids(cur, i, ok);
    Segment(pre + r.nodes, |pre| + r.last)
  }

  /** The child to link is new to the list built so far; all of both belongs to the branch or the list. */
  lemma KidFresh(list: seq<Entry>, p: nat, pre: seq<Entry>, cur: Tree, i: nat, ok: set<Entry>, all: seq<Entry>)
    requires i < |cur.kids| && (list == [] || p < |list|) && Distinct(list + all) && all == pre + Preorder(cur)
    ensures var r := Built(pre, cur, i, ok);
            var built, q := Placed(list, p, r.nodes), PlaceOf(list, p, r.last);
            r.last < |r.nodes| && q < |built| && built[q] == r.nodes[r.last] && Distinct(built + Preorder(cur.kids[i]))
            && (forall k :: 0 <= k < |built| ==> built[k] in list || built[k] in all)
            && (forall k :: 0 <= k < |Preorder(cur.kids[i])| ==> Preorder(cur.kids[i])[k] in all)
  {
    var r := Built(pre, cur, i, ok);
    KidRoom(pre, cur, i, ok);
    StillDistinct(list, p, r.nodes, Preorder(cur.kids[i]), all);
    PlacedTwice(list, p, r.nodes, r.last, []);
  }

  lemma KidRoom(pre: seq<Entry>, cur: Tree, i: nat, ok: set<Entry>)
    requires i < |cur.kids|
    ensures Room(Built(pre, cur, i, ok).nodes, Preorder(cur.kids[i]), pre + Preorder(cur))
  {
    var a, rest, all := Built(pre, cur, i, ok).nodes, Preorder(cur.kids[i]), pre + Preorder(cur);
    forall k | 0 <= k < |a + rest| ensures Times(a, (a + rest)[k]) + Times(rest, (a + rest)[k]) <= Times(all, (a + rest)[k]) {
      var x := (a + rest)[k];
      ThreadedKidsWithin(cur, i, ok, x);
      KidTimesInAll(cur.kids, i, x);
      TimesConcat(pre, ThreadedKids(cur, i, ok).nodes, x);
      TimesConcat(pre, Preorder(cur), x);
      TimesConcat([cur.node], PreorderAll(cur.kids), x);
    }
  }

  /** One more child linked. */
  lemma KidBuilt(pre: seq<Entry>, cur: Tree, i: nat, ok: set<Entry>)
    requires i < |cur.kids| && cur.kids[i].node in ok
    ensures Built(pre, cur, i, ok).last < |Built(pre, cur, i, ok).nodes|
    ensures Built(pre, cur, i + 1, ok).nodes == InsertAt(Built(pre, cur, i, ok).nodes, Built(pre, cur, i, ok).last, Threaded(cur.kids[i], ok).nodes)
    ensures Built(pre, cur, i + 1, ok).last == Built(pre, cur, i, ok).last + 1 + Threaded(cur.kids[i], ok).last
  {
    var r, k := ThreadedKids(cur, i, ok), Threaded(cur.kids[i], ok);
    InsertAfterPrefix(pre, r.nodes, r.last, k.nodes);
  }

  lemma KidLinked(list: seq<Entry>, p: nat, pre: seq<Entry>, cur: Tree, i: nat, ok: set<Entry>, built: seq<Entry>, q: nat)
    requires i < |cur.kids| && (list == [] || p < |list|) && cur.kids[i].node in ok
    requires built == Placed(list, p, Built(pre, cur, i, ok).nodes) && q == PlaceOf(list, p, Built(pre, cur, i, ok).last)
    ensures q < |built| && InsertAt(built, q, Threaded(cur.kids[i], ok).nodes) == Placed(list, p, Built(pre, cur, i + 1, ok).nodes)
    ensures Built(pre, cur, i + 1, ok).last < |Built(pre, cur, i + 1, ok).nodes|
    ensures Built(pre, cur, i + 1, ok).nodes[Built(pre, cur, i + 1, ok).last] == Threaded(cur.kids[i], ok).nodes[Threaded(cur.kids[i], ok).last]
  {
    var a, k := Built(pre, cur, i, ok), Threaded(cur.kids[i], ok);
    KidBuilt(pre, cur, i, ok);
    PlacedTwice(list, p, a.nodes, a.last, k.nodes);
    InsertedPlace(a.nodes, a.last, k.nodes, k.last);
  }

  lemma InsertedPlace(s: seq<Entry>, q: nat, b: seq<Entry>, k: nat)
    requires q < |s| && k < |b|
    ensures q + 1 + k < |InsertAt(s, q, b)| && InsertAt(s, q, b)[q + 1 + k] == b[k]
  {
  }

  lemma InsertAfterPrefix(pre: seq<Entry>, s: seq<Entry>, q: nat, b: seq<Entry>)
    requires q < |s|
    ensures InsertAt(pre + s, |pre| + q, b) == pre + InsertAt(s, q, b)
  {
    assert (pre + s)[..|pre| + q + 1] == pre + s[..q + 1];
    assert (pre + s)[|pre| + q + 1..] == s[q + 1..];
    var x, y, z := pre, s[..q + 1], s[q + 1..];
    assert x + y + b + z == x + (y + b + z);
  }

  // The loop over two or more children, the run of only children being linked
  method LinkKids(temp: Entry, ok: set<Entry>, ghost t: Tree, ghost childOf: map<Entry, seq<Entry>>, ghost list: seq<Entry>, ghost p: nat,
                  ghost pre: seq<Entry>, ghost cur: Tree)
    returns (ret: int, tail: Entry)
    requires Shaped(cur, childOf) && Recorded(childOf) && cur.node == temp && |cur.kids| != 1
    requires (list == [] || p < |list|) && Distinct(list + Preorder(t)) && Preorder(t) == pre + Preorder(cur)
    requires Chain(Placed(list, p, pre + [temp]))
    modifies list`linkPrev, list`linkNext, Preorder(t)`linkPrev, Preorder(t)`linkNext
    ensures ret == CodeKids(cur, |cur.kids|, ok)
    ensures var r := Built(pre, cur, |cur.kids|, ok); tail == r.nodes[r.last] && Chain(Placed(list, p, r.nodes))
    decreases |Preorder(cur)|, 0
  {
    tail, ret := temp, OK;
    for i := 0 to |temp.child|
      invariant Recorded(childOf) && ret == CodeKids(cur, i, ok)
      invariant var r := Built(pre, cur, i, ok); tail == r.nodes[r.last] && Chain(Placed(list, p, r.nodes))
    {
      if temp.child[i] !in ok {
        ret := VERIFY_FAIL;
        continue;
      }
      KidSmaller(cur, i);
      ret, tail := LinkKid(tail, temp.child[i], ok, t, childOf, list, p, pre, cur, i);
    }
  }

  method LinkKid(tail: Entry, kid: Entry, ok: set<Entry>, ghost t: Tree, ghost childOf: map<Entry, seq<Entry>>, ghost list: seq<Entry>, ghost p: nat,
                 ghost pre: seq<Entry>, ghost cur: Tree, ghost i: nat)
    returns (ret: int, newTail: Entry)
    requires i < |cur.kids| && kid == cur.kids[i].node && kid in ok && Shaped(cur.kids[i], childOf) && Recorded(childOf)
    requires (list == [] || p < |list|) && Distinct(list + Preorder(t)) && Preorder(t) == pre + Preorder(cur)
    requires var r := Built(pre, cur, i, ok); tail == r.nodes[r.last] && Chain(Placed(list, p, r.nodes))
    modifies list`linkPrev, list`linkNext, Preorder(t)`linkPrev, Preorder(t)`linkNext
    ensures ret == Code(cur.kids[i], ok)
    ensures var r := Built(pre, cur, i + 1, ok); newTail == r.nodes[r.last] && Chain(Placed(list, p, r.nodes))
    decreases |Preorder(cur.kids[i])|, 2
  {
    ghost var built, q := Placed(list, p, Built(pre, cur, i, ok).nodes), PlaceOf(list, p, Built(pre, cur, i, ok).last);
    KidFresh(list, p, pre, cur, i, ok, Preorder(t));
    KidLinked(list, p, pre, cur, i, ok, built, q);
    var last;
    ret, last := LinkEntryForSaveFile(kid, tail, ok, cur.kids[i], childOf, built, q);
    newTail := last;
  }

  lemma KidSmaller(t: Tree, i: nat)
    requires i < |t.kids|
    ensures |Preorder(t.kids[i])| < |Preorder(t)|
  {
    KidSmallerAll(t.kids, i);
  }

  lemma {:induction false} KidSmallerAll(kids: seq<Tree>, i: nat)
    requires i < |kids|
    ensures |Preorder(kids[i])| <= |PreorderAll(kids)|
  {
    if i < |kids| - 1 {
      KidSmallerAll(kids[..|kids| - 1], i);
    }
  }

  // link_entry_for_save_file. `ok` holds the entries that verify_entry accepts.
  method LinkEntryForSaveFile(entry: Entry, tail: Entry?, ok: set<Entry>, ghost t: Tree, ghost childOf: map<Entry, seq<Entry>>,
                              ghost list: seq<Entry>, ghost p: nat)
    returns (ret: int, newTail: Entry?)
    requires Shaped(t, childOf) && Recorded(childOf) && t.node == entry
    requires if tail == null then list == [] else p < |list| && list[p] == tail && Chain(list)
    requires Distinct(list + Preorder(t))
    modifies list`linkPrev, list`linkNext, Preorder(t)`linkPrev, Preorder(t)`linkNext
    ensures ret == Code(t, ok)
    ensures entry !in ok ==> newTail == tail && Chain(list)
    ensures entry !in ok ==> forall x: Entry :: old(allocated(x)) ==> x.linkPrev == old(x.linkPrev) && x.linkNext == old(x.linkNext)
    ensures entry in ok ==> var s := Threaded(t, ok); newTail == s.nodes[s.last] && Chain(Placed(list, p, s.nodes))
    decreases |Preorder(t)|, 1
  {
    if entry !in ok {
      return VERIFY_FAIL, tail;
    }
    FirstFresh(t, list);
    assert Preorder(t)[0] == entry;
    LinkFirst(entry, tail, list, p);
    var temp, failed;
    ghost var pre, cur;
    temp, failed, pre, cur := LinkSpine(entry, ok, t, childOf, list, p);
    if failed {
      return VERIFY_FAIL, temp;
    }
    ret, newTail := LinkKids(temp, ok, t, childOf, list, p, pre, cur);
  }

  lemma FirstFresh(t: Tree, list: seq<Entry>)
    requires Distinct(list + Preorder(t))
    ensures Distinct(list + [t.node])
  {
  }

  // ---------------------------------------------------------------------
  // What the pass guarantees, and what it does not

  /** Only entries that verify are linked. */
  lemma {:induction false} LinkedAreVerified(t: Tree, ok: set<Entry>)
    requires t.node in ok
    ensures forall i :: 0 <= i < |Threaded(t, ok).nodes| ==> Threaded(t, ok).nodes[i] in ok
    decreases t, 0
  {
    if Stops(t, ok) {
    } else if |t.kids| == 1 {
      LinkedAreVerified(t.kids[0], ok);
    } else {
      LinkedKidsAreVerified(t, |t.kids|, ok);
    }
  }

  lemma {:induction false} LinkedKidsAreVerified(t: Tree, n: nat, ok: set<Entry>)
    requires t.node in ok && n <= |t.kids|
    ensures forall i :: 0 <= i < |ThreadedKids(t, n, ok).nodes| ==> ThreadedKids(t, n, ok).nodes[i] in ok
    decreases t, 0, n
  {
    if n > 0 {
      LinkedKidsAreVerified(t, n - 1, ok);
      if t.kids[n - 1].node in ok {
        LinkedAreVerified(t.kids[n - 1], ok);
      }
    }
  }

  /** The list is the preorder of the branch exactly when every entry verifies. */
  lemma PreorderIffVerified(t: Tree, ok: set<Entry>)
    requires t.node in ok
    ensures Threaded(t, ok).nodes == Preorder(t) <==> forall i :: 0 <= i < |Preorder(t)| ==> Preorder(t)[i] in ok
  {
    LinkedAreVerified(t, ok);
    if forall i :: 0 <= i < |Preorder(t)| ==> Preorder(t)[i] in ok {
      VerifiedIsPreorder(t, ok);
    }
  }

  lemma Leaf(x: Entry, ok: set<Entry>)
    ensures Preorder(Tree(x, [])) == [x] && Threaded(Tree(x, []), ok) == Segment([x], 0)
  {
    assert PreorderAll([]) == [];
  }

  lemma ThreadedStep(t: Tree, n: nat, ok: set<Entry>)
    requires n < |t.kids|
    ensures var r, k := ThreadedKids(t, n, ok), Threaded(t.kids[n], ok);
            ThreadedKids(t, n + 1, ok) == if t.kids[n].node in ok then Segment(InsertAt(r.nodes, r.last, k.nodes), r.last + 1 + k.last) else r
  {
  }

  lemma TwoKids(x: Entry, l: Tree, r: Tree, ok: set<Entry>)
    requires l.node in ok && r.node in ok
    ensures Preorder(Tree(x, [l, r])) == [x] + Preorder(l) + Preorder(r)
    ensures var b, c := Threaded(l, ok), Threaded(r, ok);
            Threaded(Tree(x, [l, r]), ok).nodes == InsertAt([x] + b.nodes, 1 + b.last, c.nodes)
  {
    hide ThreadedKids, InsertAt, PreorderAll;
    var t := Tree(x, [l, r]);
    TwoAfter(x, l, r);
    JustRoot(t, ok);
    ThreadedStep(t, 0, ok);
    ThreadedStep(t, 1, ok);
    InsertAtEnd([x], Threaded(l, ok).nodes);
  }

  lemma TwoAfter(x: Entry, l: Tree, r: Tree)
    ensures Preorder(Tree(x, [l, r])) == [x] + Preorder(l) + Preorder(r)
  {
    var kids := [l, r];
    KidsStep(kids, 0);
    KidsStep(kids, 1);
    assert kids[..2] == kids && kids[..0] == [];
  }

  lemma JustRoot(t: Tree, ok: set<Entry>)
    ensures ThreadedKids(t, 0, ok) == Segment([t.node], 0) && PreorderAll([]) == []
  {
  }

  /** An only child that does not verify, two layers down: the pass goes back one layer and links the next
      entry before the last one, so `c` follows `e`. */
  lemma FailureReorders(a: Entry, b: Entry, c: Entry, d: Entry, e: Entry, ok: set<Entry>)
    requires ok == {a, b, c, e} && d !in ok
    ensures var t := Tree(a, [Tree(b, [Tree(c, [Tree(d, [])])]), Tree(e, [])]);
            Preorder(t) == [a, b, c, d, e] && Threaded(t, ok).nodes == [a, b, e, c]
  {
    var td := Tree(d, []);
    var tc := Tree(c, [td]);
    var tb := Tree(b, [tc]);
    Leaf(d, ok);
    Leaf(e, ok);
    OnlyChild(tc);
    OnlyChild(tb);
    assert Stops(tc, ok) && !Stops(tb, ok);
    assert Threaded(tb, ok) == Segment([b, c], 0);
    TwoKids(a, tb, Tree(e, []), ok);
  }

  /** A child that does not verify, followed by one that does: the failure is not reported. */
  lemma FailureForgotten(a: Entry, b: Entry, c: Entry, ok: set<Entry>)
    requires ok == {a, c} && b !in ok
    ensures var t := Tree(a, [Tree(b, []), Tree(c, [])]);
            Preorder(t) == [a, b, c] && Code(t, ok) == OK && Threaded(t, ok).nodes == [a, c]
  {
    var t := Tree(a, [Tree(b, []), Tree(c, [])]);
    Leaf(b, ok);
    Leaf(c, ok);
    KidsStep(t.kids, 0);
    KidsStep(t.kids, 1);
    assert t.kids[..2] == t.kids && t.kids[..0] == [];
    assert ThreadedKids(t, 0, ok) == Segment([a], 0);
    assert ThreadedKids(t, 1, ok) == Segment([a], 0);
    assert Code(Tree(c, []), ok) == OK;
  }
}
