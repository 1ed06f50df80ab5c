/** Reading back what the linking pass left: in whatever order it put the entries that verify, the loader makes the
    pruned tree of them. */
module PrunedLoad {
  import opened Entries
  import opened Lists
  import opened Threading
  import opened ThreadOrder
  import opened TreeLoad
  import opened TreePairs

  // ---------------------------------------------------------------------
  // The pruned tree

  /** A branch without the entries that fail and what lies under them. */
  ghost function PruneTree(t: Tree, ok: set<Entry>): (r: Tree)
    ensures r.node == t.node
    decreases t, 0
  {
    Tree(t.node, PruneKids(t.kids, ok))
  }

  ghost function PruneKids(kids: seq<Tree>, ok: set<Entry>): seq<Tree>
    decreases kids, 1
  {
    if kids == [] then []
    else PruneKids(kids[..|kids| - 1], ok) + PruneKid(kids[|kids| - 1], ok)
  }

  ghost function PruneKid(t: Tree, ok: set<Entry>): seq<Tree>
    decreases t, 1
  {
    if t.node in ok then [PruneTree(t, ok)] else []
  }

  lemma {:induction false} PreorderConcat(a: seq<Tree>, b: seq<Tree>)
    ensures PreorderAll(a + b) == PreorderAll(a) + PreorderAll(b)
    decreases |b|
  {
    if b == [] {
      assert a + b == a;
    } else {
      assert (a + b)[..|a + b| - 1] == a + b[..|b| - 1];
      PreorderConcat(a, b[..|b| - 1]);
    }
  }

  lemma {:induction false} PrunedIsPreorder(t: Tree, ok: set<Entry>)
    ensures Preorder(PruneTree(t, ok)) == Pruned(t, ok)
    decreases t, 0
  {
    PrunedKidsPreorder(t.kids, ok);
  }

  lemma {:induction false} PrunedKidsPreorder(kids: seq<Tree>, ok: set<Entry>)
    ensures PreorderAll(PruneKids(kids, ok)) == PrunedAll(kids, ok)
    decreases kids, 1
  {
    if kids != [] {
      var init, last := kids[..|kids| - 1], kids[|kids| - 1];
      PrunedKidsPreorder(init, ok);
      PreorderConcat(PruneKids(init, ok), PruneKid(last, ok));
      if last.node in ok {
        PrunedIsPreorder(last, ok);
        OneBranch(PruneTree(last, ok));
      }
    }
  }

  lemma OneBranch(t: Tree)
    ensures PreorderAll([t]) == Preorder(t)
  {
    assert [t][..0] == [];
    assert [] + Preorder(t) == Preorder(t);
  }

  /** The branches hang below `parent`. */
  ghost predicate Under(kids: seq<Tree>, parent: Entry, parentOf: map<Entry, Entry>) {
    forall i :: 0 <= i < |kids| ==> kids[i].node in parentOf && parentOf[kids[i].node] == parent && Upward(kids[i], parentOf)
  }

  lemma UpwardIsUnder(t: Tree, parentOf: map<Entry, Entry>)
    ensures Upward(t, parentOf) <==> Under(t.kids, t.node, parentOf)
  {
  }

  lemma UnderConcat(a: seq<Tree>, b: seq<Tree>, parent: Entry, parentOf: map<Entry, Entry>)
    requires Under(a, parent, parentOf) && Under(b, parent, parentOf)
    ensures Under(a + b, parent, parentOf)
  {
  }

  lemma {:induction false} PrunedUpward(t: Tree, ok: set<Entry>, parentOf: map<Entry, Entry>)
    requires Upward(t, parentOf)
    ensures Upward(PruneTree(t, ok), parentOf)
    decreases t, 0
  {
    hide Under;
    UpwardIsUnder(t, parentOf);
    PrunedKidsUpward(t.kids, t.node, ok, parentOf);
    UpwardIsUnder(PruneTree(t, ok), parentOf);
  }

  lemma {:induction false} PrunedKidsUpward(kids: seq<Tree>, parent: Entry, ok: set<Entry>, parentOf: map<Entry, Entry>)
    requires Under(kids, parent, parentOf)
    ensures Under(PruneKids(kids, ok), parent, parentOf)
    decreases kids, 1
  {
    if kids != [] {
      var init, last := kids[..|kids| - 1], kids[|kids| - 1];
      PrunedKidsUpward(init, parent, ok, parentOf);
      PrunedUpward(last, ok, parentOf);
      UnderConcat(PruneKids(init, ok), PruneKid(last, ok), parent, parentOf);
    }
  }

  /** Nothing is pruned of a tree that verifies. */
  lemma {:induction false} NothingPruned(t: Tree, ok: set<Entry>)
    requires forall x :: x in Preorder(t) ==> x in ok
    ensures PruneTree(t, ok) == t
    decreases t, 0
  {
    NoKidsPruned(t.kids, ok);
  }

  lemma {:induction false} NoKidsPruned(kids: seq<Tree>, ok: set<Entry>)
    requires forall x :: x in PreorderAll(kids) ==> x in ok
    ensures PruneKids(kids, ok) == kids
    decreases kids, 1
  {
    if kids != [] {
      var last := kids[|kids| - 1];
      NoKidsPruned(kids[..|kids| - 1], ok);
      assert last.node == Preorder(last)[0];
      NothingPruned(last, ok);
    }
  }

  // ---------------------------------------------------------------------
  // Who the parents are

  /** The entries of `s` are there and have their parents in `above`. */
  ghost predicate Below(s: seq<Entry>, within: seq<Entry>, above: seq<Entry>, parentOf: map<Entry, Entry>) {
    forall i :: 0 <= i < |s| ==> s[i] in within && s[i] in parentOf && parentOf[s[i]] in above
  }

  lemma BelowMore(s: seq<Entry>, within: seq<Entry>, above: seq<Entry>, parentOf: map<Entry, Entry>, within': seq<Entry>, above': seq<Entry>)
    requires Below(s, within, above, parentOf) && (forall x :: x in within ==> x in within') && (forall x :: x in above ==> x in above')
    ensures Below(s, within', above', parentOf)
  {
  }

  /** What comes after the tail in the list of a branch. */
  ghost function After(s: Segment): seq<Entry>
    requires s.last < |s.nodes|
  {
    s.nodes[s.last + 1..]
  }

  lemma {:induction false} AfterBelow(t: Tree, ok: set<Entry>, parentOf: map<Entry, Entry>)
    requires Upward(t, parentOf)
    ensures Below(After(Threaded(t, ok)), Preorder(t), Preorder(t), parentOf)
    decreases t, 1
  {
    if Stops(t, ok) {
    } else if |t.kids| == 1 {
      AfterOne(t, ok, parentOf);
    } else {
      AfterKidsBelow(t, |t.kids|, ok, parentOf);
      assert t.kids[..|t.kids|] == t.kids;
      BelowMore(After(Threaded(t, ok)), PreorderAll(t.kids), PreorderAll(t.kids), parentOf, Preorder(t), Preorder(t));
    }
  }

  lemma {:induction false} AfterOne(t: Tree, ok: set<Entry>, parentOf: map<Entry, Entry>)
    requires Upward(t, parentOf) && |t.kids| == 1 && !Stops(t, ok)
    ensures Below(After(Threaded(t, ok)), Preorder(t), Preorder(t), parentOf)
    decreases t, 0
  {
    var kid := t.kids[0];
    OnlyChild(t);
    if Stops(kid, ok) {
      assert After(Threaded(t, ok)) == [kid.node];
      assert Preorder(t)[0] == t.node && Preorder(t)[1] == kid.node;
    } else {
      AfterBelow(kid, ok, parentOf);
      assert After(Threaded(t, ok)) == After(Threaded(kid, ok));
      BelowMore(After(Threaded(kid, ok)), Preorder(kid), Preorder(kid), parentOf, Preorder(t), Preorder(t));
    }
  }

  lemma {:induction false} AfterKidsBelow(t: Tree, n: nat, ok: set<Entry>, parentOf: map<Entry, Entry>)
    requires Upward(t, parentOf) && n <= |t.kids|
    ensures Below(After(ThreadedKids(t, n, ok)), PreorderAll(t.kids[..n]), PreorderAll(t.kids[..n]), parentOf)
    decreases t, 0, n
  {
    if n > 0 {
      AfterKidsBelow(t, n - 1, ok, parentOf);
      Threading.KidsStep(t.kids, n - 1);
      var r, k := ThreadedKids(t, n - 1, ok), Threaded(t.kids[n - 1], ok);
      var a, b, all := PreorderAll(t.kids[..n - 1]), Preorder(t.kids[n - 1]), PreorderAll(t.kids[..n]);
      BelowMore(After(r), a, a, parentOf, all, all);
      if t.kids[n - 1].node in ok {
        AfterBelow(t.kids[n - 1], ok, parentOf);
        BelowMore(After(k), b, b, parentOf, all, all);
        AfterInserted(r, k);
      }
    }
  }

  lemma AfterInserted(r: Segment, k: Segment)
    requires r.last < |r.nodes| && k.last < |k.nodes|
    ensures After(Segment(InsertAt(r.nodes, r.last, k.nodes), r.last + 1 + k.last)) == After(k) + After(r)
  {
  }

  /** Below the root of a branch every entry has its parent in the branch. */
  lemma {:induction false} PreorderBelow(t: Tree, parentOf: map<Entry, Entry>)
    requires Upward(t, parentOf)
    ensures Below(PreorderAll(t.kids), PreorderAll(t.kids), Preorder(t), parentOf)
    decreases t, 0
  {
    KidsBelow(t.kids, t.node, parentOf);
    BelowMore(PreorderAll(t.kids), PreorderAll(t.kids), [t.node] + PreorderAll(t.kids), parentOf, PreorderAll(t.kids), Preorder(t));
  }

  lemma {:induction false} KidsBelow(kids: seq<Tree>, parent: Entry, parentOf: map<Entry, Entry>)
    requires forall i :: 0 <= i < |kids| ==> kids[i].node in parentOf && parentOf[kids[i].node] == parent && Upward(kids[i], parentOf)
    ensures Below(PreorderAll(kids), PreorderAll(kids), [parent] + PreorderAll(kids), parentOf)
    decreases kids, 1
  {
    if kids != [] {
      var init, last := kids[..|kids| - 1], kids[|kids| - 1];
      KidsBelow(init, parent, parentOf);
      PreorderBelow(last, parentOf);
      var all := PreorderAll(kids);
      BelowMore(PreorderAll(init), PreorderAll(init), [parent] + PreorderAll(init), parentOf, all, [parent] + all);
      BelowMore(PreorderAll(last.kids), PreorderAll(last.kids), Preorder(last), parentOf, all, [parent] + all);
      assert Preorder(last)[0] == last.node && Preorder(last)[1..] == PreorderAll(last.kids);
      assert all == PreorderAll(init) + ([last.node] + PreorderAll(last.kids));
    }
  }

  /** Every entry that the pass links below a child has its parent in that child's branch, or is the child. */
  lemma LinkedBelow(kid: Tree, parent: Entry, ok: set<Entry>, parentOf: map<Entry, Entry>)
    requires Upward(kid, parentOf) && kid.node in parentOf && parentOf[kid.node] == parent
    ensures Below(Threaded(kid, ok).nodes, Preorder(kid), [parent] + Preorder(kid), parentOf)
  {
    PreorderBelow(kid, parentOf);
    var s, all := Threaded(kid, ok).nodes, Preorder(kid);
    forall i | 0 <= i < |s| ensures s[i] in all && s[i] in parentOf && parentOf[s[i]] in [parent] + all {
      ThreadedWithin(kid, ok, s[i]);
      assert s[i] in multiset(s) && s[i] in multiset(all);
      var k :| 0 <= k < |all| && all[k] == s[i];
      if k > 0 {
        assert all[k] == PreorderAll(kid.kids)[k - 1];
      }
    }
  }

  // ---------------------------------------------------------------------
  // Ids

  ghost predicate OwnIds(s: seq<Entry>, ids: map<Entry, Id>) {
    (forall x :: x in s ==> x in ids) && forall x, y :: x in s && y in s && ids[x] == ids[y] ==> x == y
  }

  ghost predicate Apart(a: seq<Entry>, b: seq<Entry>) {
    forall x :: x in a ==> x !in b
  }

  lemma DistinctApart(a: seq<Entry>, b: seq<Entry>)
    requires Distinct(a + b)
    ensures Apart(a, b)
  {
    forall x | x in a ensures x !in b {
      var i :| 0 <= i < |a| && a[i] == x;
      forall j | 0 <= j < |b| ensures b[j] != x {
        assert Place(i) && Place(|a| + j) && (a + b)[i] == x && (a + b)[|a| + j] == b[j];
      }
    }
  }

  lemma DistinctPart(a: seq<Entry>, s: seq<Entry>, b: seq<Entry>)
    requires Distinct(a + s + b)
    ensures Distinct(s)
  {
    forall i, j | 0 <= i < j < |s| ensures s[i] != s[j] {
      assert Place(|a| + i) && Place(|a| + j) && (a + s + b)[|a| + i] == s[i] && (a + s + b)[|a| + j] == s[j];
    }
  }

  /** Entries of one part with parents there, and of another with parents there or above both, are unrelated. */
  lemma PartsUnrelated(u: seq<Entry>, a: seq<Entry>, v: seq<Entry>, b: seq<Entry>, parent: Entry, parentOf: map<Entry, Entry>, ids: map<Entry, Id>, all: seq<Entry>)
    requires Below(u, a, a, parentOf) && Below(v, b, [parent] + b, parentOf) && OwnIds(all, ids)
    requires Apart(a, b) && parent !in a && parent in all && (forall x :: x in a ==> x in all) && (forall x :: x in b ==> x in all)
    ensures Unrelated(PairsFor(u, parentOf, ids), PairsFor(v, parentOf, ids))
  {
    forall i, j | 0 <= i < |u| && 0 <= j < |v| ensures Independent(PairOf(u[i], parentOf, ids), PairOf(v[j], parentOf, ids)) {
      var x, px, y, py := u[i], parentOf[u[i]], v[j], parentOf[v[j]];
      assert x in a && px in a && y in b && py in [parent] + b;
      assert x != y && x != py && px != y && px != py;
    }
  }

  lemma PartOwns(all: seq<Entry>, s: seq<Entry>, ids: map<Entry, Id>)
    requires OwnIds(all, ids) && forall x :: x in s ==> x in all
    ensures OwnIds(s, ids)
  {
  }

  // ---------------------------------------------------------------------
  // Reading the list

  lemma {:induction false} ListReads(t: Tree, ok: set<Entry>, parentOf: map<Entry, Entry>, ids: map<Entry, Id>, st: Loaded)
    requires Upward(t, parentOf) && Distinct(Preorder(t)) && OwnIds(Preorder(t), ids) && Sane(st)
    requires ReadPairs(st, PairsFor(Pruned(t, ok), parentOf, ids)).Done?
    ensures ReadPairs(st, PairsFor(Threaded(t, ok).nodes, parentOf, ids)) == ReadPairs(st, PairsFor(Pruned(t, ok), parentOf, ids))
    decreases t, 1
  {
    hide ReadPairs, OwnIds, Distinct;
    var nodes, p := Threaded(t, ok).nodes, Pruned(t, ok);
    assert nodes == [t.node] + nodes[1..] && p == [t.node] + p[1..];
    PairsForConcat([t.node], nodes[1..], parentOf, ids);
    PairsForConcat([t.node], p[1..], parentOf, ids);
    var first := PairsFor([t.node], parentOf, ids);
    ReadConcat(st, first, PairsFor(nodes[1..], parentOf, ids));
    ReadConcat(st, first, PairsFor(p[1..], parentOf, ids));
    RestReads(t, ok, parentOf, ids, ReadPairs(st, first).state);
  }

  /** The list without the root reads like the pruned preorder without the root. */
  lemma {:induction false} RestReads(t: Tree, ok: set<Entry>, parentOf: map<Entry, Entry>, ids: map<Entry, Id>, st: Loaded)
    requires Upward(t, parentOf) && Distinct(Preorder(t)) && OwnIds(Preorder(t), ids) && Sane(st)
    requires ReadPairs(st, PairsFor(Pruned(t, ok)[1..], parentOf, ids)).Done?
    ensures ReadPairs(st, PairsFor(Threaded(t, ok).nodes[1..], parentOf, ids)) == ReadPairs(st, PairsFor(Pruned(t, ok)[1..], parentOf, ids))
    decreases t, 0
  {
    hide ReadPairs, OwnIds, Distinct;
    assert Pruned(t, ok)[1..] == PrunedAll(t.kids, ok);
    if |t.kids| == 1 {
      PrunedOne(t, ok);
      OnlyChild(t);
      if t.kids[0].node in ok {
        var kid := t.kids[0];
        assert Threaded(t, ok).nodes[1..] == Threaded(kid, ok).nodes && Pruned(t, ok)[1..] == Pruned(kid, ok);
        assert [t.node] + Preorder(kid) + [] == [t.node] + Preorder(kid);
        DistinctPart([t.node], Preorder(kid), []);
        PartOwns(Preorder(t), Preorder(kid), ids);
        ListReads(kid, ok, parentOf, ids, st);
      } else {
        assert Threaded(t, ok).nodes[1..] == Pruned(t, ok)[1..];
      }
    } else {
      assert t.kids[..|t.kids|] == t.kids;
      KidsRead(t, |t.kids|, ok, parentOf, ids, st);
    }
  }

  lemma {:induction false} KidsRead(t: Tree, n: nat, ok: set<Entry>, parentOf: map<Entry, Entry>, ids: map<Entry, Id>, st: Loaded)
    requires Upward(t, parentOf) && Distinct(Preorder(t)) && OwnIds(Preorder(t), ids) && Sane(st) && n <= |t.kids|
    requires ReadPairs(st, PairsFor(PrunedAll(t.kids[..n], ok), parentOf, ids)).Done?
    ensures ReadPairs(st, PairsFor(ThreadedKids(t, n, ok).nodes[1..], parentOf, ids)) == ReadPairs(st, PairsFor(PrunedAll(t.kids[..n], ok), parentOf, ids))
    decreases t, 0, n
  {
    hide ReadPairs, OwnIds, Distinct, Unrelated;
    if n == 0 {
      assert ThreadedKids(t, 0, ok).nodes[1..] == PrunedAll(t.kids[..0], ok);
    } else {
      PrunedStep(t.kids, n - 1, ok);
      var kid := t.kids[n - 1];
      var p, q := PrunedAll(t.kids[..n - 1], ok), PrunedKid(kid, ok);
      PairsForConcat(p, q, parentOf, ids);
      var ps, qs := PairsFor(p, parentOf, ids), PairsFor(q, parentOf, ids);
      ReadConcat(st, ps, qs);
      KidsRead(t, n - 1, ok, parentOf, ids, st);
      if kid.node in ok {
        KidParts(t, n - 1, ids);
        ListReads(kid, ok, parentOf, ids, ReadPairs(st, ps).state);
        KidUnrelated(t, n - 1, ok, parentOf, ids);
        KidInserted(t, n - 1, ok, parentOf, ids);
        var r := ThreadedKids(t, n - 1, ok);
        ReadInserted(st, ps, qs, PairsFor(r.nodes[1..r.last + 1], parentOf, ids), PairsFor(After(r), parentOf, ids),
                     PairsFor(Threaded(kid, ok).nodes, parentOf, ids));
      } else {
        assert p + [] == p;
      }
    }
  }

  /** The branch of a child: its entries are distinct and have ids of their own. */
  lemma KidParts(t: Tree, i: nat, ids: map<Entry, Id>)
    requires i < |t.kids| && Distinct(Preorder(t)) && OwnIds(Preorder(t), ids)
    ensures Distinct(Preorder(t.kids[i])) && OwnIds(Preorder(t.kids[i]), ids)
  {
    hide Distinct;
    KidSplit(t, i);
    DistinctPart([t.node] + PreorderAll(t.kids[..i]), Preorder(t.kids[i]), PreorderAll(t.kids[i + 1..]));
    KidInPreorder(t, i);
    PartOwns(Preorder(t), Preorder(t.kids[i]), ids);
  }

  lemma KidSplit(t: Tree, i: nat)
    requires i < |t.kids|
    ensures Preorder(t) == [t.node] + PreorderAll(t.kids[..i]) + Preorder(t.kids[i]) + PreorderAll(t.kids[i + 1..])
  {
    Threading.KidsStep(t.kids, i);
    PreorderConcat(t.kids[..i + 1], t.kids[i + 1..]);
    assert t.kids[..i + 1] + t.kids[i + 1..] == t.kids;
  }

  /** What was displaced so far has nothing to do with the next child's branch. */
  lemma KidUnrelated(t: Tree, i: nat, ok: set<Entry>, parentOf: map<Entry, Entry>, ids: map<Entry, Id>)
    requires Upward(t, parentOf) && Distinct(Preorder(t)) && OwnIds(Preorder(t), ids) && i < |t.kids|
    ensures Unrelated(PairsFor(After(ThreadedKids(t, i, ok)), parentOf, ids), PairsFor(Threaded(t.kids[i], ok).nodes, parentOf, ids))
  {
    hide Distinct, OwnIds, Below, Unrelated;
    var a, b, all := PreorderAll(t.kids[..i]), Preorder(t.kids[i]), Preorder(t);
    AfterKidsBelow(t, i, ok, parentOf);
    LinkedBelow(t.kids[i], t.node, ok, parentOf);
    KidSplit(t, i);
    KidApart(t.node, a, b, PreorderAll(t.kids[i + 1..]));
    PartsUnrelated(After(ThreadedKids(t, i, ok)), a, Threaded(t.kids[i], ok).nodes, b, t.node, parentOf, ids, all);
  }

  lemma KidApart(x: Entry, a: seq<Entry>, b: seq<Entry>, c: seq<Entry>)
    requires Distinct([x] + a + b + c)
    ensures Apart(a, b) && x !in a
  {
    hide Distinct;
    assert [x] + a + b + c == [x] + (a + b + c) && [x] + a + b + c == [x] + (a + b) + c;
    DistinctApart([x], a + b + c);
    DistinctPart([x], a + b, c);
    DistinctApart(a, b);
    assert x in [x];
    assert forall y :: y in a ==> y in a + b + c;
  }

  lemma KidInserted(t: Tree, i: nat, ok: set<Entry>, parentOf: map<Entry, Entry>, ids: map<Entry, Id>)
    requires i < |t.kids| && t.kids[i].node in ok
    ensures var r, seg := ThreadedKids(t, i, ok), Threaded(t.kids[i], ok).nodes;
            PairsFor(r.nodes[1..r.last + 1], parentOf, ids) + PairsFor(After(r), parentOf, ids) == PairsFor(r.nodes[1..], parentOf, ids)
            && PairsFor(r.nodes[1..r.last + 1], parentOf, ids) + PairsFor(seg, parentOf, ids) + PairsFor(After(r), parentOf, ids)
               == PairsFor(ThreadedKids(t, i + 1, ok).nodes[1..], parentOf, ids)
  {
    hide PairsFor;
    var r, seg := ThreadedKids(t, i, ok), Threaded(t.kids[i], ok).nodes;
    var head := r.nodes[1..r.last + 1];
    assert head + After(r) == r.nodes[1..];
    assert head + seg + After(r) == ThreadedKids(t, i + 1, ok).nodes[1..];
    PairsForConcat(head, After(r), parentOf, ids);
    PairsForConcat(head, seg, parentOf, ids);
    PairsForConcat(head + seg, After(r), parentOf, ids);
  }
}
