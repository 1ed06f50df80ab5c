/** What the linking pass of save_file says and leaves when entries fail to verify: the code it returns, the entries
    it keeps, and their order. */
module ThreadOrder {
  import opened Codes
  import opened Entries
  import opened Lists
  import opened Threading

  // ---------------------------------------------------------------------
  // The code

  /** The entries from the root of a branch down to its last one, by last children. */
  ghost function LastPath(t: Tree): seq<Entry> {
    [t.node] + if t.kids == [] then [] else LastPath(t.kids[|t.kids| - 1])
  }

  ghost predicate AllIn(s: seq<Entry>, ok: set<Entry>) {
    forall i :: 0 <= i < |s| ==> s[i] in ok
  }

  /** The code says OK exactly when every entry on the path of last children verifies. */
  lemma {:induction false} CodeIff(t: Tree, ok: set<Entry>)
    ensures Code(t, ok) == OK <==> AllIn(LastPath(t), ok)
  {
    assert LastPath(t)[0] == t.node;
    if t.kids != [] {
      var last := t.kids[|t.kids| - 1];
      CodeIff(last, ok);
      assert LastPath(t)[1..] == LastPath(last) && LastPath(last)[0] == last.node;
      AllInRest(LastPath(t), ok);
    }
  }

  lemma AllInRest(s: seq<Entry>, ok: set<Entry>)
    requires s != []
    ensures AllIn(s, ok) <==> s[0] in ok && AllIn(s[1..], ok)
  {
    if s[0] in ok && AllIn(s[1..], ok) {
      forall i | 0 <= i < |s| ensures s[i] in ok {
        assert i > 0 ==> s[i] == s[1..][i - 1];
      }
    }
  }

  /** The code tells rightly whether the whole branch was linked exactly when every entry verifies or one on the
      path of last children does not. */
  lemma CodeTruthfulIff(t: Tree, ok: set<Entry>)
    requires t.node in ok
    ensures (Code(t, ok) == OK <==> Threaded(t, ok).nodes == Preorder(t)) <==> AllIn(Preorder(t), ok) || !AllIn(LastPath(t), ok)
  {
    CodeIff(t, ok);
    PreorderIffVerified(t, ok);
    if AllIn(Preorder(t), ok) {
      VerifiedIsPreorder(t, ok);
    }
  }

  // ---------------------------------------------------------------------
  // What is kept

  /** The preorder of a branch without the entries that fail and what lies under them. */
  ghost function Pruned(t: Tree, ok: set<Entry>): (r: seq<Entry>)
    ensures r != [] && r[0] == t.node
    decreases t, 0
  {
    [t.node] + PrunedAll(t.kids, ok)
  }

  ghost function PrunedAll(kids: seq<Tree>, ok: set<Entry>): seq<Entry>
    decreases kids, 1
  {
    if kids == [] then []
    else PrunedAll(kids[..|kids| - 1], ok) + PrunedKid(kids[|kids| - 1], ok)
  }

  ghost function PrunedKid(t: Tree, ok: set<Entry>): seq<Entry>
    decreases t, 1
  {
    if t.node in ok then Pruned(t, ok) else []
  }

  lemma PrunedStep(kids: seq<Tree>, n: nat, ok: set<Entry>)
    requires n < |kids|
    ensures PrunedAll(kids[..n + 1], ok) == PrunedAll(kids[..n], ok) + PrunedKid(kids[n], ok)
    ensures PrunedKid(kids[n], ok) == if kids[n].node in ok then Pruned(kids[n], ok) else []
  {
    assert kids[..n + 1][..n] == kids[..n];
  }

  lemma PrunedOne(t: Tree, ok: set<Entry>)
    requires |t.kids| == 1
    ensures Pruned(t, ok) == [t.node] + PrunedKid(t.kids[0], ok)
  {
    assert PrunedAll(t.kids[..0], ok) == [];
  }

  /** The pass keeps exactly the entries of the pruned preorder. */
  lemma {:induction false} KeptIsPruned(t: Tree, ok: set<Entry>)
    ensures multiset(Threaded(t, ok).nodes) == multiset(Pruned(t, ok))
    decreases t, 0
  {
    if |t.kids| == 1 {
      PrunedOne(t, ok);
      if t.kids[0].node in ok {
        KeptIsPruned(t.kids[0], ok);
      }
    } else {
      KeptKids(t, |t.kids|, ok);
      assert t.kids[..|t.kids|] == t.kids;
    }
  }

  lemma {:induction false} KeptKids(t: Tree, n: nat, ok: set<Entry>)
    requires n <= |t.kids|
    ensures multiset(ThreadedKids(t, n, ok).nodes) == multiset([t.node] + PrunedAll(t.kids[..n], ok))
    decreases t, 0, n
  {
    hide *;
    if n == 0 {
      NoKidsYet(t, ok);
    } else {
      KeptKids(t, n - 1, ok);
      PrunedStep(t.kids, n - 1, ok);
      ThreadedStep(t, n - 1, ok);
      var r, k := ThreadedKids(t, n - 1, ok), Threaded(t.kids[n - 1], ok);
      if t.kids[n - 1].node in ok {
        KeptIsPruned(t.kids[n - 1], ok);
        KeptMore(r.nodes, r.last, [t.node], PrunedAll(t.kids[..n - 1], ok), k.nodes, Pruned(t.kids[n - 1], ok));
      } else {
        assert PrunedAll(t.kids[..n - 1], ok) + [] == PrunedAll(t.kids[..n - 1], ok);
      }
    }
  }

  lemma NoKidsYet(t: Tree, ok: set<Entry>)
    ensures ThreadedKids(t, 0, ok) == Segment([t.node], 0) && [t.node] + PrunedAll(t.kids[..0], ok) == [t.node]
  {
  }

  lemma KeptMore(nodes: seq<Entry>, at: nat, x: seq<Entry>, p: seq<Entry>, seg: seq<Entry>, q: seq<Entry>)
    requires at < |nodes| && multiset(nodes) == multiset(x + p) && multiset(seg) == multiset(q)
    ensures multiset(InsertAt(nodes, at, seg)) == multiset(x + (p + q))
  {
    assert nodes == nodes[..at + 1] + nodes[at + 1..];
    assert x + (p + q) == x + p + q;
  }

  // ---------------------------------------------------------------------
  // Its order

  /** The verified only children of verified entries below which the pass stops. */
  ghost function Traps(t: Tree, ok: set<Entry>): set<Entry>
    decreases t, 0
  {
    (if |t.kids| == 1 && t.kids[0].node in ok && Stops(t.kids[0], ok) then {t.kids[0].node} else {}) + TrapsAll(t.kids, ok)
  }

  ghost function TrapsAll(kids: seq<Tree>, ok: set<Entry>): set<Entry>
    decreases kids, 1
  {
    if kids == [] then {}
    else TrapsAll(kids[..|kids| - 1], ok) + TrapsKid(kids[|kids| - 1], ok)
  }

  ghost function TrapsKid(t: Tree, ok: set<Entry>): set<Entry>
    decreases t, 1
  {
    if t.node in ok then Traps(t, ok) else {}
  }

  ghost predicate Before(s: seq<Entry>, x: Entry, y: Entry) {
    exists i, j :: 0 <= i < j < |s| && s[i] == x && s[j] == y
  }

  /** In order; the tail is the last entry, or the one before a trap. */
  ghost predicate Fine(s: Segment, p: seq<Entry>, traps: set<Entry>) {
    p != [] && s.nodes == p
    && if traps == {} then s.last == |p| - 1 else 2 <= |p| && traps == {p[|p| - 1]} && s.last == |p| - 2
  }

  /** Something that comes after a trap has been put before it. */
  ghost predicate Crossed(nodes: seq<Entry>, p: seq<Entry>, traps: set<Entry>) {
    exists x, y :: x in traps && y in p && Before(p, x, y) && Before(nodes, y, x)
  }

  ghost predicate FineOrCrossed(s: Segment, p: seq<Entry>, traps: set<Entry>) {
    Fine(s, p, traps) || Crossed(s.nodes, p, traps)
  }

  lemma BeforeWithin(a: seq<Entry>, s: seq<Entry>, b: seq<Entry>, x: Entry, y: Entry)
    requires Before(s, x, y)
    ensures Before(a + s + b, x, y)
  {
    var i, j :| 0 <= i < j < |s| && s[i] == x && s[j] == y;
    assert (a + s + b)[|a| + i] == x && (a + s + b)[|a| + j] == y;
  }

  lemma BeforeInserted(s: seq<Entry>, p: nat, seg: seq<Entry>, x: Entry, y: Entry)
    requires p < |s| && Before(s, x, y)
    ensures Before(InsertAt(s, p, seg), x, y)
  {
    var i, j :| 0 <= i < j < |s| && s[i] == x && s[j] == y;
    var r := InsertAt(s, p, seg);
    assert r[if i <= p then i else i + |seg|] == x && r[if j <= p then j else j + |seg|] == y;
  }

  lemma InsertedWithin(s: seq<Entry>, p: nat, seg: seq<Entry>, x: Entry, y: Entry)
    requires p < |s| && Before(seg, x, y)
    ensures Before(InsertAt(s, p, seg), x, y)
  {
    BeforeWithin(s[..p + 1], seg, s[p + 1..], x, y);
  }

  lemma CrossedMore(nodes: seq<Entry>, p: seq<Entry>, traps: set<Entry>, at: nat, seg: seq<Entry>, q: seq<Entry>, more: set<Entry>)
    requires Crossed(nodes, p, traps) && at < |nodes|
    ensures Crossed(InsertAt(nodes, at, seg), p + q, traps + more)
  {
    var x, y :| x in traps && y in p && Before(p, x, y) && Before(nodes, y, x);
    BeforeWithin([], p, q, x, y);
    assert [] + p + q == p + q;
    BeforeInserted(nodes, at, seg, y, x);
  }

  lemma CrossedInside(nodes: seq<Entry>, p: seq<Entry>, traps: set<Entry>, at: nat, seg: seq<Entry>, q: seq<Entry>, more: set<Entry>)
    requires Crossed(seg, q, more) && at < |nodes|
    ensures Crossed(InsertAt(nodes, at, seg), p + q, traps + more)
  {
    var x, y :| x in more && y in q && Before(q, x, y) && Before(seg, y, x);
    BeforeWithin(p, q, [], x, y);
    assert p + q + [] == p + q;
    InsertedWithin(nodes, at, seg, y, x);
  }

  /** What follows a trap goes before it. */
  lemma NewlyCrossed(r: Segment, p: seq<Entry>, traps: set<Entry>, seg: seq<Entry>, q: seq<Entry>, more: set<Entry>)
    requires Fine(r, p, traps) && traps != {} && q != [] && seg != [] && q[0] == seg[0]
    ensures r.last < |r.nodes| && Crossed(InsertAt(r.nodes, r.last, seg), p + q, traps + more)
  {
    var x, y, s := p[|p| - 1], q[0], InsertAt(r.nodes, r.last, seg);
    assert (p + q)[|p| - 1] == x && (p + q)[|p|] == y;
    assert s[|p| - 1] == y && s[|p| - 1 + |seg|] == x;
    assert Before(p + q, x, y) && Before(s, y, x);
  }

  /** One more branch. */
  lemma AddBranch(r: Segment, p: seq<Entry>, traps: set<Entry>, k: Segment, q: seq<Entry>, more: set<Entry>)
    requires r.last < |r.nodes| && k.last < |k.nodes| && q != [] && q[0] == k.nodes[0]
    requires FineOrCrossed(r, p, traps) && FineOrCrossed(k, q, more)
    ensures FineOrCrossed(Segment(InsertAt(r.nodes, r.last, k.nodes), r.last + 1 + k.last), p + q, traps + more)
  {
    if Crossed(r.nodes, p, traps) {
      CrossedMore(r.nodes, p, traps, r.last, k.nodes, q, more);
    } else if Crossed(k.nodes, q, more) {
      CrossedInside(r.nodes, p, traps, r.last, k.nodes, q, more);
    } else if traps == {} {
      InsertAtEnd(p, q);
      assert traps + more == more;
    } else {
      NewlyCrossed(r, p, traps, k.nodes, q, more);
    }
  }

  lemma TrapsStep(kids: seq<Tree>, n: nat, ok: set<Entry>)
    requires n < |kids|
    ensures TrapsAll(kids[..n + 1], ok) == TrapsAll(kids[..n], ok) + TrapsKid(kids[n], ok)
  {
    assert kids[..n + 1][..n] == kids[..n];
  }

  lemma {:induction false} OrderKept(t: Tree, ok: set<Entry>)
    requires t.node in ok
    ensures FineOrCrossed(Threaded(t, ok), Pruned(t, ok), Traps(t, ok))
    decreases t, 1
  {
    if |t.kids| == 1 {
      OrderOfOne(t, ok);
    } else {
      OrderOfKids(t, |t.kids|, ok);
      assert t.kids[..|t.kids|] == t.kids && Traps(t, ok) == TrapsAll(t.kids, ok);
    }
  }

  lemma {:induction false} OrderOfOne(t: Tree, ok: set<Entry>)
    requires t.node in ok && |t.kids| == 1
    ensures FineOrCrossed(Threaded(t, ok), Pruned(t, ok), Traps(t, ok))
    decreases t, 0
  {
    var kid := t.kids[0];
    PrunedOne(t, ok);
    TrapsStep(t.kids, 0, ok);
    assert t.kids[..1] == t.kids && t.kids[..0] == [];
    if kid.node in ok {
      OrderKept(kid, ok);
      if Stops(kid, ok) {
        StoppedKid(kid, ok);
      } else {
        FirstInFront(t.node, Threaded(kid, ok), Pruned(kid, ok), Traps(kid, ok));
      }
    }
  }

  lemma StoppedKid(t: Tree, ok: set<Entry>)
    requires Stops(t, ok)
    ensures Threaded(t, ok).nodes == Pruned(t, ok) == [t.node] && Traps(t, ok) == {}
  {
    PrunedOne(t, ok);
    TrapsStep(t.kids, 0, ok);
    assert t.kids[..1] == t.kids && t.kids[..0] == [];
  }

  lemma FirstInFront(x: Entry, s: Segment, p: seq<Entry>, traps: set<Entry>)
    requires FineOrCrossed(s, p, traps)
    ensures FineOrCrossed(Segment([x] + s.nodes, s.last + 1), [x] + p, traps)
  {
    if Crossed(s.nodes, p, traps) {
      var a, b :| a in traps && b in p && Before(p, a, b) && Before(s.nodes, b, a);
      BeforeWithin([x], p, [], a, b);
      BeforeWithin([x], s.nodes, [], b, a);
      assert [x] + p + [] == [x] + p && [x] + s.nodes + [] == [x] + s.nodes;
    }
  }

  lemma {:induction false} OrderOfKids(t: Tree, n: nat, ok: set<Entry>)
    requires t.node in ok && n <= |t.kids|
    ensures FineOrCrossed(ThreadedKids(t, n, ok), [t.node] + PrunedAll(t.kids[..n], ok), TrapsAll(t.kids[..n], ok))
    decreases t, 0, n
  {
    hide FineOrCrossed;
    if n == 0 {
      JustTheRoot(t.node);
    } else {
      OrderOfKids(t, n - 1, ok);
      PrunedStep(t.kids, n - 1, ok);
      TrapsStep(t.kids, n - 1, ok);
      var kid := t.kids[n - 1];
      var p, q := [t.node] + PrunedAll(t.kids[..n - 1], ok), PrunedKid(kid, ok);
      assert [t.node] + (PrunedAll(t.kids[..n - 1], ok) + q) == p + q;
      if kid.node in ok {
        OrderKept(kid, ok);
        AddBranch(ThreadedKids(t, n - 1, ok), p, TrapsAll(t.kids[..n - 1], ok), Threaded(kid, ok), q, Traps(kid, ok));
      } else {
        assert p + [] == p && TrapsAll(t.kids[..n - 1], ok) + {} == TrapsAll(t.kids[..n - 1], ok);
      }
    }
  }

  lemma JustTheRoot(x: Entry)
    ensures FineOrCrossed(Segment([x], 0), [x] + [], {})
  {
  }

  lemma {:induction false} PrunedWithin(t: Tree, ok: set<Entry>, x: Entry)
    ensures Times(Pruned(t, ok), x) <= Times(Preorder(t), x)
  {
    KeptIsPruned(t, ok);
    ThreadedWithin(t, ok, x);
  }

  lemma PrunedDistinct(t: Tree, ok: set<Entry>)
    requires Distinct(Preorder(t))
    ensures Distinct(Pruned(t, ok))
  {
    var p := Pruned(t, ok);
    forall i, j | 0 <= i < j < |p| ensures p[i] != p[j] {
      PrunedWithin(t, ok, p[i]);
      AppearsOnce(Preorder(t), p[i]);
      if p[i] == p[j] {
        TwiceIsMany(p, i, j);
      }
    }
  }

  /** In a list without repetition two entries come one before the other, and the last comes before none. */
  lemma OneBefore(s: seq<Entry>, x: Entry, y: Entry)
    requires Distinct(s) && Before(s, x, y)
    ensures !Before(s, y, x) && x != s[|s| - 1]
  {
    var i, j :| 0 <= i < j < |s| && s[i] == x && s[j] == y;
    assert Place(i) && Place(j) && Place(|s| - 1);
    forall k, l | 0 <= k < l < |s| ensures !(s[k] == y && s[l] == x) {
      assert Place(k) && Place(l);
    }
  }

  /** No trap is followed by another entry. */
  ghost predicate AtTheEnd(traps: set<Entry>, p: seq<Entry>)
    requires p != []
  {
    forall x :: x in traps ==> x == p[|p| - 1]
  }

  lemma InOrderIff(s: Segment, p: seq<Entry>, traps: set<Entry>)
    requires FineOrCrossed(s, p, traps) && Distinct(p) && p != []
    ensures s.nodes == p <==> AtTheEnd(traps, p)
  {
    if Crossed(s.nodes, p, traps) {
      var x, y :| x in traps && y in p && Before(p, x, y) && Before(s.nodes, y, x);
      OneBefore(p, x, y);
      assert s.nodes != p;
      assert x in traps && x != p[|p| - 1];
    }
  }

  /** The list is the pruned preorder exactly when no trap is followed in it by another entry. */
  lemma PrunedIff(t: Tree, ok: set<Entry>)
    requires t.node in ok && Distinct(Preorder(t))
    ensures Threaded(t, ok).nodes == Pruned(t, ok) <==> AtTheEnd(Traps(t, ok), Pruned(t, ok))
  {
    OrderKept(t, ok);
    PrunedDistinct(t, ok);
    InOrderIff(Threaded(t, ok), Pruned(t, ok), Traps(t, ok));
  }
}
