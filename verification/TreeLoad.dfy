/** Rebuilding the entry tree from parent ids, on values: what the loader's links amount to. */
module TreeLoad {
  import opened BufferedFile
  import opened Records

  type Id = seq<Byte>

  /** An entry by its id, with its children in order. */
  datatype Branch = Branch(id: Id, kids: seq<Branch>)

  /** The id that stands for the root of the tree. */
  function RootId(): Id { Zeros(EID_LEN) }

  /** Id and parent id of every entry, in the order the file holds them. */
  function Pairs(t: Branch, parent: Id): seq<(Id, Id)>
    decreases t, 0
  {
    [(t.id, parent)] + PairsAll(t.kids, t.id)
  }

  function PairsAll(kids: seq<Branch>, parent: Id): seq<(Id, Id)>
    decreases kids, 1
  {
    if kids == [] then [] else PairsAll(kids[..|kids| - 1], parent) + Pairs(kids[|kids| - 1], parent)
  }

  function Ids(kids: seq<Branch>): seq<Id> {
    seq(|kids|, i requires 0 <= i < |kids| => kids[i].id)
  }

  /** The tree read so far: the children of every entry in order, and its depth. */
  datatype Loaded = Loaded(kids: map<Id, seq<Id>>, depth: map<Id, nat>)

  predicate Sane(st: Loaded) {
    st.kids.Keys == st.depth.Keys
  }

  function Start(): Loaded {
    Loaded(map[RootId() := []], map[RootId() := 0])
  }

  /** put_into_children_array: the entry becomes its parent's last child, one level deeper. */
  function Attach(st: Loaded, id: Id, parent: Id): Loaded
    requires Sane(st) && parent in st.kids && id !in st.kids
  {
    Loaded(st.kids[parent := st.kids[parent] + [id]][id := []], st.depth[id := st.depth[parent] + 1])
  }

  datatype Run = Done(state: Loaded) | NoParent | Duplicate

  /** Reading a list of id pairs. */
  function ReadPairs(st: Loaded, pairs: seq<(Id, Id)>): (r: Run)
    requires Sane(st)
    ensures r.Done? ==> Sane(r.state)
  {
    if pairs == [] then Done(st)
    else
      var r := ReadPairs(st, pairs[..|pairs| - 1]);
      var (id, parent) := pairs[|pairs| - 1];
      if !r.Done? then r
      else if parent !in r.state.kids then NoParent
      else if id in r.state.kids then Duplicate
      else Done(Attach(r.state, id, parent))
  }

  lemma {:induction false} ReadConcat(st: Loaded, a: seq<(Id, Id)>, b: seq<(Id, Id)>)
    requires Sane(st)
    ensures ReadPairs(st, a + b) == if ReadPairs(st, a).Done? then ReadPairs(ReadPairs(st, a).state, b) else ReadPairs(st, a)
  {
    if b == [] {
      assert a + b == a;
    } else {
      assert (a + b)[..|a + b| - 1] == a + b[..|b| - 1];
      ReadConcat(st, a, b[..|b| - 1]);
    }
  }

  /** The tree below `t`, found in the loaded state: same children in the same order, depths counted from `level`. */
  ghost predicate Same(st: Loaded, t: Branch, level: nat) {
    t.id in st.kids && t.id in st.depth && st.kids[t.id] == Ids(t.kids) && st.depth[t.id] == level
    && forall i :: 0 <= i < |t.kids| ==> Same(st, t.kids[i], level + 1)
  }

  /** Ids that occur once. */
  predicate DistinctIds(pairs: seq<(Id, Id)>) {
    forall i, j :: 0 <= i < j < |pairs| ==> pairs[i].0 != pairs[j].0
  }

  predicate Fresh(st: Loaded, pairs: seq<(Id, Id)>) {
    forall i :: 0 <= i < |pairs| ==> pairs[i].0 !in st.kids
  }

  /** `next` extends `st`: nothing that was there has changed, except that `parent` has more children. */
  ghost predicate Extends(st: Loaded, next: Loaded, parent: Id, added: seq<Id>, pairs: seq<(Id, Id)>) {
    Sane(next) && parent in st.kids && parent in next.kids
    && next.kids[parent] == st.kids[parent] + added
    && (forall x :: x in st.kids ==> x in next.kids && x in st.depth && x in next.depth && next.depth[x] == st.depth[x]
                                     && (x != parent ==> next.kids[x] == st.kids[x]))
    && forall x :: x in next.kids ==> x in st.kids || exists i :: 0 <= i < |pairs| && pairs[i].0 == x
  }

  /** `id` is one of the ids in the pairs. */
  predicate Has(pairs: seq<(Id, Id)>, id: Id) {
    exists i :: 0 <= i < |pairs| && pairs[i].0 == id
  }

  lemma HasConcat(a: seq<(Id, Id)>, b: seq<(Id, Id)>, id: Id)
    ensures Has(a + b, id) <==> Has(a, id) || Has(b, id)
  {
    if Has(a, id) {
      var i :| 0 <= i < |a| && a[i].0 == id;
      assert (a + b)[i].0 == id;
    }
    if Has(b, id) {
      var i :| 0 <= i < |b| && b[i].0 == id;
      assert (a + b)[|a| + i].0 == id;
    }
  }

  lemma DistinctParts(a: seq<(Id, Id)>, b: seq<(Id, Id)>)
    requires DistinctIds(a + b)
    ensures DistinctIds(a) && DistinctIds(b) && forall i :: 0 <= i < |b| ==> !Has(a, b[i].0)
  {
    forall i, j | 0 <= i < j < |a| ensures a[i].0 != a[j].0 {
      assert (a + b)[i] == a[i] && (a + b)[j] == a[j];
    }
    forall i, j | 0 <= i < j < |b| ensures b[i].0 != b[j].0 {
      assert (a + b)[|a| + i] == b[i] && (a + b)[|a| + j] == b[j];
    }
    forall i, j | 0 <= i < |b| && 0 <= j < |a| ensures a[j].0 != b[i].0 {
      assert (a + b)[|a| + i] == b[i] && (a + b)[j] == a[j];
    }
  }

  lemma FreshParts(st: Loaded, a: seq<(Id, Id)>, b: seq<(Id, Id)>)
    requires Fresh(st, a + b)
    ensures Fresh(st, a) && Fresh(st, b)
  {
    forall i | 0 <= i < |a| ensures a[i].0 !in st.kids {
      assert (a + b)[i] == a[i];
    }
    forall i | 0 <= i < |b| ensures b[i].0 !in st.kids {
      assert (a + b)[|a| + i] == b[i];
    }
  }

  lemma {:induction false} KidPairs(kids: seq<Branch>, parent: Id, i: nat, id: Id)
    requires i < |kids| && Has(Pairs(kids[i], parent), id)
    ensures Has(PairsAll(kids, parent), id)
  {
    var init := kids[..|kids| - 1];
    HasConcat(PairsAll(init, parent), Pairs(kids[|kids| - 1], parent), id);
    if i < |kids| - 1 {
      KidPairs(init, parent, i, id);
    }
  }

  /** A subtree already read is not touched by reading more below an entry outside of it. */
  lemma {:induction false} SameKept(st: Loaded, next: Loaded, t: Branch, level: nat, at: Id, added: seq<Id>, pairs: seq<(Id, Id)>, parent: Id)
    requires Extends(st, next, at, added, pairs) && Same(st, t, level) && !Has(Pairs(t, parent), at)
    ensures Same(next, t, level)
  {
    assert Pairs(t, parent)[0].0 == t.id;
    forall i | 0 <= i < |t.kids| ensures Same(next, t.kids[i], level + 1) {
      if Has(Pairs(t.kids[i], t.id), at) {
        KidPairs(t.kids, t.id, i, at);
        HasConcat([(t.id, parent)], PairsAll(t.kids, t.id), at);
      }
      SameKept(st, next, t.kids[i], level + 1, at, added, pairs, t.id);
    }
  }

  /** Reading the preorder of a branch below an entry already read rebuilds the branch there. */
  lemma {:induction false} BranchRead(st: Loaded, t: Branch, parent: Id)
    requires Sane(st) && parent in st.kids && Fresh(st, Pairs(t, parent)) && DistinctIds(Pairs(t, parent))
    ensures var r := ReadPairs(st, Pairs(t, parent));
            r.Done? && Extends(st, r.state, parent, [t.id], Pairs(t, parent)) && Same(r.state, t, st.depth[parent] + 1)
    decreases t, 0
  {
    var more := PairsAll(t.kids, t.id);
    FirstRead(st, t.id, parent, more);
    KidsRead(Attach(st, t.id, parent), t.kids, t.id);
    AttachExtends(st, ReadPairs(st, Pairs(t, parent)).state, t, parent);
  }

  lemma FirstRead(st: Loaded, id: Id, parent: Id, more: seq<(Id, Id)>)
    requires Sane(st) && parent in st.kids && Fresh(st, [(id, parent)] + more) && DistinctIds([(id, parent)] + more)
    ensures id !in st.kids && DistinctIds(more) && Fresh(Attach(st, id, parent), more) && Sane(Attach(st, id, parent))
    ensures ReadPairs(st, [(id, parent)] + more) == ReadPairs(Attach(st, id, parent), more)
  {
    var first := [(id, parent)];
    FreshParts(st, first, more);
    DistinctParts(first, more);
    assert first[0].0 == id && first[..0] == [];
    assert ReadPairs(st, first) == Done(Attach(st, id, parent));
    ReadConcat(st, first, more);
  }

  lemma AttachExtends(st: Loaded, st2: Loaded, t: Branch, parent: Id)
    requires Sane(st) && parent in st.kids && t.id !in st.kids
    requires var st1 := Attach(st, t.id, parent);
             Extends(st1, st2, t.id, Ids(t.kids), PairsAll(t.kids, t.id))
             && forall i :: 0 <= i < |t.kids| ==> Same(st2, t.kids[i], st1.depth[t.id] + 1)
    ensures Extends(st, st2, parent, [t.id], Pairs(t, parent)) && Same(st2, t, st.depth[parent] + 1)
  {
    assert [] + Ids(t.kids) == Ids(t.kids);
    forall x | x in st2.kids && x !in st.kids ensures Has(Pairs(t, parent), x) {
      HasConcat([(t.id, parent)], PairsAll(t.kids, t.id), x);
      assert [(t.id, parent)][0].0 == t.id;
    }
  }

  lemma {:induction false} KidsRead(st: Loaded, kids: seq<Branch>, parent: Id)
    requires Sane(st) && parent in st.kids && Fresh(st, PairsAll(kids, parent)) && DistinctIds(PairsAll(kids, parent))
    ensures var r := ReadPairs(st, PairsAll(kids, parent));
            r.Done? && Extends(st, r.state, parent, Ids(kids), PairsAll(kids, parent))
            && forall i :: 0 <= i < |kids| ==> Same(r.state, kids[i], st.depth[parent] + 1)
    decreases kids, 1
  {
    hide *;
    if kids == [] {
      NoKidsRead(st, parent);
    } else {
      var init, last := kids[..|kids| - 1], kids[|kids| - 1];
      var a, b := PairsAll(init, parent), Pairs(last, parent);
      PairsOfLast(kids, parent);
      FreshParts(st, a, b);
      DistinctParts(a, b);
      KidsRead(st, init, parent);
      var st1 := ReadPairs(st, a).state;
      StillFresh(st, st1, parent, Ids(init), a, b);
      BranchRead(st1, last, parent);
      ReadConcat(st, a, b);
      KidsStep(st, st1, ReadPairs(st1, b).state, kids, parent);
    }
  }

  lemma NoKidsRead(st: Loaded, parent: Id)
    requires Sane(st) && parent in st.kids
    ensures ReadPairs(st, PairsAll([], parent)) == Done(st) && Extends(st, st, parent, Ids([]), PairsAll([], parent))
  {
    assert st.kids[parent] + Ids([]) == st.kids[parent];
  }

  lemma PairsOfLast(kids: seq<Branch>, parent: Id)
    requires kids != []
    ensures PairsAll(kids, parent) == PairsAll(kids[..|kids| - 1], parent) + Pairs(kids[|kids| - 1], parent)
  {
  }

  /** Ids that are new to the state, and not among those just read, are still new. */
  lemma StillFresh(st: Loaded, st1: Loaded, parent: Id, added: seq<Id>, a: seq<(Id, Id)>, b: seq<(Id, Id)>)
    requires Extends(st, st1, parent, added, a) && Fresh(st, b) && forall i :: 0 <= i < |b| ==> !Has(a, b[i].0)
    ensures Sane(st1) && Fresh(st1, b) && parent in st1.kids && parent in st.depth && parent in st1.depth && st1.depth[parent] == st.depth[parent]
  {
  }

  lemma ExtendsTwice(st: Loaded, st1: Loaded, st2: Loaded, parent: Id, a: seq<Id>, b: seq<Id>, p: seq<(Id, Id)>, q: seq<(Id, Id)>)
    requires Extends(st, st1, parent, a, p) && Extends(st1, st2, parent, b, q)
    ensures Extends(st, st2, parent, a + b, p + q)
  {
    assert (st.kids[parent] + a) + b == st.kids[parent] + (a + b);
    forall x | x in st2.kids && x !in st.kids ensures Has(p + q, x) {
      HasConcat(p, q, x);
    }
  }

  lemma KidsStep(st: Loaded, st1: Loaded, st2: Loaded, kids: seq<Branch>, parent: Id)
    requires kids != [] && Fresh(st, PairsAll(kids, parent)) && parent in st.kids && parent in st.depth
    requires var init, last := kids[..|kids| - 1], kids[|kids| - 1];
             Extends(st, st1, parent, Ids(init), PairsAll(init, parent)) && Extends(st1, st2, parent, [last.id], Pairs(last, parent))
             && Same(st2, last, st.depth[parent] + 1) && forall i :: 0 <= i < |init| ==> Same(st1, init[i], st.depth[parent] + 1)
    ensures Extends(st, st2, parent, Ids(kids), PairsAll(kids, parent))
    ensures forall i :: 0 <= i < |kids| ==> Same(st2, kids[i], st.depth[parent] + 1)
  {
    hide Extends, Same;
    var init, last := kids[..|kids| - 1], kids[|kids| - 1];
    assert Ids(kids) == Ids(init) + [last.id];
    ExtendsTwice(st, st1, st2, parent, Ids(init), [last.id], PairsAll(init, parent), Pairs(last, parent));
    forall i | 0 <= i < |init| ensures Same(st2, kids[i], st.depth[parent] + 1) {
      assert init[i] == kids[i];
      KidKept(st1, st2, kids, i, parent, st.depth[parent] + 1, [last.id], Pairs(last, parent));
    }
  }

  lemma KidKept(st1: Loaded, st2: Loaded, kids: seq<Branch>, i: nat, parent: Id, level: nat, added: seq<Id>, pairs: seq<(Id, Id)>)
    requires i < |kids| && !Has(PairsAll(kids, parent), parent)
    requires Extends(st1, st2, parent, added, pairs) && Same(st1, kids[i], level)
    ensures Same(st2, kids[i], level)
  {
    if Has(Pairs(kids[i], parent), parent) {
      KidPairs(kids, parent, i, parent);
    }
    SameKept(st1, st2, kids[i], level, parent, added, pairs, parent);
  }

  /** Every branch of a database, in preorder, read into an empty tree: all parents are found, no id is taken
      for a duplicate, and the same ordered tree stands there with the same depths. */
  lemma TreeRoundTrip(branches: seq<Branch>)
    requires DistinctIds(PairsAll(branches, RootId())) && !Has(PairsAll(branches, RootId()), RootId())
    ensures var r := ReadPairs(Start(), PairsAll(branches, RootId()));
            r.Done? && Same(r.state, Branch(RootId(), branches), 0)
  {
    KidsRead(Start(), branches, RootId());
    assert [] + Ids(branches) == Ids(branches);
  }

  // ---------------------------------------------------------------------
  // The order of entries that have nothing to do with each other

  /** Neither is the other, its parent or its sibling. */
  predicate Independent(u: (Id, Id), v: (Id, Id)) {
    u.0 != v.0 && u.0 != v.1 && u.1 != v.0 && u.1 != v.1
  }

  predicate Unrelated(a: seq<(Id, Id)>, b: seq<(Id, Id)>) {
    forall i, j :: 0 <= i < |a| && 0 <= j < |b| ==> Independent(a[i], b[j])
  }

  lemma ReadOne(st: Loaded, u: (Id, Id))
    requires Sane(st)
    ensures ReadPairs(st, [u]) == if u.1 !in st.kids then NoParent else if u.0 in st.kids then Duplicate else Done(Attach(st, u.0, u.1))
  {
    assert [u][..0] == [];
  }

  lemma AttachBoth(st: Loaded, u: (Id, Id), v: (Id, Id))
    requires Sane(st) && Independent(u, v) && u.1 in st.kids && v.1 in st.kids && u.0 !in st.kids && v.0 !in st.kids
    ensures Attach(Attach(st, u.0, u.1), v.0, v.1) == Attach(Attach(st, v.0, v.1), u.0, u.1)
  {
    UpdateBoth(st.kids, u.1, st.kids[u.1] + [u.0], u.0, v.1, st.kids[v.1] + [v.0], v.0, [], []);
    UpdateBoth(st.depth, u.1, st.depth[u.1], u.0, v.1, st.depth[v.1], v.0, st.depth[u.1] + 1, st.depth[v.1] + 1);
    assert st.depth == st.depth[u.1 := st.depth[u.1]] && st.depth == st.depth[v.1 := st.depth[v.1]];
  }

  lemma UpdateBoth<X>(m: map<Id, X>, a: Id, av: X, b: Id, c: Id, cv: X, d: Id, bv: X, dv: X)
    requires a != c && a != d && b != c && b != d
    ensures m[a := av][b := bv][c := cv][d := dv] == m[c := cv][d := dv][a := av][b := bv]
  {
  }

  lemma SwapTwo(st: Loaded, u: (Id, Id), v: (Id, Id))
    requires Sane(st) && Independent(u, v) && ReadPairs(st, [u] + [v]).Done?
    ensures ReadPairs(st, [v] + [u]) == ReadPairs(st, [u] + [v])
  {
    hide ReadPairs;
    ReadConcat(st, [u], [v]);
    ReadConcat(st, [v], [u]);
    ReadOne(st, u);
    ReadOne(st, v);
    ReadOne(Attach(st, u.0, u.1), v);
    ReadOne(Attach(st, v.0, v.1), u);
    AttachBoth(st, u, v);
  }

  lemma {:induction false} MoveBack(st: Loaded, u: (Id, Id), b: seq<(Id, Id)>)
    requires Sane(st) && Unrelated([u], b) && ReadPairs(st, [u] + b).Done?
    ensures ReadPairs(st, b + [u]) == ReadPairs(st, [u] + b)
    decreases |b|
  {
    hide ReadPairs, Independent;
    if b == [] {
      assert b + [u] == [u] + b;
    } else {
      var first, more := [b[0]], b[1..];
      assert Independent([u][0], b[0]);
      forall i, j | 0 <= i < 1 && 0 <= j < |more| ensures Independent([u][i], more[j]) {
        assert more[j] == b[j + 1];
      }
      assert [u] + b == ([u] + first) + more && b + [u] == first + (more + [u]) && first + ([u] + more) == (first + [u]) + more;
      ReadConcat(st, [u] + first, more);
      SwapTwo(st, u, b[0]);
      ReadConcat(st, first + [u], more);
      ReadConcat(st, first, [u] + more);
      ReadConcat(st, first, more + [u]);
      MoveBack(ReadPairs(st, first).state, u, more);
    }
  }

  /** Two unrelated lists may be read in either order. */
  lemma {:induction false} SwapBlocks(st: Loaded, a: seq<(Id, Id)>, b: seq<(Id, Id)>)
    requires Sane(st) && Unrelated(a, b) && ReadPairs(st, a + b).Done?
    ensures ReadPairs(st, b + a) == ReadPairs(st, a + b)
    decreases |a|
  {
    hide ReadPairs, Independent;
    if a == [] {
      assert a + b == b + a;
    } else {
      var init, last := a[..|a| - 1], [a[|a| - 1]];
      assert Unrelated(init, b);
      forall i, j | 0 <= i < 1 && 0 <= j < |b| ensures Independent(last[i], b[j]) {
        assert Independent(a[|a| - 1], b[j]);
      }
      assert a + b == init + (last + b) && b + a == (b + init) + last && init + (b + last) == (init + b) + last;
      ReadConcat(st, init, last + b);
      MoveBack(ReadPairs(st, init).state, a[|a| - 1], b);
      ReadConcat(st, init, b + last);
      ReadConcat(st, init + b, last);
      SwapBlocks(st, init, b);
      ReadConcat(st, b + init, last);
    }
  }

  lemma Regroup(a: seq<(Id, Id)>, b: seq<(Id, Id)>, c: seq<(Id, Id)>)
    ensures (a + b) + c == a + (b + c)
  {
  }

  /** Where the loader agrees on two lists, it agrees when the second is put in before the end of the first, if that
      end is unrelated to it. */
  lemma ReadInserted(st: Loaded, p: seq<(Id, Id)>, q: seq<(Id, Id)>, head: seq<(Id, Id)>, tail: seq<(Id, Id)>, seg: seq<(Id, Id)>)
    requires Sane(st) && ReadPairs(st, p + q).Done? && Unrelated(tail, seg)
    requires ReadPairs(st, p).Done? ==> ReadPairs(st, head + tail) == ReadPairs(st, p)
    requires ReadPairs(st, p).Done? ==> ReadPairs(ReadPairs(st, p).state, seg) == ReadPairs(ReadPairs(st, p).state, q)
    ensures ReadPairs(st, head + seg + tail) == ReadPairs(st, p + q)
  {
    hide ReadPairs, Unrelated, Sane;
    ReadConcat(st, p, q);
    ReadConcat(st, head + tail, seg);
    Regroup(head, tail, seg);
    Regroup(head, seg, tail);
    ReadConcat(st, head, tail + seg);
    SwapBlocks(ReadPairs(st, head).state, tail, seg);
    ReadConcat(st, head, seg + tail);
  }
}
