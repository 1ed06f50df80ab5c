/** A database saved and loaded again: the same entries in the same tree. */
module RoundTrip {
  import opened Lists
  import opened Codes
  import opened BufferedFile
  import opened Numbers
  import opened Records
  import opened Entries
  import opened Threading
  import opened TreeLoad
  import opened TreePairs
  import opened ThreadOrder
  import opened PrunedLoad
  import S = SaveFile
  import opened LoadFile
  import opened LoadTree
  import opened LoadDatabase

  function PairsOf(es: seq<Record>): seq<(Id, Id)> {
    seq(|es|, i requires 0 <= i < |es| => (es[i].id, es[i].parentId))
  }

  function ReloadedAll(es: seq<Record>): (r: seq<Record>)
    ensures |r| == |es|
  {
    seq(|es|, i requires 0 <= i < |es| => ReloadedRecord(es[i]))
  }

  lemma EntryBack(e: Record, rest: seq<Byte>, known: set<Id>, verify: Record -> bool)
    requires LoadableRecord(e) && e.parentId in known && e.id !in known && verify(ReloadedRecord(e))
    ensures ParseEntry(EncodeRecord(e, rest), known, verify) == Got(ReloadedRecord(e), rest)
  {
    IdsBack(e, EncodeBody(e, rest));
    BodyBack(e, rest);
  }

  /** What the loader makes of a record that was saved, in the order of its tests. */
  lemma EntryOutcome(e: Record, rest: seq<Byte>, known: set<Id>, verify: Record -> bool)
    requires LoadableRecord(e)
    ensures ParseEntry(EncodeRecord(e, rest), known, verify)
         == if e.parentId !in known then Fail(FIND_FAIL)
            else if !verify(ReloadedRecord(e)) then Fail(FILE_BROKEN)
            else if e.id in known then Fail(DUPLICATE_ERROR)
            else Got(ReloadedRecord(e), rest)
  {
    IdsBack(e, EncodeBody(e, rest));
    BodyBack(e, rest);
  }

  lemma FirstPair(st: Loaded, es: seq<Record>)
    requires Sane(st) && es != [] && ReadPairs(st, PairsOf(es)).Done?
    ensures es[0].parentId in st.kids && es[0].id !in st.kids
    ensures ReadPairs(st, PairsOf(es)) == ReadPairs(Attach(st, es[0].id, es[0].parentId), PairsOf(es[1..]))
  {
    var first := [(es[0].id, es[0].parentId)];
    assert PairsOf(es) == first + PairsOf(es[1..]);
    assert first[..0] == [];
    ReadConcat(st, first, PairsOf(es[1..]));
  }

  lemma ReloadedStep(es: seq<Record>)
    requires es != []
    ensures ReloadedAll(es) == [ReloadedRecord(es[0])] + ReloadedAll(es[1..])
  {
  }

  predicate LoadableAll(es: seq<Record>, verify: Record -> bool) {
    forall i :: 0 <= i < |es| ==> LoadableRecord(es[i]) && verify(ReloadedRecord(es[i]))
  }

  lemma {:induction false} EntriesBack(es: seq<Record>, rest: seq<Byte>, st: Loaded, verify: Record -> bool)
    requires Sane(st) && LoadableAll(es, verify) && ReadPairs(st, PairsOf(es)).Done?
    ensures ParseEntries(S.EncodeAll(es, rest), |es|, st, verify) == Got((ReloadedAll(es), ReadPairs(st, PairsOf(es)).state), rest)
  {
    hide EncodeRecord, ParseEntry;
    if es != [] {
      FirstPair(st, es);
      ReloadedStep(es);
      EntryBack(es[0], S.EncodeAll(es[1..], rest), st.kids.Keys, verify);
      EntriesBack(es[1..], rest, Attach(st, es[0].id, es[0].parentId), verify);
    }
  }

  lemma HeaderBack(branches: nat, n: nat, rest: seq<Byte>)
    requires branches < Pow256(8) && n < Pow256(8)
    ensures ParseHeader(S.EncodeHeader(branches) + (BigEndian(n, 8) + rest)) == Got((branches, n), rest)
  {
    var s2 := BigEndian(n, 8) + rest;
    var s1 := BigEndian(branches, 8) + s2;
    assert S.EncodeHeader(branches) + s2 == S.Marker() + (S.Version() + s1);
    StrBack(S.Marker(), S.Version() + s1);
    StrBack(S.Version(), s1);
    NumBack(branches, 8, s2);
    NumBack(n, 8, rest);
  }

  /** Decoding a saved file gives the records, and the tree that their parent ids describe. */
  lemma FileBack(branches: nat, es: seq<Record>, verify: Record -> bool)
    requires branches < Pow256(8) && |es| < Pow256(8)
    requires LoadableAll(es, verify) && ReadPairs(Start(), PairsOf(es)).Done?
    ensures ParseFile(S.EncodeFile(branches, es), verify) == Got((ReloadedAll(es), ReadPairs(Start(), PairsOf(es)).state), [])
  {
    HeaderBack(branches, |es|, S.EncodeAll(es, S.Marker()));
    EntriesBack(es, S.Marker(), Start(), verify);
    StrBack(S.Marker(), []);
    assert S.Marker() + [] == S.Marker();
  }

  // ---------------------------------------------------------------------
  // The round trip

  /** The entries of the tree `t` in memory: child arrays, parents and ids agree with the shape. */
  ghost predicate InMemory(t: Tree, childOf: map<Entry, seq<Entry>>, parentOf: map<Entry, Entry>, ids: map<Entry, Id>)
    reads childOf.Keys`child, parentOf.Keys`parent, ids.Keys`body
  {
    Shaped(t, childOf) && Recorded(childOf) && Distinct(Preorder(t)) && Upward(t, parentOf)
    && (forall x :: x in parentOf ==> x.parent == parentOf[x]) && (forall x :: x in ids ==> x.body.id == ids[x])
    && (forall x :: x in PreorderAll(t.kids) ==> x in parentOf && x in ids && parentOf[x] in ids)
    && t.node in ids && ids[t.node] == RootId()
  }

  /** Non-zero ids that occur once. */
  ghost predicate UniqueIds(t: Tree, ids: map<Entry, Id>) {
    DistinctIds(PairsAll(BranchesOf(t.kids, ids), RootId())) && !Has(PairsAll(BranchesOf(t.kids, ids), RootId()), RootId())
  }

  /** What is written of the entries. */
  ghost function RecordsOf(list: seq<Entry>): (es: seq<Record>)
    reads list, set x | x in list :: x.parent
    ensures |es| == |list|
  {
    seq(|list|, i requires 0 <= i < |list| reads list, set x | x in list :: x.parent => S.RecordOf(list[i]))
  }

  /** What the linking pass puts after the root. */
  ghost function Linked(t: Tree, ok: set<Entry>): seq<Entry> {
    Threading.Threaded(t, ok).nodes[1..]
  }

  /** It holds entries below the root that verify. */
  lemma LinkedBelowRoot(t: Tree, ok: set<Entry>)
    requires t.node in ok
    ensures forall x :: x in Linked(t, ok) ==> x in PreorderAll(t.kids) && x in ok
  {
    var nodes, list := Threading.Threaded(t, ok).nodes, Linked(t, ok);
    LinkedAreVerified(t, ok);
    assert nodes == [t.node] + list;
    forall x | x in list ensures x in PreorderAll(t.kids) && x in ok {
      ThreadedWithin(t, ok, x);
      TimesConcat([t.node], list, x);
      TimesConcat([t.node], PreorderAll(t.kids), x);
      var i :| 0 <= i < |list| && list[i] == x;
      assert nodes[i + 1] == x && x in multiset(list);
    }
  }

  /** The ids of the entries are their own. */
  lemma UniqueOwn(t: Tree, childOf: map<Entry, seq<Entry>>, parentOf: map<Entry, Entry>, ids: map<Entry, Id>)
    requires InMemory(t, childOf, parentOf, ids) && UniqueIds(t, ids)
    ensures OwnIds(Preorder(t), ids)
  {
    hide DistinctIds, Has, OwnIds;
    var list := PreorderAll(t.kids);
    PreorderAllPairs(t.kids, t.node, parentOf, ids);
    assert forall k :: 0 <= k < |list| ==> PairsFor(list, parentOf, ids)[k].0 == ids[list[k]];
    OwnFromPairs(t.node, list, PairsFor(list, parentOf, ids), ids);
  }

  lemma OwnFromPairs(root: Entry, list: seq<Entry>, pairs: seq<(Id, Id)>, ids: map<Entry, Id>)
    requires root in ids && ids[root] == RootId() && |pairs| == |list|
    requires forall k :: 0 <= k < |list| ==> list[k] in ids && pairs[k].0 == ids[list[k]]
    requires DistinctIds(pairs) && !Has(pairs, RootId())
    ensures OwnIds([root] + list, ids)
  {
    forall k | 0 <= k < |list| ensures ids[list[k]] != RootId() {
      assert pairs[k].0 == ids[list[k]];
    }
    forall x, y | x in [root] + list && y in [root] + list && ids[x] == ids[y] ensures x == y {
      if x in list && y in list {
        var i :| 0 <= i < |list| && list[i] == x;
        var j :| 0 <= j < |list| && list[j] == y;
        assert pairs[i].0 == pairs[j].0;
      }
    }
  }

  /** So are those of the pruned tree. */
  lemma PrunedUnique(t: Tree, ok: set<Entry>, childOf: map<Entry, seq<Entry>>, parentOf: map<Entry, Entry>, ids: map<Entry, Id>)
    requires InMemory(t, childOf, parentOf, ids) && UniqueIds(t, ids)
    ensures UniqueIds(PruneTree(t, ok), ids)
    ensures PairsFor(Pruned(t, ok)[1..], parentOf, ids) == PairsAll(BranchesOf(PruneTree(t, ok).kids, ids), RootId())
  {
    UniqueOwn(t, childOf, parentOf, ids);
    PrunedIsPreorder(t, ok);
    PrunedUpward(t, ok, parentOf);
    PrunedDistinct(t, ok);
    var p := PruneTree(t, ok);
    var list := PreorderAll(p.kids);
    assert Pruned(t, ok) == [t.node] + list;
    PreorderAllPairs(p.kids, t.node, parentOf, ids);
    forall k | 0 <= k < |Pruned(t, ok)| ensures Pruned(t, ok)[k] in Preorder(t) {
      PrunedWithin(t, ok, Pruned(t, ok)[k]);
      assert Pruned(t, ok)[k] in multiset(Pruned(t, ok)) && Pruned(t, ok)[k] in multiset(Preorder(t));
    }
    OwnPairs(t.node, list, Preorder(t), parentOf, ids);
  }

  lemma OwnPairs(root: Entry, list: seq<Entry>, all: seq<Entry>, parentOf: map<Entry, Entry>, ids: map<Entry, Id>)
    requires OwnIds(all, ids) && Distinct([root] + list) && (forall k :: 0 <= k < |[root] + list| ==> ([root] + list)[k] in all) && root in ids && ids[root] == RootId()
    ensures DistinctIds(PairsFor(list, parentOf, ids)) && !Has(PairsFor(list, parentOf, ids), RootId())
  {
    var pairs := PairsFor(list, parentOf, ids);
    assert ([root] + list)[0] == root;
    forall i | 0 <= i < |list| ensures list[i] in all && list[i] in ids && pairs[i].0 == ids[list[i]] && pairs[i].0 != RootId() {
      assert ([root] + list)[i + 1] == list[i] && Place(0) && Place(i + 1);
    }
    forall i, j | 0 <= i < j < |list| ensures pairs[i].0 != pairs[j].0 {
      assert Place(i + 1) && Place(j + 1) && ([root] + list)[i + 1] == list[i] && ([root] + list)[j + 1] == list[j];
    }
  }

  lemma WrittenPairs(t: Tree, ok: set<Entry>, childOf: map<Entry, seq<Entry>>, parentOf: map<Entry, Entry>, ids: map<Entry, Id>)
    requires InMemory(t, childOf, parentOf, ids) && t.node in ok
    ensures PairsOf(RecordsOf(Linked(t, ok))) == PairsFor(Linked(t, ok), parentOf, ids)
  {
    LinkedBelowRoot(t, ok);
    var list := Linked(t, ok);
    forall i | 0 <= i < |list| ensures PairsOf(RecordsOf(list))[i] == PairOf(list[i], parentOf, ids) {
      assert list[i] in parentOf;
    }
  }

  /** Every record fits the file and the buffer, and verify_entry accepts what comes back. */
  ghost predicate Acceptable(es: seq<Record>, verify: Record -> bool) {
    |es| < Pow256(8) && LoadableAll(es, verify) && forall i :: 0 <= i < |es| ==> S.Savable(es[i])
  }

  lemma SmallTags(es: seq<Record>, verify: Record -> bool)
    requires Acceptable(es, verify)
    ensures S.TagsFit(es, |es|)
  {
  }

  /** What hangs off the root when save_file comes to write: what the pass linked or, where the root itself fails to
      verify, the list an earlier operation left there. */
  ghost function ToWrite(t: Tree, ok: set<Entry>, stale: seq<Entry>): seq<Entry> {
    if t.node in ok then Linked(t, ok) else stale
  }

  // Linking the database; save_file goes on whatever the code.
  method Link(root: Entry, ok: set<Entry>, ghost t: Tree, ghost childOf: map<Entry, seq<Entry>>, ghost stale: seq<Entry>) returns (ret: int)
    requires Shaped(t, childOf) && Recorded(childOf) && Distinct(Preorder(t)) && t.node == root
    requires root in ok || Chain([root] + stale)
    modifies Preorder(t)`linkPrev, Preorder(t)`linkNext
    ensures ret == Code(t, ok) && Chain([root] + ToWrite(t, ok, stale))
  {
    assert [] + Preorder(t) == Preorder(t);
    assert root in ok ==> Threading.Threaded(t, ok).nodes == [root] + Linked(t, ok);
    var tail;
    ret, tail := LinkEntryForSaveFile(root, null, ok, t, childOf, [], 0);
  }

  /** The warning of save_file says that entries which fail to verify are left out together with what lies under them.
      It is right unless the root fails and carries an old list. */
  lemma WarningIff(t: Tree, ok: set<Entry>, stale: seq<Entry>)
    requires Distinct(Preorder(t))
    ensures multiset(ToWrite(t, ok, stale)) == multiset(PrunedKid(t, ok)) - multiset{t.node} <==> t.node in ok || stale == []
  {
    if t.node in ok {
      KeptIsPruned(t, ok);
      assert Threading.Threaded(t, ok).nodes == [t.node] + Linked(t, ok);
      assert multiset(Threading.Threaded(t, ok).nodes) == multiset{t.node} + multiset(Linked(t, ok));
    } else if stale != [] {
      assert stale[0] in multiset(stale);
    }
  }

  /** The list that the linking pass leaves makes the pruned tree. */
  lemma LinkedRebuild(t: Tree, ok: set<Entry>, childOf: map<Entry, seq<Entry>>, parentOf: map<Entry, Entry>, ids: map<Entry, Id>)
    requires InMemory(t, childOf, parentOf, ids) && UniqueIds(t, ids) && t.node in ok
    ensures var r := ReadPairs(Start(), PairsFor(Linked(t, ok), parentOf, ids)); r.Done? && Same(r.state, BranchOf(PruneTree(t, ok), ids), 0)
  {
    hide ReadPairs, UniqueIds;
    UniqueOwn(t, childOf, parentOf, ids);
    PrunedUnique(t, ok, childOf, parentOf, ids);
    PairsRebuild(PruneTree(t, ok), ids);
    RestReads(t, ok, parentOf, ids, Start());
  }

  /** The tree read from the id pairs of a tree. */
  lemma PairsRebuild(t: Tree, ids: map<Entry, Id>)
    requires UniqueIds(t, ids) && t.node in ids && ids[t.node] == RootId()
    ensures var r := ReadPairs(Start(), PairsAll(BranchesOf(t.kids, ids), RootId())); r.Done? && Same(r.state, BranchOf(t, ids), 0)
  {
    TreeRoundTrip(BranchesOf(t.kids, ids));
  }

  lemma FileContent(t: Tree, ok: set<Entry>, childOf: map<Entry, seq<Entry>>, parentOf: map<Entry, Entry>, ids: map<Entry, Id>, es: seq<Record>,
                    verify: Record -> bool)
    requires InMemory(t, childOf, parentOf, ids) && UniqueIds(t, ids) && |t.kids| < Pow256(8) && t.node in ok
    requires es == RecordsOf(Linked(t, ok)) && Acceptable(es, verify)
    ensures ReadPairs(Start(), PairsOf(es)).Done?
    ensures var st := ReadPairs(Start(), PairsOf(es)).state;
            ParseFile(S.EncodeFile(|t.kids|, es), verify) == Got((ReloadedAll(es), st), []) && Same(st, BranchOf(PruneTree(t, ok), ids), 0)
  {
    hide InMemory, UniqueIds, ParseFile, S.EncodeFile, Linked;
    WrittenPairs(t, ok, childOf, parentOf, ids);
    LinkedRebuild(t, ok, childOf, parentOf, ids);
    FileBack(|t.kids|, es, verify);
  }

  /** The entries of `list` are to be written as `es`. */
  ghost predicate WrittenAs(list: seq<Entry>, es: seq<Record>)
    reads list, set x | x in list :: x.parent
  {
    |es| == |list| && forall i :: 0 <= i < |list| ==> list[i].parent != null && S.RecordOf(list[i]) == es[i]
  }

  lemma RecordsWritten(t: Tree, ok: set<Entry>, childOf: map<Entry, seq<Entry>>, parentOf: map<Entry, Entry>, ids: map<Entry, Id>)
    requires InMemory(t, childOf, parentOf, ids) && t.node in ok
    ensures WrittenAs(Linked(t, ok), RecordsOf(Linked(t, ok)))
  {
    LinkedBelowRoot(t, ok);
    var list := Linked(t, ok);
    forall i | 0 <= i < |list| ensures list[i].parent != null {
      assert list[i] in parentOf;
    }
  }

  lemma ChildCount(root: Entry, t: Tree, childOf: map<Entry, seq<Entry>>)
    requires Shaped(t, childOf) && Recorded(childOf) && t.node == root
    ensures |root.child| == |t.kids|
  {
  }

  lemma LinkedInTree(t: Tree, ok: set<Entry>)
    requires t.node in ok
    ensures forall i :: 0 <= i < |Linked(t, ok)| ==> Linked(t, ok)[i] in Preorder(t) && Linked(t, ok)[i] in ok
  {
    LinkedBelowRoot(t, ok);
    assert Preorder(t)[1..] == PreorderAll(t.kids);
  }

  // Linking leaves the records to be written as they were.
  method LinkForSaving(root: Entry, ok: set<Entry>, ghost t: Tree, ghost childOf: map<Entry, seq<Entry>>, ghost stale: seq<Entry>, ghost es: seq<Record>)
    requires Shaped(t, childOf) && Recorded(childOf) && Distinct(Preorder(t)) && t.node == root && (root in ok || Chain([root] + stale))
    requires WrittenAs(ToWrite(t, ok, stale), es) && forall i :: 0 <= i < |es| ==> S.Savable(es[i])
    modifies Preorder(t)`linkPrev, Preorder(t)`linkNext
    ensures S.Threaded(root, ToWrite(t, ok, stale), es) && root.child == old(root.child)
  {
    hide Linked, Distinct, Preorder, Shaped, Chain, S.Savable;
    ghost var list := ToWrite(t, ok, stale);
    if root in ok {
      LinkedInTree(t, ok);
    }
    var _ := Link(root, ok, t, childOf, stale);
    forall i | 0 <= i < |list| ensures list[i].parent != null && S.RecordOf(list[i]) == es[i] {
      assert list[i] in if root in ok then ok else set x | x in stale;
      assert old(S.RecordOf(list[i])) == es[i];
    }
  }

  // save_file: what hangs off the root after the linking pass is written in the order of the list.
  method Save(w: Writer, root: Entry, ok: set<Entry>, ghost t: Tree, ghost childOf: map<Entry, seq<Entry>>, ghost stale: seq<Entry>, ghost es: seq<Record>)
    returns (ret: int)
    requires Shaped(t, childOf) && Recorded(childOf) && Distinct(Preorder(t)) && t.node == root && (root in ok || Chain([root] + stale))
    requires S.Appending(w) && w.Image() == [] && WrittenAs(ToWrite(t, ok, stale), es) && S.TagsFit(es, |es|)
    requires forall i :: 0 <= i < |es| ==> S.Savable(es[i]) && StorableTimes(es[i])
    modifies Preorder(t)`linkPrev, Preorder(t)`linkNext, w, w.file, w.buf
    ensures ret == OK && w.file.data == S.EncodeFile(|t.kids|, es)
  {
    hide *;
    ChildCount(root, t, childOf);
    LinkForSaving(root, ok, t, childOf, stale, es);
    ret := S.SaveFile(w, root, ToWrite(t, ok, stale), es);
  }

  /** With nothing hanging off the root the file loads as an empty database, whatever number of branches it states. */
  lemma NothingSaved(t: Tree, ok: set<Entry>, verify: Record -> bool)
    requires t.node !in ok && |t.kids| < Pow256(8)
    ensures ParseFile(S.EncodeFile(|t.kids|, RecordsOf(ToWrite(t, ok, []))), verify) == Got(([], Start()), [])
  {
    var es := RecordsOf(ToWrite(t, ok, []));
    assert PairsOf(es) == [] && ReloadedAll(es) == [];
    FileBack(|t.kids|, es, verify);
  }

  // load_file into a new tree
  method Load(data: seq<Byte>, newRoot: Entry, little: bool, verify: Record -> bool, ghost v: (seq<Record>, Loaded))
    returns (ret: int, htab: map<Id, Entry>, ghost view: View)
    requires newRoot.child == [] && newRoot.depth == 0 && ParseFile(data, verify) == Got(v, [])
    modifies newRoot`child
    ensures ret == OK && Rebuilt(newRoot, htab, view, v.1, v.0)
  {
    var file := new DataFile(data);
    var r := new Reader(file, BUFFER_SIZE, little);
    ret, htab, view := LoadDatabaseFile(r, newRoot, verify);
  }

  lemma WholeTree(t: Tree, ok: set<Entry>)
    ensures (forall x :: x in Preorder(t) ==> x in ok) ==> PruneTree(t, ok) == t
  {
    if forall x :: x in Preorder(t) ==> x in ok {
      NothingPruned(t, ok);
    }
  }

  /** What is to be written, and what reading it will give. */
  lemma Prepared(t: Tree, ok: set<Entry>, childOf: map<Entry, seq<Entry>>, parentOf: map<Entry, Entry>, ids: map<Entry, Id>, es: seq<Record>,
                 verify: Record -> bool) returns (st: Loaded)
    requires InMemory(t, childOf, parentOf, ids) && UniqueIds(t, ids) && |t.kids| < Pow256(8) && t.node in ok
    requires es == RecordsOf(Linked(t, ok)) && Acceptable(es, verify)
    ensures Shaped(t, childOf) && Recorded(childOf) && Distinct(Preorder(t))
    ensures WrittenAs(Linked(t, ok), es) && S.TagsFit(es, |es|) && forall i :: 0 <= i < |es| ==> S.Savable(es[i]) && StorableTimes(es[i])
    ensures ParseFile(S.EncodeFile(|t.kids|, es), verify) == Got((ReloadedAll(es), st), [])
    ensures Same(st, BranchOf(PruneTree(t, ok), ids), 0)
    ensures (forall x :: x in Preorder(t) ==> x in ok) ==> Same(st, BranchOf(t, ids), 0)
  {
    hide ParseFile, S.EncodeFile, Same, Linked, UniqueIds, Shaped, Recorded, Distinct, Preorder, WrittenAs, PruneTree, BranchOf;
    FileContent(t, ok, childOf, parentOf, ids, es, verify);
    st := ReadPairs(Start(), PairsOf(es)).state;
    WholeTree(t, ok);
    RecordsWritten(t, ok, childOf, parentOf, ids);
    SmallTags(es, verify);
  }

  lemma VerifiedRoot(t: Tree, ok: set<Entry>)
    requires t.node in ok
    ensures ToWrite(t, ok, []) == Linked(t, ok)
  {
  }

  /** What is written of every entry linked: its id, its parent's, the number of its children, and its name. */
  ghost predicate Told(x: Entry, e: Record, parentOf: map<Entry, Entry>, ids: map<Entry, Id>)
    reads x`child, x`body
  {
    x in parentOf && x in ids && parentOf[x] in ids && e.id == ids[x] && e.parentId == ids[parentOf[x]]
    && e.childNum == |x.child| && e.fileName == x.body.fileName
  }

  lemma AllTold(t: Tree, ok: set<Entry>, childOf: map<Entry, seq<Entry>>, parentOf: map<Entry, Entry>, ids: map<Entry, Id>)
    requires InMemory(t, childOf, parentOf, ids) && t.node in ok
    ensures |RecordsOf(Linked(t, ok))| == |Linked(t, ok)|
    ensures forall i :: 0 <= i < |Linked(t, ok)| ==> Linked(t, ok)[i] in ids && Told(Linked(t, ok)[i], RecordsOf(Linked(t, ok))[i], parentOf, ids)
    ensures forall i :: 0 <= i < |Linked(t, ok)| ==> RecordsOf(Linked(t, ok))[i].fileName == Linked(t, ok)[i].body.fileName
  {
    LinkedBelowRoot(t, ok);
    var list := Linked(t, ok);
    forall i | 0 <= i < |list| ensures list[i] in ids && Told(list[i], RecordsOf(list)[i], parentOf, ids) {
      assert list[i] in parentOf;
    }
  }

  /** An entry whose name agrees with its record has the same name after loading. */
  lemma NamesBack(list: seq<Entry>, es: seq<Record>, newRoot: Entry, htab: map<Id, Entry>, view: View, st: Loaded)
    requires |list| == |es| && Rebuilt(newRoot, htab, view, st, ReloadedAll(es))
    requires forall i :: 0 <= i < |es| ==> es[i].fileName == list[i].body.fileName
    ensures forall i :: 0 <= i < |es| && Spells(list[i].fileName, list[i].body.fileName) ==>
              es[i].id in htab && htab[es[i].id].fileName == list[i].fileName
  {
    hide Represents;
    forall i | 0 <= i < |es| && Spells(list[i].fileName, list[i].body.fileName)
      ensures es[i].id in htab && htab[es[i].id].fileName == list[i].fileName
    {
      assert ReloadedAll(es)[i] in ReloadedAll(es);
      assert HoldsRecord(htab, ReloadedAll(es)[i]);
    }
  }

  // Linking and writing the tree
  method SaveTree(w: Writer, root: Entry, ok: set<Entry>, ghost verify: Record -> bool, ghost t: Tree, ghost childOf: map<Entry, seq<Entry>>,
                  ghost parentOf: map<Entry, Entry>, ghost ids: map<Entry, Id>)
    returns (ret: int, ghost es: seq<Record>, ghost st: Loaded)
    requires t.node == root && InMemory(t, childOf, parentOf, ids) && UniqueIds(t, ids) && |t.kids| < Pow256(8) && root in ok
    requires Acceptable(RecordsOf(Linked(t, ok)), verify) && S.Appending(w) && w.Image() == []
    modifies Preorder(t)`linkPrev, Preorder(t)`linkNext, w, w.file, w.buf
    ensures ret == OK && es == old(RecordsOf(Linked(t, ok))) && ParseFile(w.file.data, verify) == Got((ReloadedAll(es), st), [])
    ensures Same(st, BranchOf(PruneTree(t, ok), ids), 0)
    ensures (forall x :: x in Preorder(t) ==> x in ok) ==> Same(st, BranchOf(t, ids), 0)
  {
    hide *;
    es := RecordsOf(Linked(t, ok));
    st := Prepared(t, ok, childOf, parentOf, ids, es, verify);
    VerifiedRoot(t, ok);
    ret := Save(w, root, ok, t, childOf, [], es);
  }

  // Saving a database on one host and loading it on another, in either byte order: the tree comes back without the
  // entries that fail to verify and what lies under them, in whatever order the others were written.
  method SaveAndLoad(root: Entry, ok: set<Entry>, w: Writer, newRoot: Entry, little: bool, verify: Record -> bool,
                     ghost t: Tree, ghost childOf: map<Entry, seq<Entry>>, ghost parentOf: map<Entry, Entry>, ghost ids: map<Entry, Id>)
    returns (ret: int, htab: map<Id, Entry>, ghost view: View, ghost st: Loaded, ghost es: seq<Record>)
    requires t.node == root && InMemory(t, childOf, parentOf, ids) && UniqueIds(t, ids) && |t.kids| < Pow256(8) && root in ok
    requires Acceptable(RecordsOf(Linked(t, ok)), verify)
    requires S.Appending(w) && w.Image() == [] && newRoot.child == [] && newRoot.depth == 0
    modifies Preorder(t)`linkPrev, Preorder(t)`linkNext, w, w.file, w.buf, newRoot`child
    ensures es == old(RecordsOf(Linked(t, ok)))
    ensures ret == OK && Rebuilt(newRoot, htab, view, st, ReloadedAll(es))
    ensures Same(st, BranchOf(PruneTree(t, ok), ids), 0)
    ensures (forall x :: x in Preorder(t) ==> x in ok) ==> Same(st, BranchOf(t, ids), 0)
    ensures |es| == |Linked(t, ok)| && forall i :: 0 <= i < |es| ==> Linked(t, ok)[i] in ids && old(Told(Linked(t, ok)[i], es[i], parentOf, ids))
    ensures forall i :: 0 <= i < |es| && Spells(Linked(t, ok)[i].fileName, Linked(t, ok)[i].body.fileName) ==>
              es[i].id in htab && htab[es[i].id].fileName == Linked(t, ok)[i].fileName
  {
    hide *;
    AllTold(t, ok, childOf, parentOf, ids);
    ret, es, st := SaveTree(w, root, ok, verify, t, childOf, parentOf, ids);
    ret, htab, view := Load(w.file.data, newRoot, little, verify, (ReloadedAll(es), st));
    NamesBack(Linked(t, ok), es, newRoot, htab, view, st);
  }
}
