/** The child that a component of a path stands for in file name mode: `path_to_dir` asks
    `find_children_via_file_name`, and whichever strategy that takes the answer is the one of the logical directories. */
module ChildByName {
  import opened Util
  import opened Lists
  import opened Codes
  import opened Bitmap
  import opened Strings
  import opened ExistMat
  import opened IndexSpec
  import opened Layer2
  import opened TransMap
  import opened Entries
  import opened ChildLookup
  import D = Directory

  /** The entry at a place: the root of the tree, or a member of the pool. */
  function EntryAt(root: Entry, pool: seq<Entry>, k: nat): Entry
    requires k <= |pool|
  {
    if k == 0 then root else pool[k - 1]
  }

  /** `db` shows the entries as they are: one place for the root and each of the pool, with names and parents. */
  ghost predicate Shows(db: D.Database, root: Entry, pool: seq<Entry>)
    reads pool
  {
    |db.nodes| == |pool| + 1 && root !in pool && Distinct(pool)
    && (forall e :: 0 <= e < |pool| ==>
          db.nodes[e + 1].name == pool[e].fileName && db.nodes[e + 1].parent <= |pool|
          && pool[e].parent == EntryAt(root, pool, db.nodes[e + 1].parent))
    && forall s :: s in db.names <==> exists e :: 0 <= e < |pool| && pool[e].fileName == s
  }

  lemma SameEntry(root: Entry, pool: seq<Entry>, j: nat, k: nat)
    requires root !in pool && Distinct(pool) && j <= |pool| && k <= |pool|
    ensures EntryAt(root, pool, j) == EntryAt(root, pool, k) <==> j == k
  {
    if j > 0 && k > 0 && j != k {
      var a, b := if j < k then j - 1 else k - 1, if j < k then k - 1 else j - 1;
      OthersDiffer(pool, a);
    }
  }

  lemma Shown(db: D.Database, root: Entry, pool: seq<Entry>, x: nat)
    requires Shows(db, root, pool) && 0 < x < |db.nodes|
    ensures |db.nodes| == |pool| + 1 && root !in pool && Distinct(pool) && db.nodes[x].parent <= |pool|
    ensures db.nodes[x].name == pool[x - 1].fileName && pool[x - 1].parent == EntryAt(root, pool, db.nodes[x].parent)
  {
    var e := x - 1;
    assert pool[e].parent == EntryAt(root, pool, db.nodes[e + 1].parent);
  }

  /** The members of a list whose names match, without repetition. */
  lemma {:induction false} FilterDistinct(db: D.Database, list: seq<nat>, text: string, exact: bool, mode: D.Mode)
    requires (forall j :: 0 <= j < |list| ==> list[j] < |db.nodes|) && Distinct(list)
    ensures Distinct(D.Filter(db, list, text, exact, mode))
  {
    if list != [] {
      SliceDistinct(list, 1, |list|);
      FoundOnce(list, 0);
      assert forall j :: 0 <= j < |list[1..]| ==> list[1..][j] == list[j + 1];
      FilterDistinct(db, list[1..], text, exact, mode);
      var r := D.Filter(db, list[1..], text, exact, mode);
      assert forall x :: x in r ==> x in list[1..];
      AppendDistinct([list[0]], r);
    }
  }

  /** Does the search ask for the name itself? */
  predicate Exact(db: D.Database, text: string) {
    text in db.names
  }

  lemma CandidatesAre(db: D.Database, k: nat, text: string)
    requires D.ValidDatabase(db) && k < |db.nodes| && (Exact(db, text) || text != "")
    ensures Distinct(D.Candidates(db, k, text, D.ByName))
    ensures forall x :: x in D.Candidates(db, k, text, D.ByName) <==>
              0 < x < |db.nodes| && db.nodes[x].parent == k && Matches(db.nodes[x].name, text, Exact(db, text))
  {
    assert D.ValidChildren(db, k);
    var kids := db.nodes[k].child;
    FilterDistinct(db, kids, text, Exact(db, text), D.ByName);
    forall x | 0 < x < |db.nodes| && db.nodes[x].parent == k ensures x in kids {
      assert D.ValidNode(db, x);
    }
  }

  /** The children the search is to find are the candidates of the directory. */
  lemma SameChildren(db: D.Database, root: Entry, pool: seq<Entry>, k: nat, text: string)
    requires D.ValidDatabase(db) && Shows(db, root, pool) && k < |db.nodes| && (Exact(db, text) || text != "")
    ensures forall e: nat :: e in Matching(pool, EntryAt(root, pool, k), text, Exact(db, text), D.ByName) <==> e + 1 in D.Candidates(db, k, text, D.ByName)
  {
    hide Shows, D.ValidDatabase, D.Candidates, Exact;
    CandidatesAre(db, k, text);
    NamesShown(db, root, pool, text);
    forall e: nat ensures e in Matching(pool, EntryAt(root, pool, k), text, Exact(db, text), D.ByName) <==> e + 1 in D.Candidates(db, k, text, D.ByName) {
      if e < |pool| {
        Shown(db, root, pool, e + 1);
        SameEntry(root, pool, db.nodes[e + 1].parent, k);
      }
    }
  }

  /** Places in the pool for places of the database. */
  function Lowered(found: seq<nat>): (r: seq<nat>)
    requires forall i :: 0 <= i < |found| ==> 0 < found[i]
    ensures |r| == |found|
  {
    seq(|found|, i requires 0 <= i < |found| => found[i] - 1)
  }

  lemma LoweredListing(found: seq<nat>, keep: set<nat>)
    requires Distinct(found) && forall i :: 0 <= i < |found| ==> 0 < found[i]
    requires forall e: nat :: e in keep <==> e + 1 in found
    ensures Listing(Lowered(found), keep)
  {
    var r := Lowered(found);
    forall e: nat | e in r ensures e in keep {
      var i :| 0 <= i < |r| && r[i] == e;
      assert found[i] in found && found[i] == e + 1;
    }
    forall e: nat | e in keep ensures e in r {
      var i :| 0 <= i < |found| && found[i] == e + 1;
      assert r[i] == e;
    }
  }

  /** Equally many, and the first of one is the first of the other if there is only one. */
  lemma SameCount(total: seq<nat>, found: seq<nat>, keep: set<nat>)
    requires Listing(total, keep) && Distinct(found) && (forall i :: 0 <= i < |found| ==> 0 < found[i])
    requires forall e: nat :: e in keep <==> e + 1 in found
    ensures |total| == |found| && (|total| == 1 ==> found[0] == total[0] + 1)
  {
    LoweredListing(found, keep);
    StrategiesAgree(total, Lowered(found), keep);
    if |total| == 1 {
      assert total[0] in keep;
      assert total[0] + 1 in found;
    }
  }

  // The part of path_to_dir that goes to a child by file name; the entries of the database and the index of their
  // names are as ChildLookup has them.
  method FindChild(db: D.Database, ghost w: D.World, ghost d: nat, ghost k: nat, root: Entry, parent: Entry, text: string,
                   l2: L2Arr<Entry?>, matrix: Matrix, htab: map<string, Trans<Entry?>>, mapBuf: SimpleBitmap, mapBuf2: SimpleBitmap,
                   ghost pool: seq<Entry>, ghost chains: Chains, ghost kids: seq<nat>, ghost at: map<string, Pos>)
    returns (ret: int, child: Entry?)
    requires D.ValidWorld(w) && d < |w| && w[d] == db && Shows(db, root, pool) && k < |db.nodes| && parent == EntryAt(root, pool, k)
    requires l2.Valid() && Names(l2, pool, chains, D.ByName) && Hashed(l2, htab, at) && Family(parent, pool, kids)
    requires matrix.Valid() && 0 < |matrix.columns| && '\0' !in text && |text| <= |matrix.columns| && Covers(matrix.views, matrix.maxLength, l2.live)
    requires mapBuf.Valid() && mapBuf2.Valid() && mapBuf != mapBuf2 && mapBuf.base != mapBuf2.base
    requires {mapBuf, mapBuf.base, mapBuf2, mapBuf2.base} !! matrix.Repr + l2.Repr
    modifies mapBuf, mapBuf.base, mapBuf2, mapBuf2.base
    ensures match D.ChildOf(w, D.In(d, k), text, D.ByName)
            case Found(p) => ret == OK && p.In? && p.db == d && p.node <= |pool| && child == EntryAt(root, pool, p.node)
            case NotFound(code) => ret == code && child == null
  {
    hide D.ValidDatabase, D.Candidates, Names, Covers, Family, Matching, Answer, Hashed, Shows;
    var buf := new Entry?[2](_ => null);
    KnownNames(l2, pool, chains, htab, at, text, D.ByName);
    NamesShown(db, root, pool, text);
    ghost var total;
    var used: nat;
    ret, used, total := FindChildrenViaFileName(l2, matrix, htab, text, parent, mapBuf, mapBuf2, buf, 2, pool, chains, kids, at);
    Chosen(db, root, pool, k, text, kids, ret, used, total, buf);
    ChildIs(w, d, k, text, D.ByName);
    if used == 0 {
      return NO_SUCH_LOGIC_DIR, null;
    } else if used > 1 {
      return FOUND_DUPLICATE, null;
    }
    ret, child := OK, buf[0];
  }

  lemma NamesShown(db: D.Database, root: Entry, pool: seq<Entry>, text: string)
    requires Shows(db, root, pool)
    ensures |db.nodes| == |pool| + 1
    ensures Exact(db, text) <==> exists e :: 0 <= e < |pool| && pool[e].fileName == text
  {
  }

  /** The search's answer and the candidates. */
  lemma Chosen(db: D.Database, root: Entry, pool: seq<Entry>, k: nat, text: string, kids: seq<nat>, ret: int, used: nat, total: seq<nat>, buf: array<Entry?>)
    requires D.ValidDatabase(db) && Shows(db, root, pool) && k < |db.nodes| && |db.nodes| == |pool| + 1
    requires Family(EntryAt(root, pool, k), pool, kids) && buf.Length == 2
    requires var parent := EntryAt(root, pool, k);
             if parent.child == [] || (!Exact(db, text) && text == "") then used == 0
             else Answer(ret, used, total, Matching(pool, parent, text, Exact(db, text), D.ByName), buf, 2, pool)
    ensures var found := D.Candidates(db, k, text, D.ByName);
            used == Min(|found|, 2) && (used == 1 ==> found[0] <= |pool| && buf[0] == EntryAt(root, pool, found[0]))
  {
    hide Shows, D.ValidDatabase, D.Candidates, Family, Answer, Matching;
    var parent := EntryAt(root, pool, k);
    if Exact(db, text) || text != "" {
      CandidatesAre(db, k, text);
      if parent.child == [] {
        NoChildren(db, root, pool, k, text, kids);
      } else {
        SameChildren(db, root, pool, k, text);
        Counted(ret, used, total, Matching(pool, parent, text, Exact(db, text), D.ByName), buf, pool, root, D.Candidates(db, k, text, D.ByName));
      }
    } else {
      NoText(db, k, text);
    }
  }

  lemma NoText(db: D.Database, k: nat, text: string)
    requires D.ValidDatabase(db) && k < |db.nodes| && !Exact(db, text) && text == ""
    ensures D.Candidates(db, k, text, D.ByName) == []
  {
  }

  lemma NoChildren(db: D.Database, root: Entry, pool: seq<Entry>, k: nat, text: string, kids: seq<nat>)
    requires D.ValidDatabase(db) && Shows(db, root, pool) && k < |db.nodes| && (Exact(db, text) || text != "")
    requires Family(EntryAt(root, pool, k), pool, kids) && EntryAt(root, pool, k).child == []
    ensures D.Candidates(db, k, text, D.ByName) == []
  {
    hide D.Candidates, D.ValidDatabase, Shows;
    CandidatesAre(db, k, text);
    NamesShown(db, root, pool, text);
    assert kids == [] && forall e :: 0 <= e < |pool| ==> pool[e].parent != EntryAt(root, pool, k);
    forall x: nat ensures x !in D.Candidates(db, k, text, D.ByName) {
      if 0 < x < |db.nodes| && db.nodes[x].parent == k {
        Shown(db, root, pool, x);
      }
    }
    D.EmptyList(D.Candidates(db, k, text, D.ByName));
  }

  lemma Counted(ret: int, used: nat, total: seq<nat>, keep: set<nat>, buf: array<Entry?>, pool: seq<Entry>, root: Entry, found: seq<nat>)
    requires Answer(ret, used, total, keep, buf, 2, pool) && buf.Length == 2
    requires Distinct(found) && (forall x :: x in found ==> 0 < x) && forall e: nat :: e in keep <==> e + 1 in found
    ensures used == Min(|found|, 2) && (used == 1 ==> found[0] <= |pool| && buf[0] == EntryAt(root, pool, found[0]))
  {
    hide Distinct;
    forall i | 0 <= i < |found| ensures 0 < found[i] {
      assert found[i] in found;
    }
    SameCount(total, found, keep);
    if used == 1 {
      assert total[..used][0] == total[0];
    }
  }

  function Choice(d: nat, found: seq<nat>): D.Result {
    if |found| == 1 then D.Found(D.In(d, found[0])) else D.NotFound(if found == [] then NO_SUCH_LOGIC_DIR else FOUND_DUPLICATE)
  }

  /** What the number of candidates makes of a component. */
  lemma ChildIs(w: D.World, d: nat, k: nat, text: string, mode: D.Mode)
    requires D.ValidWorld(w) && d < |w| && k < |w[d].nodes|
    ensures D.ValidDatabase(w[d])
    ensures D.ChildOf(w, D.In(d, k), text, mode) == Choice(d, D.Candidates(w[d], k, text, mode))
  {
  }
}
