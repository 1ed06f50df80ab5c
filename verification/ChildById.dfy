/** The child that a component of a path stands for in id mode: `path_to_dir` asks `find_children_via_entry_id_part`,
    and whichever strategy that takes the answer is the one of the logical directories. */
module ChildById {
  import opened Util
  import opened Lists
  import opened Codes
  import opened Bitmap
  import opened Strings
  import opened ExistMat
  import opened IndexSpec
  import opened Layer2
  import opened Entries
  import opened ChildLookup
  import ChildByName
  import D = Directory

  /** `db` shows the entries as they are, with ids and parents; the root is the first of them. Its id is in the table too. */
  ghost predicate ShowsIds(db: D.Database, pool: seq<Entry>)
    reads pool
  {
    |db.nodes| == |pool| > 0 && Distinct(pool) && pool[0].parent == null && pool[0].id == D.ZeroId()
    && forall e :: 0 < e < |pool| ==>
         db.nodes[e].id == pool[e].id && db.nodes[e].parent < |pool| && pool[e].parent == pool[db.nodes[e].parent]
  }

  /** Does the table have the id? */
  predicate Known(db: D.Database, id: string) {
    id in db.byId || id == D.ZeroId()
  }

  lemma NodeId(db: D.Database, x: nat)
    requires D.ValidDatabase(db) && 0 < x < |db.nodes|
    ensures db.nodes[x].id in db.byId && db.byId[db.nodes[x].id] == x
    ensures db.nodes[x].parent < |db.nodes| && x in db.nodes[db.nodes[x].parent].child
    ensures |db.nodes[x].id| == D.EID_STR_MAX && db.nodes[x].id != D.ZeroId()
  {
    assert D.ValidNode(db, x);
  }

  lemma KnownShown(db: D.Database, pool: seq<Entry>, id: string)
    requires D.ValidDatabase(db) && ShowsIds(db, pool)
    ensures |db.nodes| == |pool| && (Known(db, id) <==> exists e :: 0 <= e < |pool| && pool[e].id == id) && !Known(db, "")
  {
    hide D.ValidDatabase;
    NoText(db);
    if id in db.byId {
      IdNode(db, id);
      assert pool[db.byId[id]].id == id;
    }
    if e :| 0 < e < |pool| && pool[e].id == id {
      NodeId(db, e);
    }
  }

  lemma NoText(db: D.Database)
    requires D.ValidDatabase(db)
    ensures "" !in db.byId
  {
    if "" in db.byId {
      IdNode(db, "");
      NodeId(db, db.byId[""]);
    }
  }

  lemma IdNode(db: D.Database, id: string)
    requires D.ValidDatabase(db) && id in db.byId
    ensures 0 < db.byId[id] < |db.nodes| && db.nodes[db.byId[id]].id == id
  {
  }

  /** No entry below the root has an id that contains the root's. */
  lemma NotZero(db: D.Database, x: nat)
    requires D.ValidDatabase(db) && 0 < x < |db.nodes|
    ensures !Contains(db.nodes[x].id, D.ZeroId())
  {
    NodeId(db, x);
    SameLength(db.nodes[x].id, D.ZeroId());
  }

  lemma SameLength(s: string, t: string)
    requires |s| == |t|
    ensures Contains(s, t) <==> s == t
  {
    assert s[0..|s|] == s;
    assert OccursAt(s, t, 0) <==> s == t;
  }

  lemma CandidatesAre(db: D.Database, k: nat, text: string)
    requires D.ValidDatabase(db) && k < |db.nodes| && text != ""
    ensures Distinct(D.Candidates(db, k, text, D.ById))
    ensures forall x :: x in D.Candidates(db, k, text, D.ById) <==>
              0 < x < |db.nodes| && db.nodes[x].parent == k && Matches(db.nodes[x].id, D.Lower(text), Known(db, D.Lower(text)))
  {
    assert D.ValidChildren(db, k);
    var kids, id := db.nodes[k].child, D.Lower(text);
    forall x: nat | 0 < x < |db.nodes| 
      ensures db.nodes[x].id in db.byId && db.byId[db.nodes[x].id] == x && (db.nodes[x].parent == k ==> x in kids) {
      NodeId(db, x);
    }
    if id !in db.byId {
      ChildByName.FilterDistinct(db, kids, id, false, D.ById);
      forall x: nat | 0 < x < |db.nodes| ensures !Contains(db.nodes[x].id, D.ZeroId()) && db.nodes[x].id != D.ZeroId() {
        NotZero(db, x);
        NodeId(db, x);
      }
    } else {
      IdNode(db, id);
      NodeId(db, db.byId[id]);
    }
  }

  /** The children the search is to find are the candidates of the directory. */
  lemma SameChildren(db: D.Database, pool: seq<Entry>, k: nat, text: string)
    requires D.ValidDatabase(db) && ShowsIds(db, pool) && k < |db.nodes| && text != ""
    ensures forall e: nat :: e in Matching(pool, pool[k], D.Lower(text), Known(db, D.Lower(text)), D.ById) <==> e in D.Candidates(db, k, text, D.ById)
  {
    hide D.ValidDatabase, D.Candidates, Known, D.Lower, D.ZeroId;
    CandidatesAre(db, k, text);
    forall e: nat | 0 < e < |pool| ensures pool[e].parent == pool[k] <==> db.nodes[e].parent == k {
      var up := db.nodes[e].parent;
      assert pool[e].parent == pool[up];
      OthersDiffer(pool, k);
    }
  }

  // The part of path_to_dir that goes to a child by id, the text in lower case; the entries of the database and the
  // index of their ids are as ChildLookup has them.
  method FindChild(db: D.Database, ghost w: D.World, ghost d: nat, ghost k: nat, parent: Entry, text: string,
                   l2: L2Arr<Entry?>, matrix: Matrix, htab: map<string, Trans<Entry?>>, mapBuf: SimpleBitmap, mapBuf2: SimpleBitmap,
                   ghost pool: seq<Entry>, ghost chains: Chains, ghost kids: seq<nat>, ghost at: map<string, Pos>)
    returns (ret: int, child: Entry?)
    requires D.ValidWorld(w) && d < |w| && w[d] == db && ShowsIds(db, pool) && k < |db.nodes| && parent == pool[k]
    requires l2.Valid() && Names(l2, pool, chains, D.ById) && Hashed(l2, htab, at) && Family(parent, pool, kids)
    requires matrix.Valid() && 0 < |matrix.columns| && '\0' !in text && |text| <= |matrix.columns| && Covers(matrix.views, matrix.maxLength, l2.live)
    requires mapBuf.Valid() && mapBuf2.Valid() && mapBuf != mapBuf2 && mapBuf.base != mapBuf2.base
    requires {mapBuf, mapBuf.base, mapBuf2, mapBuf2.base} !! matrix.Repr + l2.Repr
    requires Growable(mapBuf.length, l2.l1Map.length) && Growable(mapBuf2.length, l2.l1Map.length)
    modifies mapBuf, mapBuf.base, mapBuf2, mapBuf2.base
    ensures match D.ChildOf(w, D.In(d, k), text, D.ById)
            case Found(p) => ret == OK && p.In? && p.db == d && p.node < |pool| && child == pool[p.node]
            case NotFound(code) => ret == code && child == null
  {
    hide D.ValidDatabase, D.Candidates, Names, Covers, Family, Matching, Answer, Hashed, ShowsIds, Known;
    var buf, id := new Entry?[2](_ => null), D.Lower(text);
    ChildByName.ChildIs(w, d, k, text, D.ById);
    KnownNames(l2, pool, chains, htab, at, id, D.ById);
    KnownShown(db, pool, id);
    ghost var total;
    var used: nat;
    ret, used, total := FindChildrenViaEntryIdPart(l2, matrix, htab, id, parent, mapBuf, mapBuf2, buf, 2, pool, chains, kids, at);
    Chosen(db, pool, k, text, kids, ret, used, total, buf);
    if used == 0 {
      return NO_SUCH_LOGIC_DIR, null;
    } else if used > 1 {
      return FOUND_DUPLICATE, null;
    }
    ret, child := OK, buf[0];
  }

  /** The search's answer and the candidates. */
  lemma Chosen(db: D.Database, pool: seq<Entry>, k: nat, text: string, kids: seq<nat>, ret: int, used: nat, total: seq<nat>, buf: array<Entry?>)
    requires D.ValidDatabase(db) && ShowsIds(db, pool) && k < |db.nodes| && |pool| == |db.nodes|
    requires Family(pool[k], pool, kids) && buf.Length == 2
    requires if pool[k].child == [] || text == "" then used == 0
             else Answer(ret, used, total, Matching(pool, pool[k], D.Lower(text), Known(db, D.Lower(text)), D.ById), buf, 2, pool)
    ensures var found := D.Candidates(db, k, text, D.ById);
            used == Min(|found|, 2) && (used == 1 ==> found[0] < |pool| && buf[0] == pool[found[0]])
  {
    hide ShowsIds, D.ValidDatabase, D.Candidates, Family, Answer, Matching, Known;
    if text == "" {
      NoText(db);
      NothingFor(db, k);
    } else {
      CandidatesAre(db, k, text);
      SameChildren(db, pool, k, text);
      if pool[k].child == [] {
        NoChildren(db, pool, k, text, kids);
      } else {
        Counted(ret, used, total, Matching(pool, pool[k], D.Lower(text), Known(db, D.Lower(text)), D.ById), buf, pool, D.Candidates(db, k, text, D.ById));
      }
    }
  }

  lemma NothingFor(db: D.Database, k: nat)
    requires D.ValidDatabase(db) && k < |db.nodes| && "" !in db.byId
    ensures D.Candidates(db, k, "", D.ById) == []
  {
    assert D.Lower("") == "";
  }

  lemma NoChildren(db: D.Database, pool: seq<Entry>, k: nat, text: string, kids: seq<nat>)
    requires D.ValidDatabase(db) && ShowsIds(db, pool) && k < |db.nodes| && text != ""
    requires Family(pool[k], pool, kids) && pool[k].child == []
    ensures D.Candidates(db, k, text, D.ById) == []
  {
    hide D.Candidates, D.ValidDatabase;
    CandidatesAre(db, k, text);
    assert kids == [] && forall e :: 0 <= e < |pool| ==> pool[e].parent != pool[k];
    forall x: nat | 0 < x < |db.nodes| ensures db.nodes[x].parent != k {
      assert pool[x].parent == pool[db.nodes[x].parent];
    }
    D.EmptyList(D.Candidates(db, k, text, D.ById));
  }

  lemma Counted(ret: int, used: nat, total: seq<nat>, keep: set<nat>, buf: array<Entry?>, pool: seq<Entry>, found: seq<nat>)
    requires Answer(ret, used, total, keep, buf, 2, pool) && buf.Length == 2
    requires Distinct(found) && forall e: nat :: e in keep <==> e in found
    ensures used == Min(|found|, 2) && (used == 1 ==> found[0] < |pool| && buf[0] == pool[found[0]])
  {
    hide Distinct;
    StrategiesAgree(total, found, keep);
    if used == 1 {
      assert total[..used][0] == total[0] && found[0] in found && found[0] in total;
    }
  }
}
