/** `dir_info` and the functions that overwrite it. */
module DirectoryInfo {
  import opened Util
  import opened Codes
  import opened Strings
  import opened PathText
  import opened Directory

  /** What identifies a directory: names, so that it survives the removal of an entry. */
  datatype Names = Names(dbName: string, entryId: string)

  function NamesOf(w: World, p: Place): Names
    requires ValidPlace(w, p)
  {
    if p.Top? then Names("", "")
    else Names(w[p.db].name, if p.node == 0 then ZeroId() else w[p.db].nodes[p.node].id)
  }

  /** The place that the names stand for now. */
  function PlaceOf(w: World, d: Names): (r: Result)
    requires ValidWorld(w)
    ensures ValidResult(w, r)
  {
    var dbs := Matches(w, d.dbName, true, 0);
    if d.dbName == "" then Found(Top)
    else if dbs == [] then NotFound(NO_SUCH_LOGIC_DIR)
    else
      assert dbs[0] in dbs;
      if d.entryId == ZeroId() then Found(In(dbs[0], 0))
      else if d.entryId in w[dbs[0]].byId then Found(In(dbs[0], w[dbs[0]].byId[d.entryId]))
      else NotFound(NO_SUCH_LOGIC_DIR)
  }

  lemma SameName(w: World, i: nat)
    requires ValidWorld(w) && i < |w|
    ensures Matches(w, w[i].name, true, 0) != [] && Matches(w, w[i].name, true, 0)[0] == i
  {
    ExactDatabase(w, i);
    assert i in Matches(w, w[i].name, true, 0);
  }

  /** The names of a place lead back to it. */
  lemma NamesRoundTrip(w: World, p: Place)
    requires ValidWorld(w) && ValidPlace(w, p)
    ensures PlaceOf(w, NamesOf(w, p)) == Found(p)
  {
    if p.In? {
      assert ValidDatabase(w[p.db]);
      SameName(w, p.db);
      if p.node != 0 {
        assert ValidNode(w[p.db], p.node);
      }
    }
  }

  /** The pointers that belong to a place. */
  function DhOf(p: Place): Option<nat> {
    if p.Top? then None else Some(p.db)
  }

  function EntryOf(p: Place): Option<nat> {
    if p.Top? then None else Some(p.node)
  }

  class DirInfo {
    var dbName: string
    var entryId: string
    var usable: bool
    var dh: Option<nat>
    var entry: Option<nat>

    function Value(): Names
      reads this
    {
      Names(dbName, entryId)
    }

    // init_dir_info for the root directory
    constructor ()
      ensures Value() == Names("", "") && dh == None && entry == None && !usable
    {
      dbName, entryId, usable, dh, entry := "", "", false, None, None;
    }

    // copy_dir
    method CopyFrom(src: DirInfo)
      modifies this
      ensures Value() == old(src.Value()) && dh == old(src.dh) && entry == old(src.entry) && usable == old(src.usable)
    {
      dbName, entryId, usable, dh, entry := src.dbName, src.entryId, src.usable, src.dh, src.entry;
    }

    method PointToRoot()
      modifies this
      ensures Value() == Names("", "") && dh == None && entry == None && usable
    {
      dbName, entryId := "", "";
      usable, dh, entry := true, None, None;
    }

    method PointToDh(w: World, i: nat)
      requires i < |w|
      modifies this
      ensures ValidPlace(w, In(i, 0)) ==> Value() == NamesOf(w, In(i, 0))
      ensures dh == Some(i) && entry == Some(0) && usable
    {
      dbName := w[i].name;
      var zeros := "";
      for k := 0 to EID_STR_MAX
        invariant |zeros| == k && forall j :: 0 <= j < k ==> zeros[j] == '0'
      {
        zeros := zeros + "0";
      }
      assert zeros == ZeroId();
      entryId := zeros;
      dh, entry, usable := Some(i), Some(0), true;
    }

    // The database stays as it is, and so does the pointer to it.
    method PointToEntry(w: World, i: nat, k: nat)
      requires i < |w| && k < |w[i].nodes|
      modifies this`entryId, this`entry, this`usable
      ensures entryId == w[i].nodes[k].id && entry == Some(k) && usable
    {
      entryId := w[i].nodes[k].id;
      entry := Some(k);
      usable := true;
    }

    predicate PointsToRoot()
      reads this
    {
      dbName == ""
    }

    // is_pointing_to_db
    method IsPointingToDb() returns (yes: bool)
      requires |entryId| <= EID_STR_MAX
      ensures yes <==> dbName != "" && entryId == ZeroId()
    {
      if dbName == "" {
        return false;
      }
      for i := 0 to EID_STR_MAX
        invariant i <= |entryId| && forall j :: 0 <= j < i ==> entryId[j] == '0'
      {
        if CharAt(entryId, i) != '0' {
          return false;
        }
      }
      assert entryId == ZeroId();
      yes := true;
    }

    // update_dir_pointers: the pointers are looked up again from the names.
    method UpdatePointers(w: World) returns (ret: int)
      requires ValidWorld(w) && |entryId| <= EID_STR_MAX
      modifies this`dh, this`entry, this`usable
      ensures match PlaceOf(w, Value())
              case Found(p) => ret == OK && dh == DhOf(p) && entry == EntryOf(p)
              case NotFound(code) => ret == code
    {
      usable := false;
      if PointsToRoot() {
        dh, entry, usable := None, None, true;
        return OK;
      }
      var i := LookupDbName(w, dbName);
      dh := i;
      if i == None {
        return NO_SUCH_LOGIC_DIR;
      }
      var isDb := IsPointingToDb();
      if isDb {
        entry := Some(0);
      } else {
        if entryId in w[i.value].byId {
          entry := Some(w[i.value].byId[entryId]);
        } else {
          entry := None;
          return NO_SUCH_LOGIC_DIR;
        }
      }
      ret := OK;
    }
  }

  // lookup_db_name
  method LookupDbName(w: World, name: string) returns (r: Option<nat>)
    ensures var found := Matches(w, name, true, 0); r == if found == [] then None else Some(found[0])
    ensures r.Some? ==> r.value < |w|
  {
    for i := 0 to |w|
      invariant Matches(w, name, true, 0) == Matches(w, name, true, i)
    {
      if w[i].name == name {
        return Some(i);
      }
    }
    r := None;
  }
}
