/** `dir_to_path` and `path_to_dir`. */
module LogicalPath {
  import opened Util
  import opened Codes
  import opened Strings
  import opened PathText
  import opened Directory
  import opened DirectoryInfo

  // ---------------------------------------------------------------------
  // dir_to_path

  /** `a` holds `text` from its start. */
  ghost predicate Holds(a: array<char>, text: string)
    reads a
  {
    |text| <= a.Length && a[..|text|] == text
  }

  // Appending to a path, after the test of its length
  method Append(path: array<char>, pos: nat, s: string, ghost text: string) returns (ret: int, newPos: nat)
    requires path.Length == PATH_LEN_MAX + 1 && pos == |text| && Holds(path, text)
    modifies path
    ensures |text + s| > PATH_LEN_MAX ==> ret == PATH_TOO_LONG
    ensures |text + s| <= PATH_LEN_MAX ==> ret == OK && newPos == |text + s| && Holds(path, text + s)
  {
    if pos + |s| > PATH_LEN_MAX {
      return PATH_TOO_LONG, pos;
    }
    StrCpy(path, pos, s);
    ret, newPos := OK, pos + |s|;
    assert path[..newPos] == text + s;
  }

  /** The labels above `k`, and what has been written backwards from `k` up. */
  ghost predicate Backwards(db: Database, k: nat, up: nat, mode: Mode, buf: array<char>, pos: nat)
    requires ValidDatabase(db) && k < |db.nodes|
    reads buf
  {
    up < |db.nodes| && db.nodes[up].depth <= db.nodes[k].depth
    && pos <= Room(db.nodes[k].depth - db.nodes[up].depth, mode) && pos <= buf.Length
    && Climb(db, k, mode) == Climb(db, up, mode) + Reverse(buf[..pos])
  }

  lemma ClimbUp(db: Database, k: nat, mode: Mode)
    requires ValidDatabase(db) && 0 < k < |db.nodes|
    ensures var up := db.nodes[k].parent;
            up < |db.nodes| && db.nodes[k].depth == db.nodes[up].depth + 1
            && Climb(db, k, mode) == Climb(db, up, mode) + ("/" + Label(db.nodes[k], mode))
            && |Label(db.nodes[k], mode)| + 1 <= Room(1, mode)
  {
    assert ValidNode(db, k);
  }

  // One turn of the climb: label and slash, backwards
  method WriteBackwards(db: Database, k: nat, up: nat, mode: Mode, buf: array<char>, pos: nat) returns (newPos: nat)
    requires ValidDatabase(db) && k < |db.nodes| && Backwards(db, k, up, mode, buf, pos) && up != 0
    requires Room(db.nodes[k].depth, mode) < buf.Length
    modifies buf
    ensures Backwards(db, k, db.nodes[up].parent, mode, buf, newPos)
    ensures db.nodes[db.nodes[up].parent].depth < db.nodes[up].depth
  {
    hide ValidDatabase, Climb;
    ClimbUp(db, up, mode);
    var name := Label(db.nodes[up], mode);
    ghost var done := buf[..pos];
    ReverseStrCpy(buf, pos, name);
    newPos := pos + |name|;
    buf[newPos] := '/';
    newPos := newPos + 1;
    assert buf[..newPos] == done + (Reverse(name) + "/");
    ReverseConcat(done, Reverse(name) + "/");
    ReverseConcat(Reverse(name), "/");
    ReverseTwice(name);
    assert Reverse("/") == "/";
    var above := Climb(db, db.nodes[up].parent, mode);
    assert (above + ("/" + name)) + Reverse(done) == above + (("/" + name) + Reverse(done));
  }

  // "enough space": the labels are written backwards from the entry up, and the whole is reversed
  method WriteClimb(db: Database, k: nat, mode: Mode, path: array<char>, pos: nat, ghost text: string) returns (newPos: nat)
    requires ValidDatabase(db) && k < |db.nodes| && path.Length == PATH_LEN_MAX + 1 && pos == |text| && Holds(path, text)
    requires 0 < pos <= PATH_LEN_MAX && Room(db.nodes[k].depth, mode) <= PATH_LEN_MAX - pos
    modifies path
    ensures newPos == |text + Climb(db, k, mode)| <= PATH_LEN_MAX && Holds(path, text + Climb(db, k, mode))
  {
    var path2 := new char[PATH_LEN_MAX];
    var temp: nat, pos2: nat := k, 0;
    assert Climb(db, k, mode) + Reverse(path2[..0]) == Climb(db, k, mode);
    while temp != 0
      invariant Backwards(db, k, temp, mode, path2, pos2)
      invariant Holds(path, text)
      decreases if temp < |db.nodes| then db.nodes[temp].depth else 0
    {
      pos2 := WriteBackwards(db, k, temp, mode, path2, pos2);
      temp := db.nodes[temp].parent;
    }
    path2[pos2] := '\0';
    ReverseStrCpy(path, pos, path2[..pos2]);
    newPos := pos + pos2;
    assert Climb(db, k, mode) == Reverse(path2[..pos2]);
    assert path[..newPos] == text + Climb(db, k, mode);
  }

  // dir_to_path
  method DirToPath(w: World, given: DirInfo, path: array<char>, mode: Mode) returns (ret: int, len: nat)
    requires ValidWorld(w) && |given.entryId| <= EID_STR_MAX && path.Length == PATH_LEN_MAX + 1
    modifies path
    ensures match PlaceOf(w, given.Value())
            case Found(p) => ret == OK && len == |PathOf(w, p, mode)| <= PATH_LEN_MAX && Holds(path, PathOf(w, p, mode)) && path[len] == '\0'
            case NotFound(code) => ret == code
  {
    var dir := new DirInfo();
    dir.CopyFrom(given);
    len := 0;
    if dir.PointsToRoot() {
      ret, len := Append(path, 0, "/", "");
      path[len] := '\0';
      return;
    }
    ret := dir.UpdatePointers(w);
    if ret != OK {
      return;
    }
    ret, len := WritePlace(w, dir.dh.value, dir.entry.value, path, mode);
    path[len] := '\0';
  }

  // Below the root directory
  method WritePlace(w: World, d: nat, k: nat, path: array<char>, mode: Mode) returns (ret: int, len: nat)
    requires ValidWorld(w) && ValidPlace(w, In(d, k)) && path.Length == PATH_LEN_MAX + 1
    modifies path
    ensures ret == OK && len == |PathOf(w, In(d, k), mode)| <= PATH_LEN_MAX && Holds(path, PathOf(w, In(d, k), mode))
  {
    hide EntryPath, Holds;
    var db := w[d];
    ghost var text := "/" + db.name;
    ret, len := WriteDbName(db, path);
    if k != 0 {
      ret, len := WriteEntry(db, k, path, len, mode, text);
    } else {
      RootPath(db, mode);
      assert text + "" == text;
    }
  }

  lemma RootPath(db: Database, mode: Mode)
    requires ValidDatabase(db)
    ensures EntryPath(db, 0, mode) == ""
  {
  }

  method WriteDbName(db: Database, path: array<char>) returns (ret: int, len: nat)
    requires ValidDatabase(db) && path.Length == PATH_LEN_MAX + 1
    modifies path
    ensures ret == OK && len == |"/" + db.name| && Holds(path, "/" + db.name)
  {
    ret, len := Append(path, 0, "/", "");
    assert "" + "/" == "/";
    ret, len := Append(path, len, db.name, "/");
  }

  method WriteEntry(db: Database, k: nat, path: array<char>, pos: nat, mode: Mode, ghost text: string) returns (ret: int, len: nat)
    requires ValidDatabase(db) && 0 < k < |db.nodes| && path.Length == PATH_LEN_MAX + 1
    requires text == "/" + db.name && pos == |text| && Holds(path, text)
    modifies path
    ensures ret == OK && len == |text + EntryPath(db, k, mode)| <= PATH_LEN_MAX && Holds(path, text + EntryPath(db, k, mode))
  {
    assert ValidNode(db, k);
    if !db.nodes[k].hasParent {
      BranchPath(db, k, mode);
      ret, len := AppendTwo(path, pos, "/", Label(db.nodes[k], mode), text);
    } else if Room(db.nodes[k].depth, mode) > PATH_LEN_MAX - pos {
      ret, len := AppendTwo(path, pos, "/.../", Label(db.nodes[k], mode), text);
    } else {
      ret := OK;
      len := WriteClimb(db, k, mode, path, pos, text);
    }
  }

  /** The head of a branch has a path of one label. */
  lemma BranchPath(db: Database, k: nat, mode: Mode)
    requires ValidDatabase(db) && 0 < k < |db.nodes| && !db.nodes[k].hasParent
    ensures EntryPath(db, k, mode) == "/" + Label(db.nodes[k], mode)
  {
    assert ValidNode(db, k);
    assert Climb(db, 0, mode) + ("/" + Label(db.nodes[k], mode)) == "/" + Label(db.nodes[k], mode);
  }

  method AppendTwo(path: array<char>, pos: nat, a: string, b: string, ghost text: string) returns (ret: int, len: nat)
    requires path.Length == PATH_LEN_MAX + 1 && pos == |text| && Holds(path, text) && |text| + |a| + |b| <= PATH_LEN_MAX
    modifies path
    ensures ret == OK && len == |text + (a + b)| && Holds(path, text + (a + b))
  {
    ret, len := Append(path, pos, a, text);
    ret, len := Append(path, len, b, text + a);
    assert text + a + b == text + (a + b);
  }

  // ---------------------------------------------------------------------
  // path_to_dir

  // "do partial lookup": stops at the second match
  method PartialLookup(w: World, text: string) returns (count: nat, i: nat)
    ensures var part := Matches(w, text, false, 0); count == (if |part| < 2 then |part| else 2) && (count == 1 ==> part == [i] && i < |w|)
  {
    count, i := 0, 0;
    ghost var found: seq<nat> := [];
    for j := 0 to |w|
      invariant Matches(w, text, false, 0) == found + Matches(w, text, false, j)
      invariant |found| == count <= 1 && (count == 1 ==> found == [i] && i < |w|)
    {
      assert found + ([j] + Matches(w, text, false, j + 1)) == (found + [j]) + Matches(w, text, false, j + 1);
      assert found + ([] + Matches(w, text, false, j + 1)) == found + Matches(w, text, false, j + 1);
      if Contains(w[j].name, text) {
        count, i, found := count + 1, j, found + [j];
        if count > 1 {
          break;
        }
      }
    }
    assert found + [] == found;
  }

  /** The names in `dir` are those of `p`, and below the root directory the entry pointer is right. */
  ghost predicate At(w: World, p: Place, dir: DirInfo)
    requires ValidWorld(w)
    reads dir
  {
    PlaceOf(w, dir.Value()) == Found(p) && |dir.entryId| <= EID_STR_MAX && (p.In? ==> dir.entry == Some(p.node))
  }

  /** The database pointer is right as well. */
  ghost predicate Synced(p: Place, dir: DirInfo)
    reads dir
  {
    p.In? ==> dir.dh == Some(p.db)
  }

  /** The outcome of going somewhere; `sync` tells whether the database pointer is sure to be right. */
  ghost predicate Arrived(w: World, r: Result, ret: int, dir: DirInfo, sync: bool)
    requires ValidWorld(w)
    reads dir
  {
    match r
    case Found(p) => ret == OK && At(w, p, dir) && (sync ==> Synced(p, dir))
    case NotFound(code) => ret == code && code != OK
  }

  // Pointing to the database that a name stands for
  method GoToDatabase(w: World, text: string, dir: DirInfo) returns (ret: int)
    requires ValidWorld(w)
    modifies dir
    ensures Arrived(w, FindDatabase(w, text), ret, dir, true)
  {
    forall i | 0 <= i < |w| ensures PlaceOf(w, NamesOf(w, In(i, 0))) == Found(In(i, 0)) {
      assert ValidDatabase(w[i]);
      NamesRoundTrip(w, In(i, 0));
    }
    var exact := LookupDbName(w, text);
    if exact != None {
      dir.PointToDh(w, exact.value);
      return OK;
    }
    var count, i := PartialLookup(w, text);
    if count == 0 {
      return NO_SUCH_LOGIC_DIR;
    }
    if count > 1 {
      return FOUND_DUPLICATE;
    }
    dir.PointToDh(w, i);
    ret := OK;
  }

  method UpperToLowerCase(s: string) returns (r: string)
    ensures r == Lower(s)
  {
    r := s;
    for i := 0 to |s|
      invariant |r| == |s| && forall j :: 0 <= j < |s| ==> r[j] == if j < i then LowerChar(s[j]) else s[j]
    {
      if 'A' <= r[i] <= 'F' {
        r := r[i := r[i] + 32 as char];
      }
    }
  }

  // The sequential search on the children, with a buffer for two
  method ScanChildren(db: Database, child: seq<nat>, text: string, exact: bool, mode: Mode) returns (used: nat, first: nat)
    requires forall j :: 0 <= j < |child| ==> child[j] < |db.nodes|
    ensures var all := Filter(db, child, text, exact, mode); used == (if |all| < 2 then |all| else 2) && (used > 0 ==> first == all[0])
  {
    hide Filter;
    used, first := 0, 0;
    ghost var found: seq<nat> := [];
    FilterEnds(db, child, text, exact, mode);
    for i := 0 to |child|
      invariant Filter(db, child, text, exact, mode) == found + Filter(db, child[i..], text, exact, mode)
      invariant used == |found| < 2 && (used > 0 ==> first == found[0])
    {
      FilterStep(db, child, i, text, exact, mode, found);
      var name := Label(db.nodes[child[i]], mode);
      if (exact && name == text) || (!exact && Contains(name, text)) {
        if used == 0 {
          first := child[i];
        }
        used, found := used + 1, found + [child[i]];
        if used == 2 {
          break;
        }
      }
    }
  }

  lemma FilterEnds(db: Database, child: seq<nat>, text: string, exact: bool, mode: Mode)
    requires forall j :: 0 <= j < |child| ==> child[j] < |db.nodes|
    ensures Filter(db, child, text, exact, mode) == [] + Filter(db, child[0..], text, exact, mode)
    ensures Filter(db, child[|child|..], text, exact, mode) == []
  {
    assert child[0..] == child;
  }

  lemma FilterStep(db: Database, child: seq<nat>, i: nat, text: string, exact: bool, mode: Mode, found: seq<nat>)
    requires i < |child| && forall j :: 0 <= j < |child| ==> child[j] < |db.nodes|
    ensures var name := Label(db.nodes[child[i]], mode);
            found + Filter(db, child[i..], text, exact, mode)
            == (if (if exact then name == text else Contains(name, text)) then found + [child[i]] else found) + Filter(db, child[i + 1..], text, exact, mode)
  {
    var rest := Filter(db, child[i + 1..], text, exact, mode);
    assert child[i..][0] == child[i] && child[i..][1..] == child[i + 1..];
    assert found + ([child[i]] + rest) == (found + [child[i]]) + rest;
    assert [] + rest == rest;
  }

  // find_children_via_file_name and find_children_via_entry_id_part, searching the children in sequence
  method FindChildren(db: Database, k: nat, text: string, mode: Mode) returns (used: nat, first: nat)
    requires ValidDatabase(db) && k < |db.nodes|
    ensures var all := Candidates(db, k, text, mode); used == (if |all| < 2 then |all| else 2) && (used > 0 ==> first == all[0] && first in all)
  {
    hide Filter;
    assert ValidChildren(db, k);
    var lower := UpperToLowerCase(text);
    used, first := 0, 0;
    if mode == ByName && text in db.names {
      used, first := ScanChildren(db, db.nodes[k].child, text, true, ByName);
    } else if mode == ById && lower in db.byId {
      first := db.byId[lower];
      used := if db.nodes[first].parent == k then 1 else 0;
    } else if text != "" {
      used, first := ScanChildren(db, db.nodes[k].child, if mode == ByName then text else lower, false, mode);
    }
  }

  /** Another entry of the same database. */
  lemma MovedWithin(w: World, d: Names, i: nat, j: nat, k: nat)
    requires ValidWorld(w) && PlaceOf(w, d) == Found(In(i, j)) && 0 < k < |w[i].nodes|
    ensures PlaceOf(w, Names(d.dbName, w[i].nodes[k].id)) == Found(In(i, k)) && |w[i].nodes[k].id| == EID_STR_MAX
  {
    assert ValidNode(w[i], k);
  }

  method GoToEntry(w: World, i: nat, k: nat, dir: DirInfo, ghost j: nat)
    requires ValidWorld(w) && i < |w| && 0 < k < |w[i].nodes| && PlaceOf(w, dir.Value()) == Found(In(i, j))
    modifies dir`entryId, dir`entry, dir`usable
    ensures At(w, In(i, k), dir)
  {
    MovedWithin(w, dir.Value(), i, j, k);
    dir.PointToEntry(w, i, k);
  }

  // ".."
  method GoUp(w: World, here: DirInfo, dir: DirInfo, ghost at: Place, ghost sync: bool)
    requires ValidWorld(w) && here != dir && ValidPlace(w, at) && At(w, at, here) && Synced(at, here)
    requires dir.Value() == here.Value() && (sync ==> at.In? ==> dir.dh == here.dh)
    modifies dir
    ensures At(w, Up(w, at), dir) && (sync ==> Synced(Up(w, at), dir))
  {
    if here.PointsToRoot() {
      return;
    }
    var d, k := here.dh.value, here.entry.value;
    assert ValidDatabase(w[d]);
    var isDb := here.IsPointingToDb();
    IsDbIff(w, here.Value(), d, k);
    if isDb {
      dir.PointToRoot();
      return;
    }
    assert ValidNode(w[d], k);
    if !w[d].nodes[k].hasParent {
      NamesRoundTrip(w, In(d, 0));
      dir.PointToDh(w, d);
    } else {
      GoToEntry(w, d, w[d].nodes[k].parent, dir, k);
    }
  }

  lemma IsDbIff(w: World, d: Names, i: nat, k: nat)
    requires ValidWorld(w) && PlaceOf(w, d) == Found(In(i, k))
    ensures d.entryId == ZeroId() <==> k == 0
  {
  }

  // A component other than "." and ".."
  method GoDown(w: World, here: DirInfo, text: string, dir: DirInfo, mode: Mode, ghost at: Place, ghost sync: bool) returns (ret: int)
    requires ValidWorld(w) && here != dir && ValidPlace(w, at) && At(w, at, here) && Synced(at, here)
    requires dir.Value() == here.Value() && (sync ==> at.In? ==> dir.dh == here.dh)
    modifies dir
    ensures Arrived(w, if at.Top? then FindDatabase(w, text) else ChildOf(w, at, text, mode), ret, dir, sync)
  {
    if here.PointsToRoot() {
      ret := GoToDatabase(w, text, dir);
      return;
    }
    var d, k := here.dh.value, here.entry.value;
    var used, first := FindChildren(w[d], k, text, mode);
    if used == 0 {
      return NO_SUCH_LOGIC_DIR;
    }
    if used > 1 {
      return FOUND_DUPLICATE;
    }
    GoToEntry(w, d, first, dir, k);
    ret := OK;
  }

  /** May the database pointer of the outcome be trusted? An absolute path sets it; a relative one only moves
      the entry pointer within a database, so what `cur` had is kept. */
  ghost predicate Trusted(w: World, cur: DirInfo, path: string)
    requires ValidWorld(w)
    reads cur
  {
    (path != "" && path[0] == '/') || (PlaceOf(w, cur.Value()).Found? ==> Synced(PlaceOf(w, cur.Value()).at, cur))
  }

  // path_to_dir; `cur` may be `dir` itself.
  method PathToDir(w: World, cur: DirInfo, path: string, dir: DirInfo, mode: Mode) returns (ret: int)
    requires ValidWorld(w) && |cur.entryId| <= EID_STR_MAX
    modifies dir
    ensures |path| > PATH_LEN_MAX ==> ret == VERIFY_FAIL
    ensures |path| <= PATH_LEN_MAX ==>
      Arrived(w, Resolve(w, old(PlaceOf(w, cur.Value())), path, mode), ret, dir, old(Trusted(w, cur, path)))
    decreases |path|
  {
    if |path| > PATH_LEN_MAX {
      return VERIFY_FAIL;
    }
    var here := new DirInfo();
    here.CopyFrom(cur);
    if |path| == 0 {
      return EMPTY_PATH;
    }
    dir.CopyFrom(here);
    if path[0] == '/' {
      ret := FromRoot(w, path, dir, mode, old(PlaceOf(w, cur.Value())));
    } else {
      ret := FromHere(w, here, path, dir, mode, old(Trusted(w, cur, path)));
    }
  }

  // "absolute path"
  method FromRoot(w: World, path: string, dir: DirInfo, mode: Mode, ghost start: Result) returns (ret: int)
    requires ValidWorld(w) && ValidResult(w, start) && 0 < |path| <= PATH_LEN_MAX && path[0] == '/'
    modifies dir
    ensures Arrived(w, Resolve(w, start, path, mode), ret, dir, true)
    decreases |path|, 0
  {
    if |path| == 1 {
      dir.PointToRoot();
      return OK;
    }
    if |w| == 0 {
      return NO_SUCH_LOGIC_DIR;
    }
    var t;
    ret, t := GrabUntilSep(path[1..], |path| - 1, true, '/');
    GrabStops(path[1..], Bare, true, '/');
    if t.read > FILE_NAME_MAX {
      return NO_SUCH_LOGIC_DIR;
    }
    assert Resolve(w, start, path, mode) == Onward(w, FindDatabase(w, t.text), path[1 + t.read..], mode);
    ret := GoToDatabase(w, t.text, dir);
    if ret != OK {
      return;
    }
    ret := GoOn(w, path[1 + t.read..], dir, mode, FindDatabase(w, t.text), true);
  }

  // "relative path"
  method FromHere(w: World, here: DirInfo, path: string, dir: DirInfo, mode: Mode, ghost sync: bool) returns (ret: int)
    requires ValidWorld(w) && here != dir && |here.entryId| <= EID_STR_MAX && 0 < |path| <= PATH_LEN_MAX && path[0] != '/'
    requires dir.Value() == here.Value() && dir.dh == here.dh
    requires sync ==> PlaceOf(w, here.Value()).Found? ==> Synced(PlaceOf(w, here.Value()).at, here)
    modifies here, dir
    ensures Arrived(w, Resolve(w, old(PlaceOf(w, here.Value())), path, mode), ret, dir, sync)
    decreases |path|, 0
  {
    if !here.PointsToRoot() {
      ret := here.UpdatePointers(w);
      if ret != OK {
        return;
      }
    }
    ghost var at := PlaceOf(w, here.Value()).at;
    var t;
    ret, t := GrabUntilSep(path, |path|, true, '/');
    GrabStops(path, Bare, true, '/');
    if (mode == ByName && t.read > FILE_NAME_MAX) || (mode == ById && t.read > EID_STR_MAX) {
      return NO_SUCH_LOGIC_DIR;
    }
    assert Resolve(w, Found(at), path, mode) == Onward(w, Step(w, at, t, mode), path[t.read..], mode);
    ret := Go(w, here, t, dir, mode, at, sync);
    if ret != OK {
      return;
    }
    ret := GoOn(w, path[t.read..], dir, mode, Step(w, at, t, mode), sync);
  }

  // One component
  method Go(w: World, here: DirInfo, t: Token, dir: DirInfo, mode: Mode, ghost at: Place, ghost sync: bool) returns (ret: int)
    requires ValidWorld(w) && here != dir && ValidPlace(w, at) && At(w, at, here) && Synced(at, here)
    requires dir.Value() == here.Value() && (sync ==> at.In? ==> dir.dh == here.dh)
    modifies dir
    ensures Arrived(w, Step(w, at, t, mode), ret, dir, sync)
  {
    if t.read == 1 && t.text == "." {
      dir.CopyFrom(here);
      ret := OK;
    } else if t.read == 2 && t.text == ".." {
      GoUp(w, here, dir, at, sync);
      ret := OK;
    } else {
      ret := GoDown(w, here, t.text, dir, mode, at, sync);
    }
  }

  // "check if we're done", and the rest of the path if not
  method GoOn(w: World, rest: string, dir: DirInfo, mode: Mode, ghost from: Result, ghost sync: bool) returns (ret: int)
    requires ValidWorld(w) && ValidResult(w, from) && from.Found? && |rest| <= PATH_LEN_MAX + 1
    requires At(w, from.at, dir) && (sync ==> Synced(from.at, dir))
    modifies dir
    ensures Arrived(w, Onward(w, from, rest, mode), ret, dir, sync)
    decreases |rest|, 0
  {
    if |rest| == 0 || |rest| == 1 {
      return OK;
    }
    ret := PathToDir(w, dir, rest[1..], dir, mode);
  }

  // The path of a directory, followed from anywhere, leads back to the directory.
  method ThereAndBack(w: World, given: DirInfo, cur: DirInfo, dir: DirInfo, mode: Mode, ghost p: Place) returns (ret: int)
    requires ValidWorld(w) && |given.entryId| <= EID_STR_MAX && |cur.entryId| <= EID_STR_MAX && PlaceOf(w, given.Value()) == Found(p)
    requires p.In? ==> Verbatim(w[p.db].name, true, '/') && !Elided(w[p.db], p.node, mode) && (mode == ByName ==> Clear(w[p.db], p.node))
    modifies dir
    ensures ret == OK && At(w, p, dir) && Synced(p, dir)
  {
    var path := new char[PATH_LEN_MAX + 1];
    var len;
    ret, len := DirToPath(w, given, path, mode);
    PathRoundTrip(w, PlaceOf(w, cur.Value()), p, mode);
    assert path[..len] == PathOf(w, p, mode);
    assert PathOf(w, p, mode)[0] == '/';
    ret := PathToDir(w, cur, path[..len], dir, mode);
  }
}
