/** Logical directories: `dir_to_path`, `path_to_dir` and the `dir_info` they work on. The databases are only
    read here, so they are values; an entry is a place in its database's pool, place 0 the root of the tree. */
module Directory {
  import opened Util
  import Lists
  import opened Codes
  import opened Strings
  import opened PathText

  const EID_STR_MAX: nat := 16
  const PATH_LEN_MAX: nat := 1024

  datatype Node = Node(id: string, name: string, hasParent: bool, parent: nat, depth: nat, child: seq<nat>)

  /** `byId` and `names` are what the hash tables of ids and file names know. */
  datatype Database = Database(name: string, nodes: seq<Node>, byId: map<string, nat>, names: set<string>)

  /** The databases of `root_dir`, in the order they were added. */
  type World = seq<Database>

  datatype Mode = ByName | ById

  /** Where a directory is: above all databases, or at an entry of one. */
  datatype Place = Top | In(db: nat, node: nat)

  datatype Result = Found(at: Place) | NotFound(code: int)

  // ---------------------------------------------------------------------
  // What the databases keep

  predicate IsLowerHex(s: string) {
    forall i :: 0 <= i < |s| ==> '0' <= s[i] <= '9' || 'a' <= s[i] <= 'f'
  }

  function ZeroId(): (s: string)
    ensures |s| == EID_STR_MAX
  {
    seq(EID_STR_MAX, _ => '0')
  }

  ghost predicate ValidNode(db: Database, k: nat)
    requires 0 < k < |db.nodes|
  {
    var n := db.nodes[k];
    n.parent < |db.nodes| && n.depth == db.nodes[n.parent].depth + 1 && n.hasParent == (n.parent != 0)
    && k in db.nodes[n.parent].child
    && |n.id| == EID_STR_MAX && IsLowerHex(n.id) && n.id != ZeroId() && n.id in db.byId && db.byId[n.id] == k
    && n.name in db.names && |n.name| <= FILE_NAME_MAX
  }

  ghost predicate ValidChildren(db: Database, k: nat)
    requires k < |db.nodes|
  {
    var c := db.nodes[k].child;
    (forall j :: 0 <= j < |c| ==> 0 < c[j] < |db.nodes| && db.nodes[c[j]].parent == k)
    && Lists.Distinct(c)
  }

  ghost predicate ValidDatabase(db: Database) {
    0 < |db.nodes| && db.nodes[0].depth == 0 && !db.nodes[0].hasParent
    && (forall k :: 0 < k < |db.nodes| ==> ValidNode(db, k))
    && (forall k :: 0 <= k < |db.nodes| ==> ValidChildren(db, k))
    && (forall x :: x in db.byId ==> 0 < db.byId[x] < |db.nodes| && db.nodes[db.byId[x]].id == x)
    && 0 < |db.name| <= FILE_NAME_MAX
  }

  ghost predicate ValidWorld(w: World) {
    (forall i :: 0 <= i < |w| ==> ValidDatabase(w[i])) && forall i, j :: 0 <= i < j < |w| ==> w[i].name != w[j].name
  }

  ghost predicate ValidPlace(w: World, p: Place) {
    p.In? ==> p.db < |w| && p.node < |w[p.db].nodes|
  }

  ghost predicate ValidResult(w: World, r: Result) {
    r.Found? ==> ValidPlace(w, r.at)
  }

  // ---------------------------------------------------------------------
  // Finding a database

  /** The databases, from the `i`-th on, whose name is the text or contains it. */
  function Matches(w: World, text: string, exact: bool, i: nat): (r: seq<nat>)
    requires i <= |w|
    ensures forall x :: x in r ==> i <= x < |w| && if exact then w[x].name == text else Contains(w[x].name, text)
    ensures forall x :: i <= x < |w| && (if exact then w[x].name == text else Contains(w[x].name, text)) ==> x in r
    decreases |w| - i
  {
    if i == |w| then []
    else (if (if exact then w[i].name == text else Contains(w[i].name, text)) then [i] else []) + Matches(w, text, exact, i + 1)
  }

  /** The code for none, or for several. */
  function PickCode(found: seq<nat>): int {
    if found == [] then NO_SUCH_LOGIC_DIR else FOUND_DUPLICATE
  }

  /** An exact name wins; otherwise the only name that contains the text. */
  function FindDatabase(w: World, text: string): (r: Result)
    requires ValidWorld(w)
    ensures ValidResult(w, r)
  {
    var exact, part := Matches(w, text, true, 0), Matches(w, text, false, 0);
    if exact != [] then (assert exact[0] in exact; Found(In(exact[0], 0)))
    else if |part| == 1 then (assert part[0] in part; Found(In(part[0], 0)))
    else NotFound(PickCode(part))
  }

  // ---------------------------------------------------------------------
  // Finding a child

  function LowerChar(c: char): char {
    if 'A' <= c <= 'F' then c + 32 as char else c
  }

  // upper_to_lower_case: hexadecimal digits only
  function Lower(s: string): (r: string)
    ensures |r| == |s|
  {
    seq(|s|, i requires 0 <= i < |s| => LowerChar(s[i]))
  }

  function Label(n: Node, mode: Mode): string {
    if mode == ByName then n.name else n.id
  }

  /** The members of `list` whose label is the text or contains it. */
  function Filter(db: Database, list: seq<nat>, text: string, exact: bool, mode: Mode): (r: seq<nat>)
    requires forall j :: 0 <= j < |list| ==> list[j] < |db.nodes|
    ensures forall x :: x in r <==> x in list && if exact then Label(db.nodes[x], mode) == text else Contains(Label(db.nodes[x], mode), text)
  {
    if list == [] then []
    else
      (if (if exact then Label(db.nodes[list[0]], mode) == text else Contains(Label(db.nodes[list[0]], mode), text)) then [list[0]] else [])
      + Filter(db, list[1..], text, exact, mode)
  }

  /** The children of `k` that the text stands for: the one with that id, or those named so, if the database
      knows the id or the name at all; otherwise those that contain it. The index finds nothing for "". */
  function Candidates(db: Database, k: nat, text: string, mode: Mode): (r: seq<nat>)
    requires ValidDatabase(db) && k < |db.nodes|
    ensures forall x :: x in r ==> 0 < x < |db.nodes|
  {
    assert ValidChildren(db, k);
    if mode == ByName && text in db.names then Filter(db, db.nodes[k].child, text, true, ByName)
    else if mode == ById && Lower(text) in db.byId then (if db.nodes[db.byId[Lower(text)]].parent == k then [db.byId[Lower(text)]] else [])
    else if text == "" then []
    else Filter(db, db.nodes[k].child, if mode == ByName then text else Lower(text), false, mode)
  }

  function ChildOf(w: World, at: Place, text: string, mode: Mode): (r: Result)
    requires ValidWorld(w) && at.In? && ValidPlace(w, at)
    ensures ValidResult(w, r)
  {
    var found := Candidates(w[at.db], at.node, text, mode);
    assert ValidChildren(w[at.db], at.node);
    if |found| == 1 then (assert found[0] in found; Found(In(at.db, found[0]))) else NotFound(PickCode(found))
  }

  // ---------------------------------------------------------------------
  // Resolving a path

  function Limit(mode: Mode): nat {
    if mode == ByName then FILE_NAME_MAX else EID_STR_MAX
  }

  /** "..": out of the database at its root and above. */
  function Up(w: World, at: Place): (p: Place)
    requires ValidWorld(w) && ValidPlace(w, at)
    ensures ValidPlace(w, p)
  {
    if at.Top? || at.node == 0 then Top
    else
      assert ValidNode(w[at.db], at.node);
      if !w[at.db].nodes[at.node].hasParent then In(at.db, 0) else In(at.db, w[at.db].nodes[at.node].parent)
  }

  function Step(w: World, at: Place, t: Token, mode: Mode): (r: Result)
    requires ValidWorld(w) && ValidPlace(w, at)
    ensures ValidResult(w, r)
  {
    if t == Token(".", 1) then Found(at)
    else if t == Token("..", 2) then Found(Up(w, at))
    else if at.Top? then FindDatabase(w, t.text)
    else ChildOf(w, at, t.text, mode)
  }

  /** What a path means, from `start` on. */
  function Resolve(w: World, start: Result, path: string, mode: Mode): (r: Result)
    requires ValidWorld(w) && ValidResult(w, start)
    ensures ValidResult(w, r)
    decreases |path|, 1
  {
    if path == "" then NotFound(EMPTY_PATH)
    else if path[0] == '/' then
      var t := Grab(path[1..], Bare, true, '/');
      GrabStops(path[1..], Bare, true, '/');
      if |path| == 1 then Found(Top)
      else if w == [] || t.read > FILE_NAME_MAX then NotFound(NO_SUCH_LOGIC_DIR)
      else Onward(w, FindDatabase(w, t.text), path[1 + t.read..], mode)
    else if start.NotFound? then start
    else
      var t := Grab(path, Bare, true, '/');
      GrabStops(path, Bare, true, '/');
      if t.read > Limit(mode) then NotFound(NO_SUCH_LOGIC_DIR) else Onward(w, Step(w, start.at, t, mode), path[t.read..], mode)
  }

  /** The rest of a path, its leading slash included; a trailing slash is ignored. */
  function Onward(w: World, from: Result, rest: string, mode: Mode): (r: Result)
    requires ValidWorld(w) && ValidResult(w, from)
    ensures ValidResult(w, r)
    decreases |rest|, 0
  {
    if from.NotFound? || |rest| <= 1 then from else Resolve(w, from, rest[1..], mode)
  }

  // ---------------------------------------------------------------------
  // The text of a path

  /** The labels from the top of the tree down to `k`, a slash before each. */
  function Climb(db: Database, k: nat, mode: Mode): (r: string)
    requires ValidDatabase(db) && k < |db.nodes|
    ensures |r| <= Room(db.nodes[k].depth, mode)
    decreases db.nodes[k].depth
  {
    if k == 0 then ""
    else
      assert ValidNode(db, k);
      Climb(db, db.nodes[k].parent, mode) + ("/" + Label(db.nodes[k], mode))
  }

  /** The upper bound that dir_to_path takes for `depth` labels. */
  function Room(depth: nat, mode: Mode): nat {
    if mode == ByName then depth * 261 else depth * 17
  }

  /** Too deep: only the last label is written. */
  predicate Elided(db: Database, k: nat, mode: Mode)
    requires k < |db.nodes|
  {
    db.nodes[k].hasParent && Room(db.nodes[k].depth, mode) > PATH_LEN_MAX - (1 + |db.name|)
  }

  function EntryPath(db: Database, k: nat, mode: Mode): string
    requires ValidDatabase(db) && k < |db.nodes|
  {
    if Elided(db, k, mode) then "/.../" + Label(db.nodes[k], mode) else Climb(db, k, mode)
  }

  function PathOf(w: World, p: Place, mode: Mode): string
    requires ValidWorld(w) && ValidPlace(w, p)
  {
    if p.Top? then "/" else "/" + w[p.db].name + EntryPath(w[p.db], p.node, mode)
  }

  // ---------------------------------------------------------------------
  // The round trip

  /** A component that path_to_dir takes for a name as it is written. */
  predicate PlainName(s: string) {
    s != "" && s != "." && s != ".." && Verbatim(s, true, '/')
  }

  /** No sibling has the same label. */
  ghost predicate Sole(db: Database, k: nat, mode: Mode)
    requires ValidDatabase(db) && 0 < k < |db.nodes|
  {
    forall j :: 0 < j < |db.nodes| && db.nodes[j].parent == db.nodes[k].parent && Label(db.nodes[j], mode) == Label(db.nodes[k], mode) ==> j == k
  }

  /** Every name from the top of the tree to `k` is plain and unique among its siblings. */
  ghost predicate Clear(db: Database, k: nat)
    requires ValidDatabase(db) && k < |db.nodes|
    decreases db.nodes[k].depth
  {
    k == 0 || (assert ValidNode(db, k); PlainName(db.nodes[k].name) && Sole(db, k, ByName) && Clear(db, db.nodes[k].parent))
  }

  lemma {:induction false} OnlyOne(db: Database, list: seq<nat>, text: string, mode: Mode, k: nat)
    requires forall j :: 0 <= j < |list| ==> list[j] < |db.nodes|
    requires Lists.Distinct(list)
    requires k in list && Label(db.nodes[k], mode) == text
    requires forall j :: 0 <= j < |list| && Label(db.nodes[list[j]], mode) == text ==> list[j] == k
    ensures Filter(db, list, text, true, mode) == [k]
  {
    Lists.FoundOnce(list, 0);
    if list[0] == k {
      NoneLeft(db, list[1..], text, mode);
    } else {
      Lists.SliceDistinct(list, 1, |list|);
      OnlyOne(db, list[1..], text, mode, k);
    }
  }

  lemma {:induction false} NoneLeft(db: Database, list: seq<nat>, text: string, mode: Mode)
    requires forall j :: 0 <= j < |list| ==> list[j] < |db.nodes| && Label(db.nodes[list[j]], mode) != text
    ensures Filter(db, list, text, true, mode) == []
  {
    if list != [] {
      NoneLeft(db, list[1..], text, mode);
    }
  }

  lemma LowerId(s: string)
    requires IsLowerHex(s)
    ensures Lower(s) == s
  {
  }

  /** The label of an entry leads from its parent to it. */
  lemma LabelFinds(w: World, d: nat, k: nat, mode: Mode)
    requires ValidWorld(w) && d < |w| && 0 < k < |w[d].nodes| && (mode == ByName ==> Sole(w[d], k, ByName))
    ensures ValidNode(w[d], k)
    ensures ChildOf(w, In(d, w[d].nodes[k].parent), Label(w[d].nodes[k], mode), mode) == Found(In(d, k))
  {
    var db := w[d];
    assert ValidNode(db, k);
    if mode == ById {
      LowerId(db.nodes[k].id);
    } else {
      assert ValidChildren(db, db.nodes[k].parent);
      OnlyOne(db, db.nodes[db.nodes[k].parent].child, db.nodes[k].name, ByName, k);
    }
  }

  lemma HexIsPlain(s: string)
    requires IsLowerHex(s) && |s| == EID_STR_MAX
    ensures PlainName(s)
  {
    assert s[0] != '.';
  }

  lemma NodeFacts(w: World, d: nat, k: nat)
    requires ValidWorld(w) && d < |w| && 0 < k < |w[d].nodes|
    ensures ValidDatabase(w[d]) && ValidNode(w[d], k)
  {
  }

  lemma LabelIsPlain(w: World, d: nat, k: nat, mode: Mode)
    requires ValidWorld(w) && d < |w| && 0 < k < |w[d].nodes| && (mode == ByName ==> PlainName(w[d].nodes[k].name))
    ensures PlainName(Label(w[d].nodes[k], mode)) && |Label(w[d].nodes[k], mode)| <= Limit(mode) && Label(w[d].nodes[k], mode)[0] != '/'
  {
    assert ValidNode(w[d], k);
    if mode == ById {
      HexIsPlain(w[d].nodes[k].id);
    }
  }

  /** One component and what follows it. */
  lemma OneDown(w: World, d: nat, k: nat, mode: Mode, tail: string)
    requires ValidWorld(w) && d < |w| && 0 < k < |w[d].nodes| && (tail == "" || tail[0] == '/')
    requires mode == ByName ==> PlainName(w[d].nodes[k].name) && Sole(w[d], k, ByName)
    ensures ValidNode(w[d], k)
    ensures Onward(w, Found(In(d, w[d].nodes[k].parent)), "/" + Label(w[d].nodes[k], mode) + tail, mode) == Onward(w, Found(In(d, k)), tail, mode)
  {
    hide ChildOf, Grab, Label, ValidWorld, Verbatim;
    NodeFacts(w, d, k);
    var c := Label(w[d].nodes[k], mode);
    LabelIsPlain(w, d, k, mode);
    GrabComponent(c, tail, true, '/');
    LabelFinds(w, d, k, mode);
    var rest := "/" + c + tail;
    assert rest[1..] == c + tail && (c + tail)[0] == c[0] && (c + tail)[|c|..] == tail;
  }

  lemma {:induction false} ClimbResolves(w: World, d: nat, k: nat, mode: Mode, tail: string)
    requires ValidWorld(w) && d < |w| && k < |w[d].nodes| && (tail == "" || tail[0] == '/')
    requires mode == ByName ==> Clear(w[d], k)
    ensures Onward(w, Found(In(d, 0)), Climb(w[d], k, mode) + tail, mode) == Onward(w, Found(In(d, k)), tail, mode)
    decreases w[d].nodes[k].depth
  {
    if k == 0 {
      assert "" + tail == tail;
    } else {
      assert ValidNode(w[d], k);
      var up, c := w[d].nodes[k].parent, "/" + Label(w[d].nodes[k], mode);
      assert Climb(w[d], up, mode) + c + tail == Climb(w[d], up, mode) + (c + tail);
      ClimbResolves(w, d, up, mode, c + tail);
      OneDown(w, d, k, mode, tail);
    }
  }

  lemma ExactDatabase(w: World, d: nat)
    requires ValidWorld(w) && d < |w|
    ensures FindDatabase(w, w[d].name) == Found(In(d, 0))
  {
    var exact := Matches(w, w[d].name, true, 0);
    assert d in exact;
    assert exact[0] in exact;
  }

  /** The database name in front, and what follows it. */
  lemma IntoDatabase(w: World, start: Result, d: nat, mode: Mode, tail: string)
    requires ValidWorld(w) && ValidResult(w, start) && d < |w| && Verbatim(w[d].name, true, '/') && (tail == "" || tail[0] == '/')
    ensures Resolve(w, start, "/" + w[d].name + tail, mode) == Onward(w, Found(In(d, 0)), tail, mode)
  {
    var name := w[d].name;
    assert ValidDatabase(w[d]);
    var path := "/" + name + tail;
    assert path[1..] == name + tail && path[1 + |name|..] == tail;
    GrabComponent(name, tail, true, '/');
    ExactDatabase(w, d);
  }

  /** The path of a place leads back to it from anywhere: in id mode always, in file name mode when the names
      on the way are plain and no sibling has the same; the path must not be elided. */
  lemma PathRoundTrip(w: World, start: Result, p: Place, mode: Mode)
    requires ValidWorld(w) && ValidResult(w, start) && ValidPlace(w, p)
    requires p.In? ==> Verbatim(w[p.db].name, true, '/') && !Elided(w[p.db], p.node, mode) && (mode == ByName ==> Clear(w[p.db], p.node))
    ensures Resolve(w, start, PathOf(w, p, mode), mode) == Found(p)
  {
    if p.In? {
      var db := w[p.db];
      var tail := Climb(db, p.node, mode);
      assert tail + "" == tail;
      if p.node != 0 {
        ClimbHead(db, p.node, mode);
      }
      IntoDatabase(w, start, p.db, mode, tail);
      ClimbResolves(w, p.db, p.node, mode, "");
    }
  }

  /** "/.." after the path of a place leads one level up from it. */
  lemma DotDot(w: World, start: Result, p: Place, mode: Mode)
    requires ValidWorld(w) && ValidResult(w, start) && ValidPlace(w, p) && p.In?
    requires Verbatim(w[p.db].name, true, '/') && !Elided(w[p.db], p.node, mode) && (mode == ByName ==> Clear(w[p.db], p.node))
    ensures Resolve(w, start, PathOf(w, p, mode) + "/..", mode) == Found(Up(w, p))
  {
    var db := w[p.db];
    var climb := Climb(db, p.node, mode);
    if p.node != 0 {
      ClimbHead(db, p.node, mode);
    }
    assert PathOf(w, p, mode) + "/.." == "/" + db.name + (climb + "/..");
    IntoDatabase(w, start, p.db, mode, climb + "/..");
    ClimbResolves(w, p.db, p.node, mode, "/..");
    GrabComponent("..", "", true, '/');
    assert ".." + "" == "..";
    assert Step(w, p, Token("..", 2), mode) == Found(Up(w, p));
    assert "/.."[1..] == ".." && ".."[2..] == "";
    assert Resolve(w, Found(p), "..", mode) == Onward(w, Found(Up(w, p)), "", mode);
  }

  lemma {:induction false} ClimbHead(db: Database, k: nat, mode: Mode)
    requires ValidDatabase(db) && 0 < k < |db.nodes|
    ensures Climb(db, k, mode) != "" && Climb(db, k, mode)[0] == '/'
    decreases db.nodes[k].depth
  {
    assert ValidNode(db, k);
    if db.nodes[k].parent != 0 {
      ClimbHead(db, db.nodes[k].parent, mode);
    }
  }

  lemma HexHasNoDots(id: string)
    requires IsLowerHex(id)
    ensures !Contains(id, "...")
  {
    forall p | 0 <= p <= |id| ensures !OccursAt(id, "...", p) {
      if p + 3 <= |id| {
        assert id[p..p + 3][0] == id[p];
      }
    }
  }

  lemma FirstIsIn(r: seq<nat>)
    requires r != []
    ensures r[0] in r
  {
  }

  lemma EmptyList(r: seq<nat>)
    requires forall x :: x !in r
    ensures r == []
  {
    if r != [] {
      FirstIsIn(r);
    }
  }

  lemma NoDots(db: Database, list: seq<nat>)
    requires ValidDatabase(db) && forall j :: 0 <= j < |list| ==> 0 < list[j] < |db.nodes|
    ensures Filter(db, list, "...", false, ById) == []
  {
    forall j | 0 <= j < |list| ensures !Contains(Label(db.nodes[list[j]], ById), "...") {
      assert ValidNode(db, list[j]);
      HexHasNoDots(db.nodes[list[j]].id);
    }
    EmptyList(Filter(db, list, "...", false, ById));
  }

  lemma KeyLength(db: Database, text: string)
    requires ValidDatabase(db) && text in db.byId
    ensures |text| == EID_STR_MAX
  {
    assert ValidNode(db, db.byId[text]);
  }

  /** In id mode an elided path leads nowhere. */
  lemma ElidedIsLost(w: World, start: Result, d: nat, k: nat)
    requires ValidWorld(w) && ValidResult(w, start) && d < |w| && k < |w[d].nodes|
    requires Verbatim(w[d].name, true, '/') && Elided(w[d], k, ById)
    ensures Resolve(w, start, PathOf(w, In(d, k), ById), ById) == NotFound(NO_SUCH_LOGIC_DIR)
  {
    hide Grab, Filter, Matches;
    var db := w[d];
    var id := Label(db.nodes[k], ById);
    var tail := "/.../" + id;
    IntoDatabase(w, start, d, ById, tail);
    assert tail[1..] == "..." + ("/" + id);
    GrabComponent("...", "/" + id, true, '/');
    assert Lower("...") == "...";
    forall x | x in db.byId ensures |x| == EID_STR_MAX {
      KeyLength(db, x);
    }
    assert ValidChildren(db, 0);
    NoDots(db, db.nodes[0].child);
    assert ChildOf(w, In(d, 0), "...", ById) == NotFound(NO_SUCH_LOGIC_DIR);
    assert Step(w, In(d, 0), Token("...", 3), ById) == NotFound(NO_SUCH_LOGIC_DIR);
    assert Resolve(w, Found(In(d, 0)), tail[1..], ById) == NotFound(NO_SUCH_LOGIC_DIR);
  }

  /** In id mode a path leads back exactly when it is not elided. */
  lemma IdPathIff(w: World, start: Result, p: Place)
    requires ValidWorld(w) && ValidResult(w, start) && ValidPlace(w, p) && p.In? && Verbatim(w[p.db].name, true, '/')
    ensures Resolve(w, start, PathOf(w, p, ById), ById) == Found(p) <==> !Elided(w[p.db], p.node, ById)
  {
    if Elided(w[p.db], p.node, ById) {
      ElidedIsLost(w, start, p.db, p.node);
    } else {
      PathRoundTrip(w, start, p, ById);
    }
  }
}
