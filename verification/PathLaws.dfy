/** How paths compose, and what slashes in a row do. */
module PathLaws {
  import opened Util
  import opened Codes
  import opened Strings
  import opened PathText
  import opened Directory

  /** A path to which another can be joined: quotes closed, no slash at the end. */
  predicate Joinable(s: string) {
    s != "" && s[|s| - 1] != '/' && QuoteAfter(s, Bare) == Bare
  }

  /** Following a joined path is following the second from where the first leads. */
  lemma {:induction false} Join(w: World, start: Result, s: string, r: string, mode: Mode)
    requires ValidWorld(w) && ValidResult(w, start) && Joinable(s)
    ensures Resolve(w, start, s + "/" + r, mode) == Onward(w, Resolve(w, start, s, mode), "/" + r, mode)
    decreases |s|
  {
    hide ValidWorld, Grab, QuoteAfter, FindDatabase, Step;
    if s[0] == '/' {
      JoinAbsolute(w, start, s, r, mode);
    } else if start.Found? {
      JoinRelative(w, start, s, r, mode);
    }
  }

  lemma AbsoluteStep(w: World, start: Result, path: string, mode: Mode)
    requires ValidWorld(w) && ValidResult(w, start) && |path| > 1 && path[0] == '/'
    ensures var t := Grab(path[1..], Bare, true, '/');
            1 + t.read <= |path| && Resolve(w, start, path, mode) ==
            if w == [] || t.read > FILE_NAME_MAX then NotFound(NO_SUCH_LOGIC_DIR)
            else Onward(w, FindDatabase(w, t.text), path[1 + t.read..], mode)
  {
    hide Grab;
    GrabStops(path[1..], Bare, true, '/');
  }

  lemma NameThenTail(s: string, tail: string)
    requires Joinable(s) && s[0] == '/' && tail != "" && tail[0] == '/'
    ensures var n := Grab(s[1..], Bare, true, '/').read;
            1 + n <= |s| && Grab((s + tail)[1..], Bare, true, '/') == Grab(s[1..], Bare, true, '/') && (s + tail)[1 + n..] == s[1 + n..] + tail
            && QuoteAfter(s[1 + n..], Bare) == Bare && (1 + n < |s| ==> s[1 + n] == '/')
  {
    hide Grab;
    var name := s[1..];
    assert (s + tail)[1..] == name + tail;
    GrabClosed(name, tail, Bare, '/');
    GrabStops(name, Bare, true, '/');
    var n := Grab(name, Bare, true, '/').read;
    assert s[1 + n..] == name[n..];
  }

  lemma JoinAbsolute(w: World, start: Result, s: string, r: string, mode: Mode)
    requires ValidWorld(w) && ValidResult(w, start) && Joinable(s) && s[0] == '/'
    ensures Resolve(w, start, s + "/" + r, mode) == Onward(w, Resolve(w, start, s, mode), "/" + r, mode)
    decreases |s|, 0
  {
    hide ValidWorld, Grab, FindDatabase, Resolve, QuoteAfter;
    var tail := "/" + r;
    assert s + "/" + r == s + tail;
    NameThenTail(s, tail);
    AbsoluteStep(w, start, s, mode);
    AbsoluteStep(w, start, s + tail, mode);
    var t := Grab(s[1..], Bare, true, '/');
    JoinOnward(w, FindDatabase(w, t.text), s[1 + t.read..], r, mode);
  }

  lemma JoinRelative(w: World, start: Result, s: string, r: string, mode: Mode)
    requires ValidWorld(w) && ValidResult(w, start) && Joinable(s) && s[0] != '/' && start.Found?
    ensures Resolve(w, start, s + "/" + r, mode) == Onward(w, Resolve(w, start, s, mode), "/" + r, mode)
    decreases |s|, 0
  {
    hide ValidWorld, Grab, FindDatabase, Step;
    var tail := "/" + r;
    assert s + "/" + r == s + tail;
    GrabClosed(s, tail, Bare, '/');
    var t := Grab(s, Bare, true, '/');
    GrabStops(s, Bare, true, '/');
    assert (s + tail)[t.read..] == s[t.read..] + tail;
    GrabTakes(s);
    JoinOnward(w, Step(w, start.at, t, mode), s[t.read..], r, mode);
  }

  lemma GrabTakes(s: string)
    requires s != "" && s[0] != '/'
    ensures 0 < Grab(s, Bare, true, '/').read
  {
  }

  lemma JoinOnward(w: World, from: Result, s: string, r: string, mode: Mode)
    requires ValidWorld(w) && ValidResult(w, from) && (s == "" || (s[0] == '/' && s[|s| - 1] != '/' && QuoteAfter(s, Bare) == Bare))
    ensures Onward(w, from, s + ("/" + r), mode) == Onward(w, Onward(w, from, s, mode), "/" + r, mode)
    decreases |s|, 1
  {
    hide ValidWorld, Grab, Resolve;
    if s == "" {
      assert s + ("/" + r) == "/" + r;
    } else if from.Found? {
      assert |s| > 1;
      var rest := s[1..];
      assert (s + ("/" + r))[1..] == rest + "/" + r;
      Join(w, from, rest, r, mode);
    }
  }

  /** Two slashes in a row start over: whatever leads up to them, the rest is an absolute path. */
  lemma DoubleSlash(w: World, start: Result, other: Result, s: string, q: string, mode: Mode)
    requires ValidWorld(w) && ValidResult(w, start) && ValidResult(w, other) && Joinable(s)
    ensures Resolve(w, start, s + "//" + q, mode)
         == if Resolve(w, start, s, mode).Found? then Resolve(w, other, "/" + q, mode) else Resolve(w, start, s, mode)
  {
    hide ValidWorld, Resolve;
    assert s + "//" + q == s + "/" + ("/" + q);
    Join(w, start, s, "/" + q, mode);
    var from := Resolve(w, start, s, mode);
    if from.Found? {
      assert ("/" + ("/" + q))[1..] == "/" + q;
      StartIgnored(w, from, other, "/" + q, mode);
    }
  }

  /** An absolute path leads to the same place from everywhere. */
  lemma StartIgnored(w: World, start: Result, other: Result, path: string, mode: Mode)
    requires ValidWorld(w) && ValidResult(w, start) && ValidResult(w, other) && path != "" && path[0] == '/'
    ensures Resolve(w, start, path, mode) == Resolve(w, other, path, mode)
  {
  }

  // ---------------------------------------------------------------------
  // One dot and two

  lemma OneToken(w: World, at: Place, c: string, mode: Mode)
    requires ValidWorld(w) && ValidPlace(w, at) && c != "" && Verbatim(c, true, '/') && |c| <= Limit(mode)
    ensures Resolve(w, Found(at), c, mode) == Step(w, at, Token(c, |c|), mode)
  {
    hide Grab, Step;
    GrabComponent(c, "", true, '/');
    assert c + "" == c && c[|c|..] == "";
  }

  /** A dot leads nowhere else, */
  lemma Dot(w: World, at: Place, mode: Mode)
    requires ValidWorld(w) && ValidPlace(w, at)
    ensures Resolve(w, Found(at), ".", mode) == Found(at)
  {
    hide Resolve;
    OneToken(w, at, ".", mode);
  }

  /** nor at the end of a path, */
  lemma DotAtEnd(w: World, start: Result, s: string, mode: Mode)
    requires ValidWorld(w) && ValidResult(w, start) && Joinable(s)
    ensures Resolve(w, start, s + "/.", mode) == Resolve(w, start, s, mode)
  {
    hide Resolve;
    Join(w, start, s, ".", mode);
    assert s + "/" + "." == s + "/." && ("/" + ".")[1..] == ".";
    if Resolve(w, start, s, mode).Found? {
      Dot(w, Resolve(w, start, s, mode).at, mode);
    }
  }

  /** nor in front of one. */
  lemma DotInFront(w: World, at: Place, r: string, mode: Mode)
    requires ValidWorld(w) && ValidPlace(w, at)
    ensures Resolve(w, Found(at), "./" + r, mode) == if r == "" then Found(at) else Resolve(w, Found(at), r, mode)
  {
    hide Resolve;
    assert QuoteAfter("", Bare) == Bare && "."[1..] == "" && Quoted('.', Bare) == Bare;
    assert QuoteAfter(".", Bare) == Bare;
    Join(w, Found(at), ".", r, mode);
    assert "." + "/" + r == "./" + r && ("/" + r)[1..] == r;
    Dot(w, at, mode);
  }

  lemma UpFromChild(w: World, d: nat, x: nat)
    requires ValidWorld(w) && d < |w| && 0 < x < |w[d].nodes|
    ensures Up(w, In(d, x)) == In(d, w[d].nodes[x].parent)
  {
    NodeFacts(w, d, x);
  }

  lemma UpFromDatabase(w: World, text: string)
    requires ValidWorld(w)
    ensures FindDatabase(w, text).Found? ==> Up(w, FindDatabase(w, text).at) == Top
  {
  }

  lemma ChildIsBelow(w: World, at: Place, text: string, mode: Mode)
    requires ValidWorld(w) && ValidPlace(w, at) && at.In?
    ensures var r := ChildOf(w, at, text, mode);
      r.Found? ==> r.at.In? && r.at.db == at.db && 0 < r.at.node < |w[at.db].nodes| && w[at.db].nodes[r.at.node].parent == at.node
  {
    hide Candidates;
    var found := Candidates(w[at.db], at.node, text, mode);
    if |found| == 1 {
      assert found[0] in found;
      CandidateIsChild(w[at.db], at.node, text, mode, found[0]);
    }
  }

  /** Two dots lead back from wherever a name leads, */
  lemma UpFromStep(w: World, at: Place, c: string, mode: Mode)
    requires ValidWorld(w) && ValidPlace(w, at) && PlainName(c) && |c| <= Limit(mode)
    ensures var r := Resolve(w, Found(at), c, mode); r.Found? ==> Up(w, r.at) == at
  {
    hide Resolve, Verbatim, FindDatabase, ChildOf, Up, ValidWorld;
    OneToken(w, at, c, mode);
    if at.Top? {
      UpFromDatabase(w, c);
    } else {
      ChildIsBelow(w, at, c, mode);
      var r := ChildOf(w, at, c, mode);
      if r.Found? {
        UpFromChild(w, at.db, r.at.node);
      }
    }
  }

  lemma CandidateIsChild(db: Database, k: nat, text: string, mode: Mode, x: nat)
    requires ValidDatabase(db) && k < |db.nodes| && x in Candidates(db, k, text, mode)
    ensures 0 < x < |db.nodes| && db.nodes[x].parent == k
  {
    assert ValidChildren(db, k);
  }

  /** so that a plain name and two dots cancel, */
  lemma DownAndUp(w: World, at: Place, c: string, mode: Mode)
    requires ValidWorld(w) && ValidPlace(w, at) && PlainName(c) && |c| <= Limit(mode)
    ensures Resolve(w, Found(at), c + "/..", mode) == if Resolve(w, Found(at), c, mode).Found? then Found(at) else Resolve(w, Found(at), c, mode)
  {
    hide Resolve, Up, Verbatim;
    var r := Resolve(w, Found(at), c, mode);
    VerbatimIsClosed(c, '/');
    assert c[|c| - 1] != '/' by { LastPlain(c); }
    Join(w, Found(at), c, "..", mode);
    assert c + "/" + ".." == c + "/.." && ("/" + "..")[1..] == "..";
    if r.Found? {
      UpFromStep(w, at, c, mode);
      TwoDots(w, r.at, mode);
    }
  }

  lemma LastPlain(c: string)
    requires PlainName(c)
    ensures c[|c| - 1] != '/'
  {
  }

  lemma TwoDots(w: World, at: Place, mode: Mode)
    requires ValidWorld(w) && ValidPlace(w, at)
    ensures Resolve(w, Found(at), "..", mode) == Found(Up(w, at))
  {
    hide Resolve, Up;
    OneToken(w, at, "..", mode);
  }

  /** and from the top they lead nowhere else. */
  lemma TopIsTop(w: World, mode: Mode)
    requires ValidWorld(w)
    ensures Resolve(w, Found(Top), "..", mode) == Found(Top)
  {
    TwoDots(w, Top, mode);
  }

  function DotsAfter(name: string): string { "/" + name + "/.../" }

  /** What follows the dots of an elided path leads from the parent to the place. */
  lemma ElidedEnd(w: World, p: Place, mode: Mode)
    requires ValidWorld(w) && ValidPlace(w, p) && p.In? && Elided(w[p.db], p.node, mode)
    requires mode == ByName ==> 0 < p.node && PlainName(w[p.db].nodes[p.node].name) && Sole(w[p.db], p.node, ByName)
    ensures DotsAfter(w[p.db].name) <= PathOf(w, p, mode) && w[p.db].nodes[p.node].parent < |w[p.db].nodes|
    ensures Resolve(w, Found(In(p.db, w[p.db].nodes[p.node].parent)), PathOf(w, p, mode)[|DotsAfter(w[p.db].name)|..], mode) == Found(p)
  {
    hide Resolve, ChildOf;
    var db, head := w[p.db], DotsAfter(w[p.db].name);
    assert 0 < p.node by { RootIsWhole(w, p.db, mode); }
    NodeFacts(w, p.db, p.node);
    var c := Label(db.nodes[p.node], mode);
    assert PathOf(w, p, mode) == head + c && (head + c)[|head|..] == c;
    LabelIsPlain(w, p.db, p.node, mode);
    LabelFinds(w, p.db, p.node, mode);
    OneToken(w, In(p.db, db.nodes[p.node].parent), c, mode);
  }

  lemma RootIsWhole(w: World, d: nat, mode: Mode)
    requires ValidWorld(w) && d < |w|
    ensures 0 < |w[d].nodes| && !Elided(w[d], 0, mode)
  {
  }

  // ---------------------------------------------------------------------
  // What a text stands for

  lemma {:induction false} OneMatch(w: World, text: string, exact: bool, from: nat, i: nat)
    requires from <= i < |w| && if exact then w[i].name == text else Contains(w[i].name, text)
    requires forall j :: from <= j < |w| && j != i ==> !(if exact then w[j].name == text else Contains(w[j].name, text))
    ensures Matches(w, text, exact, from) == [i]
    decreases |w| - from
  {
    if from < i {
      OneMatch(w, text, exact, from + 1, i);
    } else {
      EmptyList(Matches(w, text, exact, from + 1));
    }
  }

  /** A text leads to the database of that name, or to the only one whose name contains it if none has it. */
  lemma DatabaseIff(w: World, text: string, i: nat)
    requires ValidWorld(w) && i < |w|
    ensures FindDatabase(w, text) == Found(In(i, 0)) <==>
              w[i].name == text
              || ((forall j :: 0 <= j < |w| ==> w[j].name != text)
                  && forall j :: 0 <= j < |w| ==> (Contains(w[j].name, text) <==> j == i))
  {
    hide Contains;
    var exact, part := Matches(w, text, true, 0), Matches(w, text, false, 0);
    if w[i].name == text {
      OneMatch(w, text, true, 0, i);
    } else if forall j :: 0 <= j < |w| ==> w[j].name != text {
      EmptyList(exact);
      if forall j :: 0 <= j < |w| ==> (Contains(w[j].name, text) <==> j == i) {
        OneMatch(w, text, false, 0, i);
      } else if |part| == 1 {
        assert part[0] in part;
      }
    } else {
      var j :| 0 <= j < |w| && w[j].name == text;
      assert j in exact && exact[0] in exact;
    }
  }

  /** `t` is `s` with some hexadecimal digits in upper case. */
  predicate UpperCased(t: string, s: string) {
    |t| == |s| && forall i :: 0 <= i < |s| ==> t[i] == s[i] || ('A' <= t[i] <= 'F' && s[i] as int == t[i] as int + 32)
  }

  /** In id mode case does not matter. */
  lemma CaseIgnored(w: World, at: Place, s: string, t: string)
    requires ValidWorld(w) && ValidPlace(w, at) && at.In? && IsLowerHex(s) && UpperCased(t, s)
    ensures ChildOf(w, at, t, ById) == ChildOf(w, at, s, ById)
  {
    hide ValidWorld;
    LowerId(s);
    forall i | 0 <= i < |t| ensures LowerChar(t[i]) == s[i] {
      assert s[i] == t[i] || s[i] == t[i] + 32 as char;
    }
    assert Lower(t) == s;
    assert t == "" <==> s == "";
  }

  // ---------------------------------------------------------------------
  // The round trip by names

  /** Every name from the top of the tree to `k` is plain. */
  ghost predicate PlainNames(db: Database, k: nat)
    requires ValidDatabase(db) && k < |db.nodes|
    decreases db.nodes[k].depth
  {
    k == 0 || (assert ValidNode(db, k); PlainName(db.nodes[k].name) && PlainNames(db, db.nodes[k].parent))
  }

  /** Every entry from the top of the tree to `k` is the only one of its name among its siblings. */
  ghost predicate SoleNames(db: Database, k: nat)
    requires ValidDatabase(db) && k < |db.nodes|
    decreases db.nodes[k].depth
  {
    k == 0 || (assert ValidNode(db, k); Sole(db, k, ByName) && SoleNames(db, db.nodes[k].parent))
  }

  lemma TwoAreMany(r: seq<nat>, x: nat, y: nat)
    requires x in r && y in r && x != y
    ensures |r| >= 2
  {
  }

  /** The name of an entry leads from its parent to it, unless a sibling has it too. */
  lemma NameFinds(w: World, d: nat, k: nat)
    requires ValidWorld(w) && d < |w| && 0 < k < |w[d].nodes|
    ensures ValidNode(w[d], k)
    ensures ChildOf(w, In(d, w[d].nodes[k].parent), w[d].nodes[k].name, ByName)
         == if Sole(w[d], k, ByName) then Found(In(d, k)) else NotFound(FOUND_DUPLICATE)
  {
    var db := w[d];
    NodeFacts(w, d, k);
    if Sole(db, k, ByName) {
      LabelFinds(w, d, k, ByName);
    } else {
      var j :| 0 < j < |db.nodes| && db.nodes[j].parent == db.nodes[k].parent && Label(db.nodes[j], ByName) == Label(db.nodes[k], ByName) && j != k;
      assert ValidNode(db, j);
      TwoAreMany(Candidates(db, db.nodes[k].parent, db.nodes[k].name, ByName), j, k);
    }
  }

  /** One plain name and what follows it. */
  lemma NameDown(w: World, d: nat, k: nat, tail: string)
    requires ValidWorld(w) && d < |w| && 0 < k < |w[d].nodes| && PlainName(w[d].nodes[k].name) && (tail == "" || tail[0] == '/')
    ensures ValidNode(w[d], k)
    ensures Onward(w, Found(In(d, w[d].nodes[k].parent)), "/" + w[d].nodes[k].name + tail, ByName)
         == Onward(w, ChildOf(w, In(d, w[d].nodes[k].parent), w[d].nodes[k].name, ByName), tail, ByName)
  {
    hide ChildOf, Grab, ValidWorld, Verbatim;
    NodeFacts(w, d, k);
    var c := w[d].nodes[k].name;
    LabelIsPlain(w, d, k, ByName);
    GrabComponent(c, tail, true, '/');
    var rest := "/" + c + tail;
    assert rest[1..] == c + tail && (c + tail)[0] == c[0] && (c + tail)[|c|..] == tail;
  }

  lemma {:induction false} NamesResolve(w: World, d: nat, k: nat, tail: string)
    requires ValidWorld(w) && d < |w| && k < |w[d].nodes| && PlainNames(w[d], k) && (tail == "" || tail[0] == '/')
    ensures Onward(w, Found(In(d, 0)), Climb(w[d], k, ByName) + tail, ByName)
         == if SoleNames(w[d], k) then Onward(w, Found(In(d, k)), tail, ByName) else NotFound(FOUND_DUPLICATE)
    decreases w[d].nodes[k].depth
  {
    hide Resolve, ChildOf, ValidWorld, PlainName, Sole;
    if k == 0 {
      assert "" + tail == tail;
    } else {
      NodeFacts(w, d, k);
      var up, c := w[d].nodes[k].parent, "/" + w[d].nodes[k].name;
      assert Climb(w[d], up, ByName) + c + tail == Climb(w[d], up, ByName) + (c + tail);
      NamesResolve(w, d, up, c + tail);
      NameDown(w, d, k, tail);
      NameFinds(w, d, k);
    }
  }

  /** In file name mode, with plain names, a path that is not elided leads back exactly when every entry on the way is
      the only one of its name among its siblings; else it is ambiguous. */
  lemma NamePathIff(w: World, start: Result, p: Place)
    requires ValidWorld(w) && ValidResult(w, start) && ValidPlace(w, p) && p.In?
    requires Verbatim(w[p.db].name, true, '/') && !Elided(w[p.db], p.node, ByName) && PlainNames(w[p.db], p.node)
    ensures Resolve(w, start, PathOf(w, p, ByName), ByName) == if SoleNames(w[p.db], p.node) then Found(p) else NotFound(FOUND_DUPLICATE)
  {
    hide Resolve, PlainNames, SoleNames;
    var db := w[p.db];
    var tail := Climb(db, p.node, ByName);
    assert tail + "" == tail;
    if p.node != 0 {
      ClimbHead(db, p.node, ByName);
    }
    IntoDatabase(w, start, p.db, ByName, tail);
    NamesResolve(w, p.db, p.node, "");
  }

  // ---------------------------------------------------------------------
  // Slashes at the end of a path

  function Slashes(n: nat): (s: string)
    ensures |s| == n && forall i :: 0 <= i < n ==> s[i] == '/'
  {
    seq(n, _ => '/')
  }

  /** Every database name contains the empty text. */
  lemma {:induction false} AllMatch(w: World, i: nat)
    requires i <= |w|
    ensures |Matches(w, "", false, i)| == |w| - i && (i < |w| ==> Matches(w, "", false, i)[0] == i)
    decreases |w| - i
  {
    hide Contains;
    if i < |w| {
      HasNothing(w[i].name);
      AllMatch(w, i + 1);
    }
  }

  lemma HasNothing(s: string)
    ensures Contains(s, "")
  {
    assert OccursAt(s, "", 0);
  }

  /** The empty text stands for the only database. */
  lemma EmptyName(w: World)
    requires ValidWorld(w) && w != []
    ensures FindDatabase(w, "") == if |w| == 1 then Found(In(0, 0)) else NotFound(FOUND_DUPLICATE)
  {
    AllMatch(w, 0);
    forall i | 0 <= i < |w| ensures w[i].name != "" {
      assert ValidDatabase(w[i]);
    }
    EmptyList(Matches(w, "", true, 0));
  }

  /** Where a path of slashes only leads: to the top, or to the only database, by turns. */
  function SlashesLead(w: World, n: nat): Result {
    if n == 1 then Found(Top) else if |w| != 1 then NotFound(FOUND_DUPLICATE) else if n % 2 == 1 then Found(Top) else Found(In(0, 0))
  }

  lemma {:induction false} OnlySlashes(w: World, start: Result, n: nat, mode: Mode)
    requires ValidWorld(w) && ValidResult(w, start) && w != [] && 0 < n
    ensures Resolve(w, start, Slashes(n), mode) == SlashesLead(w, n)
    decreases n
  {
    hide ValidWorld, FindDatabase;
    var path := Slashes(n);
    if n > 1 {
      EmptyName(w);
      assert path[1..] == Slashes(n - 1) && path[1 + 0..] == Slashes(n - 1);
      assert Grab(path[1..], Bare, true, '/') == Token("", 0);
      var from := FindDatabase(w, "");
      assert Resolve(w, start, path, mode) == Onward(w, from, Slashes(n - 1), mode);
      if n > 2 && |w| == 1 {
        assert Slashes(n - 1)[1..] == Slashes(n - 2);
        OnlySlashes(w, from, n - 2, mode);
      }
    }
  }

  lemma {:induction false} ClimbJoinable(w: World, d: nat, k: nat, mode: Mode)
    requires ValidWorld(w) && d < |w| && k < |w[d].nodes| && Verbatim(w[d].name, true, '/') && (mode == ByName ==> Clear(w[d], k))
    ensures Joinable("/" + w[d].name + Climb(w[d], k, mode))
    decreases w[d].nodes[k].depth
  {
    var db := w[d];
    assert ValidDatabase(db);
    var base := "/" + db.name;
    if k == 0 {
      assert base + "" == base;
      assert QuoteAfter("/", Bare) == Bare;
      QuoteConcat("/", db.name, Bare);
      VerbatimIsClosed(db.name, '/');
    } else {
      assert ValidNode(db, k);
      var up, c := db.nodes[k].parent, Label(db.nodes[k], mode);
      ClimbJoinable(w, d, up, mode);
      LabelIsPlain(w, d, k, mode);
      LastJoinable(base + Climb(db, up, mode), c);
      assert base + (Climb(db, up, mode) + ("/" + c)) == base + Climb(db, up, mode) + "/" + c;
    }
  }

  lemma LastJoinable(s: string, c: string)
    requires Joinable(s) && PlainName(c)
    ensures Joinable(s + "/" + c)
  {
    QuoteConcat(s + "/", c, Bare);
    QuoteConcat(s, "/", Bare);
    assert QuoteAfter("/", Bare) == Bare;
    VerbatimIsClosed(c, '/');
  }

  /** The path of a place in a database, followed by slashes: one is ignored, more lead elsewhere. */
  lemma TrailingSlashes(w: World, start: Result, p: Place, n: nat, mode: Mode)
    requires ValidWorld(w) && ValidResult(w, start) && ValidPlace(w, p) && p.In?
    requires Verbatim(w[p.db].name, true, '/') && !Elided(w[p.db], p.node, mode) && (mode == ByName ==> Clear(w[p.db], p.node))
    ensures Resolve(w, start, PathOf(w, p, mode) + Slashes(n), mode) == if n <= 1 then Found(p) else SlashesLead(w, n - 1)
  {
    hide ValidWorld, Resolve, FindDatabase, Climb;
    var s := PathOf(w, p, mode);
    PathRoundTrip(w, start, p, mode);
    if n == 0 {
      assert s + Slashes(0) == s;
    } else {
      ClimbJoinable(w, p.db, p.node, mode);
      Join(w, start, s, Slashes(n - 1), mode);
      assert s + Slashes(n) == s + "/" + Slashes(n - 1);
      if n > 1 {
        assert ("/" + Slashes(n - 1))[1..] == Slashes(n - 1);
        OnlySlashes(w, Found(p), n - 1, mode);
      }
    }
  }

  /** It leads back exactly with one slash at most, or when the place is the root of the only database and the
      number of slashes is odd. */
  lemma TrailingSlashesIff(w: World, start: Result, p: Place, n: nat, mode: Mode)
    requires ValidWorld(w) && ValidResult(w, start) && ValidPlace(w, p) && p.In?
    requires Verbatim(w[p.db].name, true, '/') && !Elided(w[p.db], p.node, mode) && (mode == ByName ==> Clear(w[p.db], p.node))
    ensures Resolve(w, start, PathOf(w, p, mode) + Slashes(n), mode) == Found(p) <==> n <= 1 || (p.node == 0 && |w| == 1 && n % 2 == 1)
  {
    hide Resolve, ValidWorld, PathOf;
    TrailingSlashes(w, start, p, n, mode);
  }
}
