/** The entry loop of `load_file`: every record becomes an entry, linked under its parent. */
module LoadTree {
  import opened Codes
  import opened BufferedFile
  import opened Numbers
  import opened Records
  import opened Entries
  import opened TreeLoad
  import opened LoadFile
  import opened SaveFile

  /** One record of the loop; `known` are the ids read before, with the root's. `verify` is verify_entry. */
  function ParseEntry(s: seq<Byte>, known: set<Id>, verify: Record -> bool): (p: Parsed<Record>)
    ensures p.Got? ==> p.value.parentId in known && p.value.id !in known
  {
    var (ids, s) :- ParseIds(s);
    if ids.2 !in known then Fail(FIND_FAIL) else
    BodyKeepsIds(s, NewRecord(ids));
    var (e, s) :- ParseBody(s, NewRecord(ids));
    if !verify(e) then Fail(FILE_BROKEN) else
    if ids.1 in known then Fail(DUPLICATE_ERROR) else
    Got(e, s)
  }

  predicate SameIds(e: Record, p: Parsed<Record>) {
    p.Got? ==> p.value.id == e.id && p.value.parentId == e.parentId
  }

  lemma KindKeepsIds(s: seq<Byte>, e: Record)
    ensures SameIds(e, ParseKind(s, e))
  {
  }

  lemma TextsKeepIds(s: seq<Byte>, e: Record, bitmap: nat)
    ensures SameIds(e, ParseTexts(s, e, bitmap))
  {
  }

  lemma TimesKeepIds(s: seq<Byte>, e: Record, bitmap: nat)
    ensures SameIds(e, ParseTimes(s, e, bitmap))
  {
  }

  lemma DataKeepsIds(s: seq<Byte>, e: Record, bitmap: nat)
    ensures SameIds(e, ParseData(s, e, bitmap))
  {
  }

  lemma NameKeepsIds(s: seq<Byte>, e: Record)
    ensures var p := ParseName(s, e); p.Got? ==> p.value.0.id == e.id && p.value.0.parentId == e.parentId
  {
  }

  lemma BodyKeepsIds(s: seq<Byte>, e: Record)
    ensures SameIds(e, ParseBody(s, e))
  {
    KindKeepsIds(s, e);
    var p1 := ParseKind(s, e);
    if p1.Got? {
      NameKeepsIds(p1.rest, p1.value);
      var p2 := ParseName(p1.rest, p1.value);
      if p2.Got? {
        TextsKeepIds(p2.rest, p2.value.0, p2.value.1);
        var p3 := ParseTexts(p2.rest, p2.value.0, p2.value.1);
        if p3.Got? {
          TimesKeepIds(p3.rest, p3.value, p2.value.1);
          var p4 := ParseTimes(p3.rest, p3.value, p2.value.1);
          if p4.Got? {
            DataKeepsIds(p4.rest, p4.value, p2.value.1);
          }
        }
      }
    }
  }

  /** What the loop does with the bytes: the records read and the tree they make. */
  function ParseEntries(s: seq<Byte>, n: nat, st: Loaded, verify: Record -> bool): Parsed<(seq<Record>, Loaded)>
    requires Sane(st)
    decreases n
  {
    if n == 0 then Got(([], st), s) else
    var (e, s) :- ParseEntry(s, st.kids.Keys, verify);
    var (more, s) :- ParseEntries(s, n - 1, Attach(st, e.id, e.parentId), verify);
    Got(([e] + more.0, more.1), s)
  }

  /** The entry with an id; the root stands for the zero id. */
  function EntryAt(root: Entry, htab: map<Id, Entry>, id: Id): Entry {
    if id in htab then htab[id] else root
  }

  /** The links of an entry. */
  datatype Links = Links(child: seq<Entry>, depth: nat, parent: Entry?, hasParent: bool)

  type View = map<Id, Links>

  /** `view` is what the entries in memory hold. */
  ghost predicate Seen(root: Entry, htab: map<Id, Entry>, view: View)
    reads root, htab.Values
  {
    view.Keys == htab.Keys + {RootId()} && forall x :: x in view ==> HasLinks(EntryAt(root, htab, x), view[x])
  }

  ghost predicate HasLinks(e: Entry, l: Links)
    reads e
  {
    e.child == l.child && e.depth == l.depth && e.parent == l.parent && e.hasParent == l.hasParent
  }

  /** The links form the tree `st`. */
  ghost predicate Forms(root: Entry, htab: map<Id, Entry>, view: View, st: Loaded) {
    Sane(st) && st.kids.Keys == view.Keys == htab.Keys + {RootId()}
    && forall x :: x in view ==> view[x].depth == st.depth[x] && FormsChildren(root, htab, view, st.kids[x], x)
  }

  ghost predicate FormsChildren(root: Entry, htab: map<Id, Entry>, view: View, kids: seq<Id>, x: Id)
    requires x in view
  {
    |view[x].child| == |kids|
    && forall i :: 0 <= i < |kids| ==>
         kids[i] in htab && kids[i] in view && view[x].child[i] == htab[kids[i]]
         && view[kids[i]].parent == EntryAt(root, htab, x) && view[kids[i]].hasParent == (x != RootId())
  }

  /** Different ids, different entries. */
  ghost predicate Separate(root: Entry, htab: map<Id, Entry>) {
    RootId() !in htab && root !in htab.Values && forall x, y :: x in htab && y in htab && x != y ==> htab[x] != htab[y]
  }

  /** The entries in memory form the tree `st`. */
  ghost predicate Represents(root: Entry, htab: map<Id, Entry>, view: View, st: Loaded)
    reads root, htab.Values
  {
    Separate(root, htab) && Seen(root, htab, view) && Forms(root, htab, view, st)
  }

  function Linked(root: Entry, htab: map<Id, Entry>, view: View, entry: Entry, id: Id, parentId: Id): View
    requires parentId in view
  {
    view[parentId := view[parentId].(child := view[parentId].child + [entry])]
        [id := Links([], view[parentId].depth + 1, EntryAt(root, htab, parentId), parentId != RootId())]
  }

  lemma LinkedForms(root: Entry, htab: map<Id, Entry>, view: View, st: Loaded, entry: Entry, id: Id, parentId: Id)
    requires Separate(root, htab) && Forms(root, htab, view, st) && parentId in view && id !in view
    ensures Forms(root, htab[id := entry], Linked(root, htab, view, entry, id, parentId), Attach(st, id, parentId))
  {
    var view', st', htab' := Linked(root, htab, view, entry, id, parentId), Attach(st, id, parentId), htab[id := entry];
    forall x | x in view' ensures view'[x].depth == st'.depth[x] && FormsChildren(root, htab', view', st'.kids[x], x) {
      if x != id {
        assert FormsChildren(root, htab, view, st.kids[x], x);
        KidsStill(root, htab, view, st.kids[x], x, entry, id, parentId);
      }
    }
  }

  /** The children of an entry after one more is linked below `parentId`. */
  lemma KidsStill(root: Entry, htab: map<Id, Entry>, view: View, kids: seq<Id>, x: Id, entry: Entry, id: Id, parentId: Id)
    requires view.Keys == htab.Keys + {RootId()} && x in view && parentId in view && id !in view && FormsChildren(root, htab, view, kids, x)
    ensures FormsChildren(root, htab[id := entry], Linked(root, htab, view, entry, id, parentId), if x == parentId then kids + [id] else kids, x)
  {
  }

  // put_into_children_array, and the has_parent flag
  method PutIntoChildrenArray(root: Entry, htab: map<Id, Entry>, entry: Entry, id: Id, parentId: Id, ghost view: View)
    requires Separate(root, htab) && Seen(root, htab, view) && parentId in view && id !in view
    requires entry != root && entry !in htab.Values && entry.child == []
    modifies entry`parent, entry`depth, entry`hasParent, EntryAt(root, htab, parentId)`child
    ensures Separate(root, htab[id := entry]) && Seen(root, htab[id := entry], Linked(root, htab, view, entry, id, parentId))
  {
    var parent := EntryAt(root, htab, parentId);
    parent.child := parent.child + [entry];
    entry.parent := parent;
    entry.depth := parent.depth + 1;
    entry.hasParent := parentId != RootId();
    SeparateMore(root, htab, id, entry);
    ghost var view' := Linked(root, htab, view, entry, id, parentId);
    forall x | x in view' ensures HasLinks(EntryAt(root, htab[id := entry], x), view'[x]) {
      if x != id {
        assert old(HasLinks(EntryAt(root, htab, x), view[x]));
        OtherEntry(root, htab, x, parentId);
      }
    }
  }

  lemma SeparateMore(root: Entry, htab: map<Id, Entry>, id: Id, entry: Entry)
    requires Separate(root, htab) && id !in htab && id != RootId() && entry != root && entry !in htab.Values
    ensures Separate(root, htab[id := entry])
  {
  }

  lemma OtherEntry(root: Entry, htab: map<Id, Entry>, x: Id, y: Id)
    requires Separate(root, htab) && (x in htab || x == RootId()) && (y in htab || y == RootId())
    ensures EntryAt(root, htab, x) == EntryAt(root, htab, y) <==> x == y
    ensures EntryAt(root, htab, x) == root || EntryAt(root, htab, x) in htab.Values
  {
  }

  function Chars(b: seq<Byte>): string {
    seq(|b|, i requires 0 <= i < |b| => b[i] as char)
  }

  /** The characters of the text are the bytes. */
  predicate Spells(text: string, b: seq<Byte>) {
    |text| == |b| && forall i :: 0 <= i < |b| ==> text[i] as int == b[i]
  }

  lemma CharsSpell(b: seq<Byte>)
    ensures Spells(Chars(b), b)
  {
  }

  /** The records read before those that `p` describes. */
  function After(done: seq<Record>, p: Parsed<(seq<Record>, Loaded)>): Parsed<(seq<Record>, Loaded)> {
    if p.Got? then Got((done + p.value.0, p.value.1), p.rest) else p
  }

  /** The table has an entry for every record read, and no others. */
  ghost predicate Filled(htab: map<Id, Entry>, es: seq<Record>)
    reads htab.Values`body, htab.Values`id, htab.Values`fileName
  {
    htab.Keys == (set e | e in es :: e.id) && forall e :: e in es ==> HoldsRecord(htab, e)
  }

  ghost predicate HoldsRecord(htab: map<Id, Entry>, e: Record)
    reads htab.Values`body, htab.Values`id, htab.Values`fileName
  {
    e.id in htab && htab[e.id].body == e && htab[e.id].id == HexString(e.id) && Spells(htab[e.id].fileName, e.fileName)
  }

  /** What the loop has built so far: one entry for every record, linked to form the tree. */
  ghost predicate Rebuilt(root: Entry, htab: map<Id, Entry>, view: View, st: Loaded, es: seq<Record>)
    reads root, htab.Values
  {
    Represents(root, htab, view, st) && Filled(htab, es)
  }

  // Reading one entry. The source links the entry to its parent as soon as the parent id is read; a load that
  // fails later is abandoned, so the model links the entry when all of it has been read.
  method LoadRecord(r: Reader, htab: map<Id, Entry>, verify: Record -> bool) returns (ret: int, e: Record)
    requires Ready(r)
    modifies r, r.file`pos, r.buf, r.backup
    ensures Outcome(r, ret, e, ParseEntry(old(r.Rest()), htab.Keys + {RootId()}, verify))
  {
    e := NewRecord(([], [], []));
    var ids;
    ret, ids := LoadIds(r);
    if ret != OK { return; }
    if !(ids.2 in htab || ids.2 == RootId()) {
      return FIND_FAIL, e;
    }
    ret, e := LoadBody(r, NewRecord(ids));
    if ret != OK { return; }
    if !verify(e) {
      return FILE_BROKEN, e;
    }
    if ids.1 in htab || ids.1 == RootId() {
      return DUPLICATE_ERROR, e;
    }
  }

  lemma FilledMore(htab: map<Id, Entry>, entry: Entry, e: Record, es: seq<Record>)
    requires Filled(htab, es) && e.id !in htab && entry.body == e && entry.id == HexString(e.id) && Spells(entry.fileName, e.fileName)
    ensures Filled(htab[e.id := entry], es + [e])
  {
    forall x | x in es + [e] ensures HoldsRecord(htab[e.id := entry], x) {
      if x in es {
        assert HoldsRecord(htab, x);
      }
    }
  }

  lemma ReadyToLink(root: Entry, htab: map<Id, Entry>, view: View, st: Loaded, es: seq<Record>, e: Record)
    requires Rebuilt(root, htab, view, st, es) && e.parentId in st.kids && e.id !in st.kids
    ensures e.parentId in view && e.id !in view && e.id !in htab
  {
  }

  method LinkNew(root: Entry, htab: map<Id, Entry>, entry: Entry, e: Record, ghost view: View, ghost st: Loaded, ghost es: seq<Record>)
    returns (ghost newView: View)
    requires Rebuilt(root, htab, view, st, es) && e.parentId in st.kids && e.id !in st.kids
    requires entry != root && entry !in htab.Values && entry.child == [] && entry.body == e && entry.id == HexString(e.id) && Spells(entry.fileName, e.fileName)
    modifies root`child, htab.Values`child, entry`parent, entry`depth, entry`hasParent
    ensures Rebuilt(root, htab[e.id := entry], newView, Attach(st, e.id, e.parentId), es + [e])
  {
    hide Seen, Forms, Filled, Separate, Linked, Spells;
    ReadyToLink(root, htab, view, st, es, e);
    FilledMore(htab, entry, e, es);
    PutIntoChildrenArray(root, htab, entry, e.id, e.parentId, view);
    LinkedForms(root, htab, view, st, entry, e.id, e.parentId);
    newView := Linked(root, htab, view, entry, e.id, e.parentId);
  }

  // The new entry: linked to its parent, and put into the table under its id
  method AddEntry(root: Entry, htab: map<Id, Entry>, e: Record, ghost view: View, ghost st: Loaded, ghost es: seq<Record>)
    returns (table: map<Id, Entry>, ghost newView: View)
    requires Rebuilt(root, htab, view, st, es) && e.parentId in st.kids && e.id !in st.kids
    modifies root`child, htab.Values`child
    ensures fresh(table.Values - htab.Values) && Rebuilt(root, table, newView, Attach(st, e.id, e.parentId), es + [e])
  {
    hide Rebuilt, Represents, Filled, Spells;
    CharsSpell(e.fileName);
    var text := BytesToHexStr(e.id);
    var entry := new Entry(text, Chars(e.fileName), e);
    newView := LinkNew(root, htab, entry, e, view, st, es);
    table := htab[e.id := entry];
  }

  // Linking entries does not touch the reader.
  method AddEntryBeside(root: Entry, htab: map<Id, Entry>, e: Record, ghost view: View, ghost st: Loaded, ghost es: seq<Record>, ghost r: Reader)
    returns (table: map<Id, Entry>, ghost newView: View)
    requires Ready(r) && Rebuilt(root, htab, view, st, es) && e.parentId in st.kids && e.id !in st.kids
    modifies root`child, htab.Values`child
    ensures Ready(r) && r.Rest() == old(r.Rest())
    ensures fresh(table.Values - htab.Values) && Rebuilt(root, table, newView, Attach(st, e.id, e.parentId), es + [e])
  {
    hide Rebuilt;
    table, newView := AddEntry(root, htab, e, view, st, es);
  }

  lemma AfterNothing(p: Parsed<(seq<Record>, Loaded)>)
    ensures After([], p) == p
  {
    if p.Got? {
      assert [] + p.value.0 == p.value.0;
    }
  }

  lemma AfterOne(done: seq<Record>, e: Record, s: seq<Byte>, t: seq<Byte>, n: nat, st: Loaded, verify: Record -> bool)
    requires Sane(st) && 0 < n && ParseEntry(s, st.kids.Keys, verify) == Got(e, t)
    ensures e.parentId in st.kids && e.id !in st.kids
    ensures After(done, ParseEntries(s, n, st, verify)) == After(done + [e], ParseEntries(t, n - 1, Attach(st, e.id, e.parentId), verify))
  {
    hide ParseEntry;
    var more := ParseEntries(t, n - 1, Attach(st, e.id, e.parentId), verify);
    if more.Got? {
      assert done + ([e] + more.value.0) == (done + [e]) + more.value.0;
    }
  }

  lemma AfterLast(es: seq<Record>, s: seq<Byte>, st: Loaded, verify: Record -> bool)
    requires Sane(st)
    ensures After(es, ParseEntries(s, 0, st, verify)) == Got((es, st), s)
  {
    assert es + [] == es;
  }

  lemma NothingRead(root: Entry, view: View)
    requires view == map[RootId() := Links([], 0, root.parent, root.hasParent)] && root.child == [] && root.depth == 0
    ensures Rebuilt(root, map[], view, Start(), [])
  {
    assert FormsChildren(root, map[], view, [], RootId());
  }

  lemma AfterFailure(done: seq<Record>, s: seq<Byte>, n: nat, st: Loaded, verify: Record -> bool)
    requires Sane(st) && 0 < n && ParseEntry(s, st.kids.Keys, verify).Fail?
    ensures After(done, ParseEntries(s, n, st, verify)) == Fail(ParseEntry(s, st.kids.Keys, verify).code)
  {
  }

  /** The loop is under way: `es` have been read, `left` entries are to come, and `p` is how it will end. */
  ghost predicate Going(r: Reader, root: Entry, htab: map<Id, Entry>, view: View, st: Loaded, es: seq<Record>, left: nat,
                        verify: Record -> bool, p: Parsed<(seq<Record>, Loaded)>)
    reads r, r.file, r.buf, root, htab.Values
  {
    Ready(r) && Sane(st) && Rebuilt(root, htab, view, st, es) && After(es, ParseEntries(r.Rest(), left, st, verify)) == p
  }

  lemma KnownIds(root: Entry, htab: map<Id, Entry>, view: View, st: Loaded, es: seq<Record>)
    requires Rebuilt(root, htab, view, st, es)
    ensures Sane(st) && st.kids.Keys == htab.Keys + {RootId()}
  {
  }

  // The next record, after `es`
  method LoadNext(r: Reader, htab: map<Id, Entry>, verify: Record -> bool, ghost root: Entry, ghost view: View, ghost st: Loaded,
                  ghost es: seq<Record>, ghost left: nat, ghost p: Parsed<(seq<Record>, Loaded)>)
    returns (ret: int, e: Record)
    requires Going(r, root, htab, view, st, es, left, verify, p) && 0 < left
    modifies r, r.file`pos, r.buf, r.backup
    ensures ret == OK ==> Rebuilt(root, htab, view, st, es)
    ensures ret == OK ==> Ready(r) && e.parentId in st.kids && e.id !in st.kids
    ensures ret == OK ==> After(es + [e], ParseEntries(r.Rest(), left - 1, Attach(st, e.id, e.parentId), verify)) == p
    ensures ret != OK ==> p.Fail? && SameCode(ret, p.code)
  {
    hide ParseEntry, ParseEntries, Rebuilt;
    ghost var s := r.Rest();
    KnownIds(root, htab, view, st, es);
    ret, e := LoadRecord(r, htab, verify);
    if ret != OK {
      AfterFailure(es, s, left, st, verify);
    } else {
      AfterOne(es, e, s, r.Rest(), left, st, verify);
    }
  }

  // One turn of the loop over the entries
  method LoadEntry(r: Reader, root: Entry, htab: map<Id, Entry>, verify: Record -> bool, ghost view: View, ghost st: Loaded,
                   ghost es: seq<Record>, ghost left: nat, ghost p: Parsed<(seq<Record>, Loaded)>)
    returns (ret: int, table: map<Id, Entry>, ghost newView: View, ghost newSt: Loaded, ghost newEs: seq<Record>)
    requires Going(r, root, htab, view, st, es, left, verify, p) && 0 < left
    modifies r, r.file`pos, r.buf, r.backup, root`child, htab.Values`child
    ensures ret == OK ==> fresh(table.Values - htab.Values) && Sane(newSt) && Going(r, root, table, newView, newSt, newEs, left - 1, verify, p)
    ensures ret != OK ==> p.Fail? && SameCode(ret, p.code)
  {
    table, newView, newSt, newEs := htab, view, st, es;
    var e;
    ret, e := LoadNext(r, htab, verify, root, view, st, es, left, p);
    if ret != OK { return; }
    table, newView := AddEntryBeside(root, htab, e, view, st, es, r);
    newSt, newEs := Attach(st, e.id, e.parentId), es + [e];
  }

  lemma GoingAtFirst(r: Reader, root: Entry, view: View, n: nat, verify: Record -> bool)
    requires Ready(r) && root.child == [] && root.depth == 0 && view == map[RootId() := Links([], 0, root.parent, root.hasParent)]
    ensures Going(r, root, map[], view, Start(), [], n, verify, ParseEntries(r.Rest(), n, Start(), verify))
  {
    AfterNothing(ParseEntries(r.Rest(), n, Start(), verify));
    NothingRead(root, view);
  }

  lemma GoingAtLast(r: Reader, root: Entry, htab: map<Id, Entry>, view: View, st: Loaded, es: seq<Record>, verify: Record -> bool,
                    p: Parsed<(seq<Record>, Loaded)>)
    requires Going(r, root, htab, view, st, es, 0, verify, p)
    ensures Ready(r) && Rebuilt(root, htab, view, st, es) && p == Got((es, st), r.Rest())
  {
    AfterLast(es, r.Rest(), st, verify);
  }

  // The loop over the entries of a file, starting from an empty tree
  method LoadEntries(r: Reader, root: Entry, n: nat, verify: Record -> bool)
    returns (ret: int, htab: map<Id, Entry>, ghost view: View, ghost st: Loaded, ghost es: seq<Record>)
    requires Ready(r) && root.child == [] && root.depth == 0
    modifies r, r.file`pos, r.buf, r.backup, root`child
    ensures Outcome(r, ret, (es, st), ParseEntries(old(r.Rest()), n, Start(), verify))
    ensures ret == OK ==> Rebuilt(root, htab, view, st, es)
  {
    hide Going, ParseEntries, Rebuilt;
    htab, es, st, ret := map[], [], Start(), OK;
    view := map[RootId() := Links([], 0, root.parent, root.hasParent)];
    ghost var p := ParseEntries(r.Rest(), n, st, verify);
    GoingAtFirst(r, root, view, n, verify);
    ghost var left := n;
    for i := 0 to n
      invariant ret == OK && left == n - i && fresh(htab.Values) && Sane(st) && Going(r, root, htab, view, st, es, left, verify, p)
    {
      ret, htab, view, st, es := LoadEntry(r, root, htab, verify, view, st, es, left, p);
      if ret != OK { return; }
      left := left - 1;
    }
    GoingAtLast(r, root, htab, view, st, es, verify, p);
  }
}
