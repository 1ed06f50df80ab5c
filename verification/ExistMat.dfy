/** The existence matrix: for every string position and character, a bitmap of the layer 1 arrays
    that may hold a string with that character at that position. */
module ExistMat {
  import opened Util
  import opened Lists
  import opened Codes
  import opened Block
  import opened BitSeq
  import opened Bitmap

  class UniqChar {
    var next: UniqChar?
    var character: char
    const l1Map: SimpleBitmap

    constructor (c: char, bm: SimpleBitmap)
      ensures next == null && character == c && l1Map == bm
    {
      next, character, l1Map := null, c, bm;
    }
  }

  /** The characters of a list with their maps, as a map. */
  ghost predicate Shown(chars: seq<char>, marks: seq<seq<bool>>, view: map<char, seq<bool>>) {
    |marks| == |chars|
    && (forall k {:trigger Place(k)} :: Place(k) && 0 <= k < |chars| ==> chars[k] in view && view[chars[k]] == marks[k])
    && (forall c :: c in view ==> c in chars)
  }

  lemma DistinctAppend<T>(s: seq<T>, x: T)
    requires Distinct(s) && forall k {:trigger Place(k)} :: Place(k) && 0 <= k < |s| ==> s[k] != x
    ensures Distinct(s + [x])
  {
  }

  lemma DistinctReplace<T>(s: seq<T>, at: nat, x: T)
    requires Distinct(s) && at < |s|
    requires x == s[at] || forall k {:trigger Place(k)} :: Place(k) && 0 <= k < |s| ==> s[k] != x
    ensures Distinct(s[at := x])
  {
    assert Place(at);
  }

  lemma ShownAppend(chars: seq<char>, marks: seq<seq<bool>>, view: map<char, seq<bool>>, c: char, bits: seq<bool>)
    requires Shown(chars, marks, view) && c !in view
    ensures Shown(chars + [c], marks + [bits], view[c := bits])
    ensures forall k {:trigger Place(k)} :: Place(k) && 0 <= k < |chars| ==> chars[k] != c
  {
    assert Place(|chars|);
  }

  lemma ShownAt(chars: seq<char>, marks: seq<seq<bool>>, view: map<char, seq<bool>>, at: nat)
    requires Shown(chars, marks, view) && at < |chars|
    ensures |marks| == |chars| && chars[at] in view && view[chars[at]] == marks[at]
  {
    assert Place(at);
  }

  lemma ShownReplace(chars: seq<char>, marks: seq<seq<bool>>, view: map<char, seq<bool>>, at: nat, bits: seq<bool>)
    requires Shown(chars, marks, view) && Distinct(chars) && at < |chars|
    ensures Shown(chars, marks[at := bits], view[chars[at] := bits])
  {
    assert Place(at);
  }

  /** The part of a column's invariant that does not look at the heap. */
  ghost predicate Consistent(nodes: seq<UniqChar>, chars: seq<char>, maps: seq<SimpleBitmap>, bases: seq<array<Block>>,
                             marks: seq<seq<bool>>, view: map<char, seq<bool>>)
  {
    |nodes| == |chars| == |maps| == |bases| == |marks|
    && Distinct(nodes) && Distinct(chars) && Distinct(maps) && Distinct(bases)
    && Shown(chars, marks, view) && '\0' !in view
  }

  lemma ConsistentAppend(nodes: seq<UniqChar>, chars: seq<char>, maps: seq<SimpleBitmap>, bases: seq<array<Block>>,
                         marks: seq<seq<bool>>, view: map<char, seq<bool>>,
                         n: UniqChar, c: char, m: SimpleBitmap, b: array<Block>, bits: seq<bool>)
    requires Consistent(nodes, chars, maps, bases, marks, view) && c !in view && c != '\0'
    requires forall k {:trigger Place(k)} :: Place(k) && 0 <= k < |nodes| ==> nodes[k] != n && maps[k] != m && bases[k] != b
    ensures Consistent(nodes + [n], chars + [c], maps + [m], bases + [b], marks + [bits], view[c := bits])
  {
    DistinctAppend(nodes, n);
    DistinctAppend(maps, m);
    DistinctAppend(bases, b);
    ShownAppend(chars, marks, view, c, bits);
    DistinctAppend(chars, c);
  }

  /** `s` without the element at `at`. */
  function Without<T>(s: seq<T>, at: nat): seq<T>
    requires at < |s|
  {
    s[..at] + s[at + 1..]
  }

  lemma DistinctWithout<T>(s: seq<T>, at: nat)
    requires Distinct(s) && at < |s|
    ensures Distinct(Without(s, at)) && s[at] !in Without(s, at)
  {
    forall j | 0 <= j < |s| && j != at ensures s[j] != s[at] {
      assert Place(j) && Place(at);
    }
    var r := Without(s, at);
    forall j, k | 0 <= j < |r| && 0 <= k < |r| && j != k ensures r[j] != r[k] {
      assert Place(if j < at then j else j + 1) && Place(if k < at then k else k + 1);
    }
  }

  lemma ShownWithout(chars: seq<char>, marks: seq<seq<bool>>, view: map<char, seq<bool>>, at: nat)
    requires Shown(chars, marks, view) && Distinct(chars) && at < |chars|
    ensures Shown(Without(chars, at), Without(marks, at), view - {chars[at]})
  {
    DistinctWithout(chars, at);
    var r, left := Without(chars, at), view - {chars[at]};
    forall k {:trigger Place(k)} | Place(k) && 0 <= k < |r| ensures r[k] in left && left[r[k]] == Without(marks, at)[k] {
      assert r[k] in r;
      assert Place(if k < at then k else k + 1);
    }
    forall c | c in left ensures c in r {
      var k :| 0 <= k < |chars| && chars[k] == c;
      assert r[if k < at then k else k - 1] == c;
    }
  }

  lemma ConsistentWithout(nodes: seq<UniqChar>, chars: seq<char>, maps: seq<SimpleBitmap>, bases: seq<array<Block>>,
                          marks: seq<seq<bool>>, view: map<char, seq<bool>>, at: nat)
    requires Consistent(nodes, chars, maps, bases, marks, view) && at < |nodes|
    ensures Consistent(Without(nodes, at), Without(chars, at), Without(maps, at), Without(bases, at), Without(marks, at), view - {chars[at]})
  {
    DistinctWithout(nodes, at);
    DistinctWithout(chars, at);
    DistinctWithout(maps, at);
    DistinctWithout(bases, at);
    ShownWithout(chars, marks, view, at);
  }

  /** The list from `head` runs through `nodes`. */
  ghost predicate Chain(head: UniqChar?, nodes: seq<UniqChar>)
    reads nodes`next
  {
    head == (if nodes == [] then null else nodes[0])
    && forall k {:trigger Place(k)} :: Place(k) && 0 <= k < |nodes| ==>
         nodes[k].next == if k + 1 < |nodes| then nodes[k + 1] else null
  }

  /** The list elements hold these characters and maps. */
  ghost predicate Contents(nodes: seq<UniqChar>, chars: seq<char>, maps: seq<SimpleBitmap>, bases: seq<array<Block>>, marks: seq<seq<bool>>)
    reads nodes`character, maps, bases
  {
    |nodes| == |chars| == |maps| == |bases| == |marks|
    && forall k {:trigger Place(k)} :: Place(k) && 0 <= k < |nodes| ==>
         nodes[k].character == chars[k] && nodes[k].l1Map == maps[k] && maps[k].base == bases[k]
         && maps[k].Valid() && maps[k].bits == marks[k]
  }

  lemma ContentsWithout(nodes: seq<UniqChar>, chars: seq<char>, maps: seq<SimpleBitmap>, bases: seq<array<Block>>, marks: seq<seq<bool>>, at: nat)
    requires Contents(nodes, chars, maps, bases, marks) && at < |nodes|
    ensures Contents(Without(nodes, at), Without(chars, at), Without(maps, at), Without(bases, at), Without(marks, at))
  {
    forall k {:trigger Place(k)} | Place(k) && 0 <= k < |nodes| - 1
      ensures Without(nodes, at)[k].character == Without(chars, at)[k] && Without(nodes, at)[k].l1Map == Without(maps, at)[k]
      ensures Without(maps, at)[k].base == Without(bases, at)[k]
      ensures Without(maps, at)[k].Valid() && Without(maps, at)[k].bits == Without(marks, at)[k]
    {
      assert Place(if k < at then k else k + 1);
    }
  }

  lemma ContentsAppend(nodes: seq<UniqChar>, chars: seq<char>, maps: seq<SimpleBitmap>, bases: seq<array<Block>>, marks: seq<seq<bool>>, node: UniqChar)
    requires Contents(nodes, chars, maps, bases, marks) && node.l1Map.Valid()
    ensures Contents(nodes + [node], chars + [node.character], maps + [node.l1Map], bases + [node.l1Map.base], marks + [node.l1Map.bits])
  {
  }

  /** A column after the map of `c` has become `bits`: a character without marks is dropped. */
  function Settled(view: map<char, seq<bool>>, c: char, bits: seq<bool>): map<char, seq<bool>> {
    if Ones(bits) == 0 then view - {c} else view[c := bits]
  }

  /** A map with the place `l1` cleared. */
  function Cleared(s: seq<bool>, l1: nat): seq<bool> {
    if l1 < |s| then s[l1 := false] else s
  }

  /** One position of the matrix: the linked list of its characters. */
  class Column {
    var head: UniqChar?

    ghost var nodes: seq<UniqChar>
    ghost var chars: seq<char>
    ghost var maps: seq<SimpleBitmap>
    ghost var bases: seq<array<Block>>
    ghost var marks: seq<seq<bool>>
    /** What the column says: the characters that occur here, each with the layer 1 arrays it may be in. */
    ghost var view: map<char, seq<bool>>

    ghost predicate Valid()
      reads this, nodes, maps, bases
    {
      Consistent(nodes, chars, maps, bases, marks, view)
      && Chain(head, nodes) && Contents(nodes, chars, maps, bases, marks)
    }

    constructor ()
      ensures Valid() && view == map[] && nodes == [] && maps == [] && bases == []
    {
      head, nodes, chars, maps, bases, marks, view := null, [], [], [], [], [], map[];
    }

    lemma EmptyView()
      requires Valid()
      ensures head == null <==> view == map[]
    {
      assert Place(0);
      if nodes == [] {
        assert forall c :: c !in view;
      }
    }

    // The character search the lookups and insertions of the matrix repeat inline
    method Find(c: char) returns (node: UniqChar?, last: UniqChar?, ghost at: nat)
      requires Valid()
      ensures at <= |nodes| && node == if at < |nodes| then nodes[at] else null
      ensures node == null <==> c !in view
      ensures node != null ==> node.character == chars[at] == c
      ensures last == if at == 0 then null else nodes[at - 1]
    {
      node, last, at := head, null, 0;
      while node != null
        invariant at <= |nodes|
        invariant node == if at < |nodes| then nodes[at] else null
        invariant last == if at == 0 then null else nodes[at - 1]
        invariant c !in chars[..at]
        decreases |nodes| - at
      {
        assert Place(at);
        if node.character == c {
          break;
        }
        last, node := node, node.next;
        at := at + 1;
      }
    }

    // What inserting a string does to one position: mark the layer 1 array under the character.
    method Mark(c: char, l1: nat)
      requires Valid() && c != '\0'
      modifies this, nodes, maps, bases
      ensures Valid()
      ensures view == old(view)[c := Marked(if c in old(view) then old(view)[c] else [], l1)]
      ensures forall o :: o in nodes ==> o in old(nodes) || fresh(o)
      ensures forall o :: o in maps ==> o in old(maps) || fresh(o)
      ensures forall o :: o in bases ==> o in old(bases) || fresh(o)
    {
      var node, last, at := Find(c);
      if node == null {
        Append(c, l1, last);
      } else {
        MarkNode(node, l1, at);
      }
    }

    method Append(c: char, l1: nat, last: UniqChar?)
      requires Valid() && c != '\0' && c !in view
      requires last == if nodes == [] then null else nodes[|nodes| - 1]
      modifies this, nodes, maps, bases
      ensures Valid()
      ensures view == old(view)[c := Marked([], l1)]
      ensures forall o :: o in nodes ==> o in old(nodes) || fresh(o)
      ensures forall o :: o in maps ==> o in old(maps) || fresh(o)
      ensures forall o :: o in bases ==> o in old(bases) || fresh(o)
    {
      assert Place(|nodes| - 1);
      var node := NewNode(c, l1);
      ConsistentAppend(nodes, chars, maps, bases, marks, view, node, c, node.l1Map, node.l1Map.base, Marked([], l1));
      Attach(last, node);
    }

    // Makes `node` the last list element.
    method Attach(last: UniqChar?, node: UniqChar)
      requires Valid() && node.next == null && node.l1Map.Valid() && node !in nodes && node.l1Map !in maps && node.l1Map.base !in bases
      requires last == if nodes == [] then null else nodes[|nodes| - 1]
      requires Consistent(nodes + [node], chars + [node.character], maps + [node.l1Map], bases + [node.l1Map.base],
                          marks + [node.l1Map.bits], view[node.character := node.l1Map.bits])
      modifies this, nodes
      ensures Valid() && view == old(view[node.character := node.l1Map.bits])
      ensures nodes == old(nodes) + [node] && maps == old(maps) + [node.l1Map] && bases == old(bases) + [node.l1Map.base]
    {
      Link(last, node);
      ContentsAppend(nodes, chars, maps, bases, marks, node);
      Record(nodes + [node], chars + [node.character], maps + [node.l1Map], bases + [node.l1Map.base],
             marks + [node.l1Map.bits], view[node.character := node.l1Map.bits]);
    }

    // "attach to tail", or start the list
    method Link(last: UniqChar?, node: UniqChar)
      requires Chain(head, nodes) && Distinct(nodes) && node !in nodes && node.next == null
      requires last == if nodes == [] then null else nodes[|nodes| - 1]
      modifies this`head, nodes`next
      ensures Chain(head, nodes + [node])
    {
      if head == null {
        head := node;
      } else {
        assert Place(|nodes| - 1);
        last.next := node;
      }
    }

    method MarkNode(node: UniqChar, l1: nat, ghost at: nat)
      requires Valid() && at < |nodes| && nodes[at] == node
      modifies this, nodes, maps, bases
      ensures Valid()
      ensures old(chars[at]) in old(view)
      ensures view == old(view[chars[at] := Marked(view[chars[at]], l1)])
      ensures forall o :: o in nodes ==> o in old(nodes) || fresh(o)
      ensures forall o :: o in maps ==> o in old(maps) || fresh(o)
      ensures forall o :: o in bases ==> o in old(bases) || fresh(o)
    {
      hide Shown, SimpleBitmap.Valid;
      assert Place(at);
      ShownAt(chars, marks, view, at);
      MarkMap(node.l1Map, l1);
      ShownReplace(chars, marks, view, at, maps[at].bits);
      DistinctReplace(bases, at, maps[at].base);
      view := view[chars[at] := maps[at].bits];
      marks, bases := marks[at := maps[at].bits], bases[at := maps[at].base];
    }

    // What deleting a string does to one position: unless another string of the array shares the character,
    // its mark is cleared; a character without marks is unlinked.
    method Release(c: char, l1: nat, shared: bool) returns (ret: int)
      requires Valid()
      modifies this, nodes, maps, bases
      ensures Valid() && (ret == OK || ret == LOGIC_ERROR) && (ret == OK <==> c in old(view))
      ensures c !in old(view) ==> view == old(view)
      ensures c in old(view) ==> view == Settled(old(view), c, if shared then old(view)[c] else Cleared(old(view)[c], l1))
      ensures forall o :: o in nodes ==> o in old(nodes)
      ensures forall o :: o in maps ==> o in old(maps)
      ensures forall o :: o in bases ==> o in old(bases)
    {
      hide SimpleBitmap.Valid;
      var node, last, at := Find(c);
      if node == null {
        return LOGIC_ERROR;
      }
      assert Place(at);
      if !shared {
        ClearNode(node, l1, at);
      }
      node.l1Map.Facts();
      if node.l1Map.ones == 0 {
        Unlink(node, last, at);
      }
      ret := OK;
    }

    method ClearNode(node: UniqChar, l1: nat, ghost at: nat)
      requires Valid() && at < |nodes| && nodes[at] == node
      modifies this`marks, this`view, maps, bases
      ensures Valid() && chars[at] in old(view) && view == old(view)[chars[at] := Cleared(old(view)[chars[at]], l1)]
      ensures unchanged(nodes)
    {
      hide Shown, SimpleBitmap.Valid;
      assert Place(at);
      ShownAt(chars, marks, view, at);
      ClearMap(node.l1Map, l1);
      ShownReplace(chars, marks, view, at, maps[at].bits);
      view := view[chars[at] := maps[at].bits];
      marks := marks[at := maps[at].bits];
    }

    // "stich and free uniq_char"
    method Unlink(node: UniqChar, last: UniqChar?, ghost at: nat)
      requires Valid() && at < |nodes| && nodes[at] == node
      requires last == if at == 0 then null else nodes[at - 1]
      modifies this, nodes
      ensures Valid() && view == old(view) - {old(chars)[at]}
      ensures nodes == Without(old(nodes), at) && maps == Without(old(maps), at) && bases == Without(old(bases), at)
    {
      ConsistentWithout(nodes, chars, maps, bases, marks, view, at);
      Bypass(node, last, at);
      ContentsWithout(nodes, chars, maps, bases, marks, at);
      Record(Without(nodes, at), Without(chars, at), Without(maps, at), Without(bases, at), Without(marks, at), view - {chars[at]});
    }

    // Brings the ghost description of the list up to date.
    ghost method Record(nodes: seq<UniqChar>, chars: seq<char>, maps: seq<SimpleBitmap>, bases: seq<array<Block>>,
                        marks: seq<seq<bool>>, view: map<char, seq<bool>>)
      requires Consistent(nodes, chars, maps, bases, marks, view) && Chain(head, nodes)
      requires Contents(nodes, chars, maps, bases, marks)
      modifies this`nodes, this`chars, this`maps, this`bases, this`marks, this`view
      ensures Valid()
      ensures this.nodes == nodes && this.chars == chars && this.maps == maps && this.bases == bases && this.marks == marks && this.view == view
    {
      this.nodes, this.chars, this.maps, this.bases, this.marks, this.view := nodes, chars, maps, bases, marks, view;
    }

    method Bypass(node: UniqChar, last: UniqChar?, ghost at: nat)
      requires Chain(head, nodes) && Distinct(nodes) && at < |nodes| && nodes[at] == node
      requires last == if at == 0 then null else nodes[at - 1]
      modifies this`head, nodes`next
      ensures Chain(head, Without(nodes, at))
    {
      assert Place(at) && Place(at - 1) && Place(0);
      if head == node {
        head := node.next;
      } else {
        last.next := node.next;
      }
      ghost var rest := Without(nodes, at);
      forall k {:trigger Place(k)} | Place(k) && 0 <= k < |rest|
        ensures rest[k].next == if k + 1 < |rest| then rest[k + 1] else null
      {
        assert Place(if k < at then k else k + 1);
      }
    }
  }

  method ClearMap(bm: SimpleBitmap, l1: nat)
    requires bm.Valid()
    modifies bm, bm.base
    ensures bm.Valid() && bm.base == old(bm.base) && bm.bits == Cleared(old(bm.bits), l1)
  {
    var _ := bm.Write(l1, false);
  }

  // Grow if necessary, then write.
  method MarkMap(bm: SimpleBitmap, l1: nat)
    requires bm.Valid()
    modifies bm, bm.base
    ensures bm.Valid() && (bm.base == old(bm.base) || fresh(bm.base))
    ensures bm.bits == Marked(old(bm.bits), l1)
  {
    if bm.length < l1 + 1 {
      var _ := bm.FfpGrow(l1 + 1);
    }
    var _ := bm.Write(l1, true);
    assert bm.bits == Marked(old(bm.bits), l1);
  }

  /** What inserting `c` for array `l1` makes of a column. */
  function MarkedView(view: map<char, seq<bool>>, c: char, l1: nat): map<char, seq<bool>> {
    view[c := Marked(if c in view then view[c] else [], l1)]
  }

  /** What deleting a string with `c` here, stored in array `l1`, makes of a column. */
  function ReleasedView(view: map<char, seq<bool>>, c: char, l1: nat, shared: bool): map<char, seq<bool>> {
    if c in view then Settled(view, c, if shared then view[c] else Cleared(view[c], l1)) else view
  }

  ghost predicate Position(i: int) { true }

  ghost function Footprint(x: Column): set<object>
    reads x
  {
    var own: set<object> := {x};
    own + (set o: object | o in x.nodes) + (set o: object | o in x.maps) + (set o: object | o in x.bases)
  }

  ghost predicate PairwiseDisjoint(prints: seq<set<object>>) {
    forall i, j {:trigger Position(i), Position(j)} ::
      Position(i) && Position(j) && 0 <= i < |prints| && 0 <= j < |prints| && i != j ==> prints[i] !! prints[j]
  }

  lemma PairwiseDisjointUpdate(prints: seq<set<object>>, i: nat, own: set<object>)
    requires PairwiseDisjoint(prints) && i < |prints|
    requires forall j {:trigger Position(j)} :: Position(j) && 0 <= j < |prints| && j != i ==> own !! prints[j]
    ensures PairwiseDisjoint(prints[i := own])
  {
  }

  twostate lemma StillValid(x: Column)
    requires old(x.Valid()) && unchanged(old(Footprint(x)))
    ensures x.Valid() && unchanged(x)
  {
    assert x in old(Footprint(x));
    assert forall o: object :: o in old(x.nodes) || o in old(x.maps) || o in old(x.bases) ==> o in old(Footprint(x));
  }

  /** The columns but `x` are as before when nothing in their footprints has changed. */
  twostate lemma OthersStillValid(columns: seq<Column>, new x: int)
    requires forall j {:trigger Position(j)} :: Position(j) && 0 <= j < |columns| ==> j != x ==>
      old(columns[j].Valid()) && unchanged(old(Footprint(columns[j])))
    ensures forall j {:trigger Position(j)} :: Position(j) && 0 <= j < |columns| ==> j != x ==>
      columns[j].Valid() && unchanged(columns[j]) && Footprint(columns[j]) == old(Footprint(columns[j]))
  {
    forall j {:trigger Position(j)} | Position(j) && 0 <= j < |columns| && j != x
      ensures columns[j].Valid() && unchanged(columns[j])
    {
      StillValid(columns[j]);
    }
  }

  /** `max_length` has 16 bits. */
  const COLUMNS_MAX: nat := 0xFFFF

  /** `tag_attr_exist_mat`: one column per string position. */
  class Matrix {
    const columns: seq<Column>
    var maxLength: nat

    ghost var views: seq<map<char, seq<bool>>>
    ghost var prints: seq<set<object>>
    ghost var Repr: set<object>

    ghost predicate Valid()
      reads this, Repr
      ensures Valid() ==> this in Repr
    {
      this in Repr && |views| == |prints| == |columns| && maxLength <= |columns| <= COLUMNS_MAX
      && PairwiseDisjoint(prints)
      && (forall i {:trigger Position(i)} :: Position(i) && 0 <= i < |columns| ==>
            columns[i] in Repr && Footprint(columns[i]) == prints[i] && prints[i] <= Repr && this !in prints[i]
            && columns[i].Valid() && columns[i].view == views[i])
    }

    /** The invariant when column `x` has changed and its description is not up to date. */
    ghost predicate ValidBut(x: nat)
      reads *
    {
      this in Repr && |views| == |prints| == |columns| && maxLength <= |columns| <= COLUMNS_MAX && x < |columns|
      && PairwiseDisjoint(prints) && columns[x].Valid() && this !in Footprint(columns[x])
      && (forall i {:trigger Position(i)} :: Position(i) && 0 <= i < |columns| ==>
            columns[i] in Repr && prints[i] <= Repr && this !in prints[i])
      && (forall i {:trigger Position(i)} :: Position(i) && 0 <= i < |columns| && i != x ==>
            Footprint(columns[i]) == prints[i] && Footprint(columns[x]) !! prints[i]
            && columns[i].Valid() && columns[i].view == views[i])
    }

    // Brings the ghost description of column `x` up to date.
    ghost method Refresh(x: nat)
      requires ValidBut(x)
      modifies this`views, this`prints, this`Repr
      ensures Valid() && views == old(views)[x := columns[x].view] && Repr == old(Repr) + Footprint(columns[x])
    {
      ghost var own := Footprint(columns[x]);
      PairwiseDisjointUpdate(prints, x, own);
      views, prints, Repr := views[x := columns[x].view], prints[x := own], Repr + own;
      assert Position(x);
      OthersStillValid(columns, -1);
    }

    // One position of add_generic_to_generic_exist_mat
    method MarkAt(i: nat, c: char, l1: nat)
      requires Valid() && i < |columns| && c != '\0'
      modifies Repr
      ensures Valid() && maxLength == old(maxLength) && forall o :: o in Repr ==> o in old(Repr) || fresh(o)
      ensures views == old(views)[i := MarkedView(old(views)[i], c, l1)]
    {
      assert Position(i);
      columns[i].Mark(c, l1);
      assert forall o :: o in Footprint(columns[i]) ==> o in old(Footprint(columns[i])) || fresh(o);
      OthersStillValid(columns, i);
      Refresh(i);
    }

    // One position of del_generic_from_generic_exist_mat
    method ReleaseAt(i: nat, c: char, l1: nat, shared: bool) returns (ret: int)
      requires Valid() && i < |columns|
      modifies Repr
      ensures Valid() && maxLength == old(maxLength) && Repr <= old(Repr)
      ensures (ret == OK || ret == LOGIC_ERROR) && (ret == OK <==> c in old(views)[i])
      ensures ret != OK ==> views == old(views)
      ensures ret == OK ==> views == old(views)[i := ReleasedView(old(views)[i], c, l1, shared)]
    {
      assert Position(i);
      ret := columns[i].Release(c, l1, shared);
      assert Footprint(columns[i]) <= old(Footprint(columns[i]));
      OthersStillValid(columns, i);
      Refresh(i);
      assert ret != OK ==> views == old(views);
    }

    // "check if need to update max length"
    method UpdateMaxLength(strLen: nat)
      requires Valid() && strLen <= |columns|
      modifies this`maxLength
      ensures Valid() && Repr == old(Repr) && views == old(views)
      ensures strLen != old(maxLength) ==> maxLength == old(maxLength)
      ensures strLen == old(maxLength) ==> maxLength <= strLen && (maxLength > 0 ==> views[maxLength - 1] != map[])
                                           && forall i :: maxLength <= i < strLen ==> views[i] == map[]
    {
      if strLen == maxLength {
        var n := LastNonEmpty(strLen);
        SetMaxLength(n);
      }
    }

    // "find new max length", 0 if nothing shows up
    method LastNonEmpty(strLen: nat) returns (n: nat)
      requires Valid() && strLen <= |columns|
      ensures n <= strLen && (n > 0 ==> views[n - 1] != map[]) && forall i :: n <= i < strLen ==> views[i] == map[]
    {
      n := 0;
      var i := strLen - 1;
      while i >= 0
        invariant -1 <= i < strLen
        invariant forall j :: i < j < strLen ==> views[j] == map[]
      {
        var empty := IsEmpty(i);
        if !empty {
          return i + 1;
        }
        i := i - 1;
      }
    }

    method IsEmpty(i: nat) returns (empty: bool)
      requires Valid() && i < |columns|
      ensures empty <==> views[i] == map[]
    {
      assert Position(i);
      empty := columns[i].head == null;
      columns[i].EmptyView();
    }

    method SetMaxLength(n: nat)
      requires Valid() && n <= |columns|
      modifies this`maxLength
      ensures Valid() && maxLength == n && views == old(views) && Repr == old(Repr)
    {
      maxLength := n;
      OthersStillValid(columns, -1);
    }

    // init_generic_exist_mat
    constructor (n: nat)
      requires n <= COLUMNS_MAX
      ensures Valid() && fresh(Repr)
      ensures |columns| == n && maxLength == 0 && views == seq(n, _ => map[])
    {
      var cs: seq<Column> := [];
      ghost var all: set<object> := {};
      ghost var own: seq<set<object>> := [];
      for i := 0 to n
        invariant |cs| == |own| == i && fresh(all) && PairwiseDisjoint(own)
        invariant forall j {:trigger Position(j)} :: Position(j) && 0 <= j < i ==>
          cs[j] in all && own[j] == {cs[j]} && own[j] <= all
          && cs[j].Valid() && cs[j].view == map[] && Footprint(cs[j]) == own[j]
      {
        var c := new Column();
        assert Footprint(c) == {c};
        cs, own, all := cs + [c], own + [{c}], all + {c};
      }
      columns, maxLength := cs, 0;
      views, prints, Repr := seq(n, _ => map[]), own, all + {this};
    }

    // add_generic_to_generic_exist_mat: enters a string that has been put into layer 1 array `l1`.
    method Insert(str: string, l1: nat) returns (ret: int)
      requires Valid() && '\0' !in str
      modifies Repr
      ensures Valid() && forall o :: o in Repr ==> o in old(Repr) || fresh(o)
      ensures |str| > |columns| ==> ret == VERIFY_FAIL && views == old(views) && maxLength == old(maxLength)
      ensures |str| <= |columns| ==> ret == OK && views == Inserted(old(views), str, l1)
      ensures |str| <= |columns| ==> maxLength == if |str| > old(maxLength) then |str| else old(maxLength)
    {
      if |str| > |columns| {
        return VERIFY_FAIL;
      }
      for i := 0 to |str|
        invariant Valid() && maxLength == old(maxLength)
        invariant forall o :: o in Repr ==> o in old(Repr) || fresh(o)
        invariant views == Inserted(old(views), str[..i], l1)
      {
        MarkAt(i, str[i], l1);
        assert str[..i + 1] == str[..i] + [str[i]];
      }
      assert str[..|str|] == str;
      if |str| > maxLength {
        maxLength := |str|;
      }
      ret := OK;
    }
  }

  /** The matrix after entering `str` for array `l1`. */
  function Inserted(views: seq<map<char, seq<bool>>>, str: string, l1: nat): (r: seq<map<char, seq<bool>>>)
    requires |str| <= |views|
    ensures |r| == |views|
  {
    seq(|views|, i requires 0 <= i < |views| => if i < |str| then MarkedView(views[i], str[i], l1) else views[i])
  }

  /** A map with the place `l1` set, grown when it does not reach that far. */
  function Marked(s: seq<bool>, l1: nat): seq<bool> {
    Resize(s, if |s| < l1 + 1 then l1 + 1 else |s|, false)[l1 := true]
  }

  lemma MarkedAt(s: seq<bool>, l1: nat, a: nat)
    ensures At(Marked(s, l1), a) <==> At(s, a) || a == l1
  {
  }

  // A new list element whose map has just the place `l1` set
  method NewNode(c: char, l1: nat) returns (node: UniqChar)
    ensures fresh(node) && fresh(node.l1Map) && fresh(node.l1Map.base)
    ensures node.next == null && node.character == c
    ensures node.l1Map.Valid() && node.l1Map.bits == Marked([], l1)
  {
    var raw := new Block[BlockNumber(l1 + 1)];
    var bm := new SimpleBitmap(raw, None, l1 + 1, 0);
    var _ := bm.Write(l1, true);
    node := new UniqChar(c, bm);
    assert bm.bits == Marked([], l1);
  }
}
