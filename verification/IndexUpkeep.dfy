/** Keeping the index right: entering strings and deleting them. */
module IndexUpkeep {
  import opened Util
  import opened Codes
  import opened Block
  import opened BitSeq
  import opened Bitmap
  import opened BitmapSearch
  import opened Strings
  import opened ExistMat
  import opened IndexSpec
  import opened Layer2

  /** The slot holds a string with `c` at position `i`. */
  predicate HasAt(slot: Option<Text>, i: int, c: char) {
    slot.Some? && 0 <= i < |slot.value.str| && slot.value.str[i] == c
  }

  ghost predicate Occurs(slots: seq<Option<Text>>, i: int, c: char) {
    exists k :: 0 <= k < |slots| && HasAt(slots[k], i, c)
  }

  /** The matrix at its sharpest: exactly the marks the stored strings ask for, no character without a mark,
      and the recorded maximum reached by some string. */
  ghost predicate Exact(views: Views, maxLength: nat, live: Live) {
    (forall i, c, a {:trigger Marks(views, i, c, a)} :: Marks(views, i, c, a) ==> 0 <= a < |live| && Occurs(live[a], i, c))
    && Covers(views, maxLength, live)
    && (forall i, c :: 0 <= i < |views| && c in views[i] ==> Ones(views[i][c]) > 0)
    && (maxLength > 0 ==> Reached(live, maxLength))
  }

  ghost predicate Reached(live: Live, n: nat) {
    exists a, k :: 0 <= a < |live| && 0 <= k < |live[a]| && live[a][k].Some? && |live[a][k].value.str| == n
  }

  /** No stored string holds a null, and its recorded length is its length or was never recorded. */
  predicate TextOk(t: Text) {
    '\0' !in t.str && (t.len == 0 || t.len == |t.str|)
  }

  ghost predicate TextsOk(live: Live) {
    forall a, k :: 0 <= a < |live| && 0 <= k < |live[a]| && live[a][k].Some? ==> TextOk(live[a][k].value)
  }

  // ---------------------------------------------------------------------
  // Entering

  function Max(x: nat, y: nat): nat { if x > y then x else y }

  lemma InsertedMarks(views: Views, str: string, l1: nat, i: int, c: char, a: int)
    requires |str| <= |views|
    ensures Marks(Inserted(views, str, l1), i, c, a) <==>
      Marks(views, i, c, a) || (0 <= i < |str| && c == str[i] && a == l1)
  {
    if 0 <= i < |str| && a >= 0 && c == str[i] {
      MarkedAt(if c in views[i] then views[i][c] else [], l1, a);
    }
  }

  /** Storing a string and entering it in the matrix keeps the matrix invariant. */
  lemma InsertKeepsCovers(views: Views, maxLength: nat, live: Live, p: Pos, t: Text)
    requires Covers(views, maxLength, live) && |t.str| <= |views|
    requires p.arr < |live| && p.slot < |live[p.arr]| && live[p.arr][p.slot].None?
    ensures Covers(Inserted(views, t.str, p.arr), Max(maxLength, |t.str|), Put(live, p, Some(t)))
  {
    var views': Views, live': Live := Inserted(views, t.str, p.arr), Put(live, p, Some(t));
    forall a, k | 0 <= a < |live'| && 0 <= k < |live'[a]| && live'[a][k].Some?
      ensures Covered(views', Max(maxLength, |t.str|), live'[a][k].value.str, a)
    {
      var s := live'[a][k].value.str;
      if a != p.arr || k != p.slot {
        assert Covered(views, maxLength, live[a][k].value.str, a);
      }
      forall j | 0 <= j < |s| ensures Marks(views', 0 + j, s[j], a) {
        InsertedMarks(views, t.str, p.arr, 0 + j, s[j], a);
      }
    }
    forall i, c, a {:trigger Marks(views', i, c, a)} | Marks(views', i, c, a) ensures 0 <= a < |live'| {
      InsertedMarks(views, t.str, p.arr, i, c, a);
    }
  }

  // ---------------------------------------------------------------------
  // Deleting

  /** What the deletion takes for "shares this character in this position": a recorded length of 0 passes
      the length test, because it is decremented as an unsigned number. */
  predicate MayShare(slot: Option<Text>, i: nat, c: char) {
    slot.Some? && (slot.value.len == 0 || i < slot.value.len) && HasAt(slot, i, c)
  }

  ghost predicate Shared(slots: seq<Option<Text>>, k: nat, i: nat, c: char) {
    exists j :: 0 <= j < |slots| && j != k && MayShare(slots[j], i, c)
  }

  /** The matrix after deleting slot `k` of array `a`, up to position `n`. */
  ghost function Released(views: Views, str: string, n: nat, a: nat, slots: seq<Option<Text>>, k: nat): (r: Views)
    requires n <= |str| && n <= |views|
    ensures |r| == |views|
  {
    seq(|views|, i requires 0 <= i < |views| =>
      if i < n then ReleasedView(views[i], str[i], a, Shared(slots, k, i, str[i])) else views[i])
  }

  /** The matrix after deleting the string at `p`, over its recorded length. */
  ghost function Deleted(views: Views, live: Live, p: Pos): (r: Views)
    requires p.arr < |live| && p.slot < |live[p.arr]| && live[p.arr][p.slot].Some?
    requires live[p.arr][p.slot].value.len <= Min(|live[p.arr][p.slot].value.str|, |views|)
    ensures |r| == |views|
  {
    var t := live[p.arr][p.slot].value;
    Released(views, t.str, t.len, p.arr, live[p.arr], p.slot)
  }

  lemma NoOnesNoMark(s: seq<bool>, a: int)
    requires Ones(s) == 0
    ensures !At(s, a)
  {
    OnesPositive(s, 0);
    assert s[0..] == s;
  }

  lemma ReleasedMarks(views: Views, str: string, n: nat, a: nat, slots: seq<Option<Text>>, k: nat, i: int, c: char, b: int)
    requires n <= |str| && n <= |views|
    ensures Marks(Released(views, str, n, a, slots, k), i, c, b) <==>
      Marks(views, i, c, b) && !(b == a && i < n && c == str[i] && !Shared(slots, k, i, c))
  {
    if 0 <= i < n && c == str[i] && c in views[i] {
      var left := if Shared(slots, k, i, c) then views[i][c] else Cleared(views[i][c], a);
      if Ones(left) == 0 {
        NoOnesNoMark(left, b);
      }
    }
  }

  /** The maximum length after a deletion, as a relation: unchanged, or the last column that is not empty. */
  ghost predicate LengthUpdated(views: Views, len: nat, before: nat, after: nat) {
    if len != before then after == before
    else after <= len && (after > 0 ==> after <= |views| && views[after - 1] != map[])
         && forall i :: after <= i < len && i < |views| ==> views[i] == map[]
  }

  /** Deleting a string, whether or not its length was recorded, keeps the matrix invariant. */
  lemma DeleteKeepsCovers(views: Views, maxLength: nat, live: Live, p: Pos, after: nat)
    requires Covers(views, maxLength, live) && TextsOk(live) && maxLength <= |views|
    requires p.arr < |live| && p.slot < |live[p.arr]| && live[p.arr][p.slot].Some?
    requires live[p.arr][p.slot].value.len <= |views|
    requires LengthUpdated(Deleted(views, live, p), live[p.arr][p.slot].value.len, maxLength, after)
    ensures Covers(Deleted(views, live, p), after, Put(live, p, None))
  {
    var t := live[p.arr][p.slot].value;
    var views': Views, live': Live := Deleted(views, live, p), Put(live, p, None);
    forall a, k | 0 <= a < |live'| && 0 <= k < |live'[a]| && live'[a][k].Some?
      ensures Covered(views', after, live'[a][k].value.str, a)
    {
      var s := live'[a][k].value.str;
      assert Covered(views, maxLength, live[a][k].value.str, a);
      forall j | 0 <= j < |s| ensures Marks(views', 0 + j, s[j], a) {
        assert Marks(views, 0 + j, s[j], a);
        ReleasedMarks(views, t.str, t.len, p.arr, live[p.arr], p.slot, 0 + j, s[j], a);
        assert a == p.arr ==> MayShare(live[p.arr][k], j, s[j]);
      }
      if |s| > 0 {
        assert Marks(views', 0 + (|s| - 1), s[|s| - 1], a);
        assert s[|s| - 1] in views'[|s| - 1];
      }
    }
    forall i, c, a {:trigger Marks(views', i, c, a)} | Marks(views', i, c, a) ensures 0 <= a < |live'| {
      ReleasedMarks(views, t.str, t.len, p.arr, live[p.arr], p.slot, i, c, a);
    }
  }

  /** Entering a string keeps the matrix exact. */
  lemma InsertKeepsExact(views: Views, maxLength: nat, live: Live, p: Pos, t: Text)
    requires Exact(views, maxLength, live) && |t.str| <= |views|
    requires p.arr < |live| && p.slot < |live[p.arr]| && live[p.arr][p.slot].None?
    ensures Exact(Inserted(views, t.str, p.arr), Max(maxLength, |t.str|), Put(live, p, Some(t)))
  {
    var views': Views, live': Live := Inserted(views, t.str, p.arr), Put(live, p, Some(t));
    InsertKeepsCovers(views, maxLength, live, p, t);
    forall i, c, a {:trigger Marks(views', i, c, a)} | Marks(views', i, c, a) ensures 0 <= a < |live'| && Occurs(live'[a], i, c) {
      InsertedMarks(views, t.str, p.arr, i, c, a);
      if Marks(views, i, c, a) {
        var k :| 0 <= k < |live[a]| && HasAt(live[a][k], i, c);
        assert HasAt(live'[a][k], i, c);
      } else {
        assert HasAt(live'[a][p.slot], i, c);
      }
    }
    forall i, c | 0 <= i < |views'| && c in views'[i] ensures Ones(views'[i][c]) > 0 {
      if i < |t.str| && c == t.str[i] {
        OnesPositive(views'[i][c], 0);
        assert views'[i][c][0..] == views'[i][c] && views'[i][c][p.arr];
      }
    }
    ReachedAfterPut(live, p, Some(t), maxLength);
    if |t.str| > maxLength {
      assert live'[p.arr][p.slot].Some?;
    }
  }

  lemma ReachedAfterPut(live: Live, p: Pos, v: Option<Text>, n: nat)
    requires p.arr < |live| && p.slot < |live[p.arr]| && (live[p.arr][p.slot].Some? ==> |live[p.arr][p.slot].value.str| != n)
    ensures Reached(live, n) ==> Reached(Put(live, p, v), n)
  {
    if Reached(live, n) {
      var a, k :| 0 <= a < |live| && 0 <= k < |live[a]| && live[a][k].Some? && |live[a][k].value.str| == n;
      assert Put(live, p, v)[a][k] == live[a][k];
    }
  }

  /** Deleting a string whose length was recorded keeps the matrix exact. */
  lemma DeleteKeepsExact(views: Views, maxLength: nat, live: Live, p: Pos, after: nat)
    requires Exact(views, maxLength, live) && TextsOk(live) && maxLength <= |views|
    requires p.arr < |live| && p.slot < |live[p.arr]| && live[p.arr][p.slot].Some?
    requires live[p.arr][p.slot].value.len == |live[p.arr][p.slot].value.str| <= |views|
    requires LengthUpdated(Deleted(views, live, p), live[p.arr][p.slot].value.len, maxLength, after)
    ensures Exact(Deleted(views, live, p), after, Put(live, p, None))
  {
    var t := live[p.arr][p.slot].value;
    var views': Views, live': Live := Deleted(views, live, p), Put(live, p, None);
    DeleteKeepsCovers(views, maxLength, live, p, after);
    forall i, c, a {:trigger Marks(views', i, c, a)} | Marks(views', i, c, a) ensures 0 <= a < |live'| && Occurs(live'[a], i, c) {
      MarkStillOccurs(views, live, p, i, c, a);
    }
    if t.len != maxLength {
      ReachedAfterPut(live, p, None, maxLength);
    } else if after > 0 {
      LongestIsReached(views', live', after);
    }
  }

  /** A mark that survives the deletion still has a string behind it. */
  lemma MarkStillOccurs(views: Views, live: Live, p: Pos, i: int, c: char, a: int)
    requires p.arr < |live| && p.slot < |live[p.arr]| && live[p.arr][p.slot].Some?
    requires live[p.arr][p.slot].value.len == |live[p.arr][p.slot].value.str| <= |views|
    requires Marks(Deleted(views, live, p), i, c, a)
    requires Marks(views, i, c, a) ==> 0 <= a < |live| && Occurs(live[a], i, c)
    ensures 0 <= a < |live| && Occurs(Put(live, p, None)[a], i, c)
  {
    var t := live[p.arr][p.slot].value;
    ReleasedMarks(views, t.str, t.len, p.arr, live[p.arr], p.slot, i, c, a);
    var k :| 0 <= k < |live[a]| && HasAt(live[a][k], i, c);
    if a == p.arr && k == p.slot {
      var j :| 0 <= j < |live[a]| && j != p.slot && MayShare(live[a][j], i, c);
      assert HasAt(Put(live, p, None)[a][j], i, c);
    } else {
      assert HasAt(Put(live, p, None)[a][k], i, c);
    }
  }

  /** A last column that is not empty is the end of some string. */
  lemma LongestIsReached(views: Views, live: Live, n: nat)
    requires 0 < n <= |views| && views[n - 1] != map[]
    requires forall i, c :: 0 <= i < |views| && c in views[i] ==> Ones(views[i][c]) > 0
    requires forall i, c, a {:trigger Marks(views, i, c, a)} :: Marks(views, i, c, a) ==> 0 <= a < |live| && Occurs(live[a], i, c)
    requires Covers(views, n, live)
    ensures Reached(live, n)
  {
    var c :| c in views[n - 1];
    OnesPositive(views[n - 1][c], 0);
    assert views[n - 1][c][0..] == views[n - 1][c];
    var a :| 0 <= a < |views[n - 1][c]| && views[n - 1][c][a];
    assert Marks(views, n - 1, c, a);
    var k :| 0 <= k < |live[a]| && HasAt(live[a][k], n - 1, c);
    assert Covered(views, n, live[a][k].value.str, a);
  }

  // ---------------------------------------------------------------------
  // The operations

  // Does another string of the array share the character? The inner loop of del_generic_from_generic_exist_mat
  method SharesChar<T>(l2: L2Arr<T>, a: nat, k: nat, i: nat, c: char) returns (shared: bool)
    requires l2.Valid() && a < |l2.live| && c != '\0'
    ensures shared == Shared(l2.live[a], k, i, c)
  {
    hide Ones, SimpleBitmap.Valid;
    l2.UsageFacts(a);
    ghost var slots, bits := l2.live[a], l2.l1[a].usage.bits;
    var usage := l2.l1[a].usage;
    var skip: nat := 0;
    for n := 0 to usage.ones
      invariant skip <= |bits| && Ones(bits[..skip]) == n
      invariant forall j :: 0 <= j < skip && j != k ==> !MayShare(slots[j], i, c)
    {
      var j := NextOne(usage, n, skip);
      skip := j + 1;
      if j == k {
        continue;
      }
      var other := l2.l1[a].arr[j];
      assert slots[j] == Some(other.Value());
      if (other.len == 0 || i < other.len) && i < |other.str| && other.str[i] == c {
        return true;
      }
    }
    OnesPositive(bits, skip);
    shared := false;
  }

  // One position of del_generic_from_generic_exist_mat
  method DeletePosition<T>(matrix: Matrix, l2: L2Arr<T>, a: nat, k: nat, i: nat, c: char) returns (ret: int)
    requires matrix.Valid() && l2.Valid() && matrix.Repr !! l2.Repr
    requires a < |l2.live| && i < |matrix.columns| && c != '\0'
    modifies matrix.Repr
    ensures matrix.Valid() && matrix.Repr <= old(matrix.Repr) && matrix.maxLength == old(matrix.maxLength)
    ensures ret == OK <==> c in old(matrix.views)[i]
    ensures ret == OK ==> matrix.views == old(matrix.views)[i := ReleasedView(old(matrix.views)[i], c, a, Shared(l2.live[a], k, i, c))]
  {
    var shared := SharesChar(l2, a, k, i, c);
    ret := matrix.ReleaseAt(i, c, a, shared);
  }

  /** The next position to delete still has the character. */
  lemma StillThere(views: Views, maxLength: nat, live: Live, p: Pos, i: nat)
    requires Covers(views, maxLength, live) && maxLength <= |views|
    requires p.arr < |live| && p.slot < |live[p.arr]| && live[p.arr][p.slot].Some? && i < |live[p.arr][p.slot].value.str|
    ensures i < |views| && live[p.arr][p.slot].value.str[i] in views[i]
  {
    var t := live[p.arr][p.slot].value;
    assert Covered(views, maxLength, t.str, p.arr);
    assert Marks(views, 0 + i, t.str[i], p.arr);
  }

  // The loop over the positions of the string at `p`
  method DeletePositions<T>(matrix: Matrix, l2: L2Arr<T>, a: nat, k: nat, str: string, len: nat) returns (ret: int)
    requires matrix.Valid() && l2.Valid() && matrix.Repr !! l2.Repr && '\0' !in str
    requires Covers(matrix.views, matrix.maxLength, l2.live)
    requires a < |l2.live| && k < |l2.live[a]| && l2.live[a][k] == Some(Text(str, len)) && len <= |str|
    modifies matrix.Repr
    ensures matrix.Valid() && matrix.Repr <= old(matrix.Repr) && matrix.maxLength == old(matrix.maxLength)
    ensures ret == OK && len <= |matrix.columns| && len <= |old(matrix.views)|
    ensures matrix.views == Released(old(matrix.views), str, len, a, l2.live[a], k)
  {
    ghost var views, live := matrix.views, l2.live;
    if len > 0 {
      StillThere(views, matrix.maxLength, live, Pos(a, k), len - 1);
    }
    assert Released(views, str, 0, a, live[a], k) == views;
    for i := 0 to len
      invariant matrix.Valid() && l2.Valid() && matrix.Repr <= old(matrix.Repr)
      invariant matrix.maxLength == old(matrix.maxLength)
      invariant matrix.views == Released(views, str, i, a, live[a], k)
    {
      StillThere(views, matrix.maxLength, live, Pos(a, k), i);
      ret := DeletePosition(matrix, l2, a, k, i, str[i]);
      if ret != OK {
        return;
      }
      assert matrix.views == Released(views, str, i + 1, a, live[a], k);
    }
    ret := OK;
  }

  // del_generic_from_generic_exist_mat
  method DeleteFromMatrix<T>(matrix: Matrix, l2: L2Arr<T>, index: nat) returns (ret: int)
    requires matrix.Valid() && l2.Valid() && matrix.Repr !! l2.Repr
    requires Covers(matrix.views, matrix.maxLength, l2.live) && TextsOk(l2.live)
    modifies matrix.Repr
    ensures matrix.Valid() && matrix.Repr <= old(matrix.Repr)
    ensures ret == OK <==> UsedAt(l2.live, l2.size, index)
    ensures ret != OK ==> matrix.views == old(matrix.views) && matrix.maxLength == old(matrix.maxLength)
    ensures ret == OK ==> var p := Pos(index / l2.size, index % l2.size);
            l2.live[p.arr][p.slot].value.len <= |old(matrix.views)|
            && matrix.views == Deleted(old(matrix.views), l2.live, p)
            && LengthUpdated(matrix.views, l2.live[p.arr][p.slot].value.len, old(matrix.maxLength), matrix.maxLength)
  {
    var record;
    ret, record := l2.Get(index);
    if ret != OK {
      return;
    }
    var len := record.len;
    ret := DeletePositions(matrix, l2, index / l2.size, index % l2.size, record.str, len);
    matrix.UpdateMaxLength(len);
  }
}
