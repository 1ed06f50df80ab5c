/** A substring index as the database uses it: translation records and their existence matrix, in step. */
module SubstringIndex {
  import opened Util
  import opened Arith
  import opened Codes
  import opened Block
  import opened Bitmap
  import opened Strings
  import opened ExistMat
  import opened IndexSpec
  import opened PartMap
  import opened Layer2
  import opened PartLookup
  import opened IndexUpkeep

  class Index<T> {
    const l2: L2Arr<T>
    const matrix: Matrix

    ghost predicate Valid()
      reads this, l2, l2.Repr, matrix, matrix.Repr
    {
      l2.Valid() && matrix.Valid() && l2.Repr !! matrix.Repr && this !in l2.Repr + matrix.Repr
      && 0 < |matrix.columns|
      && Covers(matrix.views, matrix.maxLength, l2.live) && TextsOk(l2.live)
    }

    // init_database_handle, for one index
    constructor (count: nat, n: nat, strMax: nat, blank: T)
      requires 0 < count && 0 < n && 0 < strMax <= COLUMNS_MAX
      ensures Valid() && fresh(l2.Repr) && fresh(matrix.Repr)
      ensures l2.live == seq(count, _ => seq(n, _ => None)) && |matrix.columns| == strMax
    {
      l2 := new L2Arr(count, n, blank);
      matrix := new Matrix(strMax);
    }

    // What linking a new string does: take a record, copy the string into it, enter it in the matrix.
    method AddString(str: string, blank: T) returns (obj: Trans<T>, index: nat, ghost p: Pos)
      requires Valid() && '\0' !in str && |str| <= |matrix.columns|
      modifies l2.Repr, matrix.Repr
      ensures Valid()
      ensures FirstFree(Opened(old(l2.live), l2.size), p)
      ensures l2.live == Put(Opened(old(l2.live), l2.size), p, Some(Text(str, 0)))
      ensures matrix.views == Inserted(old(matrix.views), str, p.arr)
      ensures index == p.arr * l2.size + p.slot
      ensures Taken(l2, p, obj, str) && obj.str == str && obj.Rest() == (0, 0, blank, index)
      ensures old(l2.l1) <= l2.l1 && forall o: Trans<T> :: o in old(l2.Repr) && o != obj ==> o.Value() == old(o.Value()) && o.Rest() == old(o.Rest())
    {
      ghost var opened_ := Opened(l2.live, l2.size);
      ghost var views, maxLength := matrix.views, matrix.maxLength;
      obj, index, p := Store(l2, str, blank);
      var _ := matrix.Insert(str, index / l2.size);
      InsertKeepsCovers(views, maxLength, opened_, p, Text(str, 0));
    }

    // What unlinking the last user of a string does: delete it from the matrix, then from the records.
    method RemoveString(index: nat, blank: T) returns (ret: int)
      requires Valid()
      modifies l2.Repr, matrix.Repr
      ensures Valid()
      ensures ret == OK <==> UsedAt(old(l2.live), l2.size, index)
      ensures ret == OK ==> l2.live == Put(old(l2.live), Pos(index / l2.size, index % l2.size), None)
      ensures ret == OK ==> index % l2.size < |l2.l1[index / l2.size].arr| && l2.l1 == old(l2.l1)
      ensures ret == OK ==> forall o: Trans<T> :: o in old(l2.Repr) && o != l2.RecordAt(Pos(index / l2.size, index % l2.size)) ==>
        o.Value() == old(o.Value()) && o.Rest() == old(o.Rest())
      ensures ret != OK ==> l2.live == old(l2.live) && unchanged(old(l2.Repr))
    {
      ghost var views, maxLength, live, p := matrix.views, matrix.maxLength, l2.live, Pos(index / l2.size, index % l2.size);
      ret := DeleteFromMatrix(matrix, l2, index);
      if ret == OK {
        DeleteKeepsCovers(views, maxLength, live, p, matrix.maxLength);
      }
      ret := l2.Delete(index, blank);
    }

    // lookup_..._part, in any state these operations can reach: exactly the stored strings containing `part`
    method Lookup(part: string, mapBuf: SimpleBitmap, mapResult: SimpleBitmap, buf: array<Trans?<T>>, size: nat)
      returns (ret: int, used: nat, ghost hits: seq<Pos>)
      requires Valid() && part != "" && |part| <= |matrix.columns| && '\0' !in part && 0 < size <= buf.Length
      requires mapBuf.Valid() && mapResult.Valid() && mapBuf != mapResult && mapBuf.base != mapResult.base
      requires {this, mapBuf, mapBuf.base, mapResult, mapResult.base, buf} !! matrix.Repr + l2.Repr
      modifies mapBuf, mapBuf.base, mapResult, mapResult.base, buf
      ensures Valid() && l2.live == old(l2.live) && mapBuf.Valid() && mapResult.Valid()
      ensures IsNaiveResult(l2.live, part, hits)
      ensures ret == if |hits| < size then OK else BUFFER_FULL
      ensures used == (if |hits| < size then |hits| else size) && Filled(l2, buf, hits[..used])
    {
      hits := Scan(l2.live, |l2.live|, part, -1, -1);
      ScanIsNaive(l2.live, part);
      ret, used := LookupPartRanged(l2, matrix, part, -1, -1, mapBuf, mapResult, buf, size);
    }
  }

  /** The records whose string contains `part`, each once, in ascending order of array and slot. */
  ghost predicate IsNaiveResult(live: Live, part: string, found: seq<Pos>) {
    (forall p :: p in found <==>
      p.arr < |live| && p.slot < |live[p.arr]| && live[p.arr][p.slot].Some? && Contains(live[p.arr][p.slot].value.str, part))
    && forall i, j :: 0 <= i < j < |found| ==> Before(found[i], found[j])
  }

  lemma ScanIsNaive(live: Live, part: string)
    ensures IsNaiveResult(live, part, Scan(live, |live|, part, -1, -1))
  {
    ScanExact(live, |live|, part, -1, -1);
    forall a, k | 0 <= a < |live| && 0 <= k < |live[a]| && live[a][k].Some?
      ensures Hit(live[a][k], part, -1, -1) == Contains(live[a][k].value.str, part)
    {
      UnboundedIsContains(live[a][k].value.str, part);
    }
  }

  /** There is only one such list, so the lookup leaves no choice. */
  lemma {:induction false} NaiveResultUnique(live: Live, part: string, r: seq<Pos>, s: seq<Pos>)
    requires IsNaiveResult(live, part, r) && IsNaiveResult(live, part, s)
    ensures r == s
  {
    SameAscending(r, s);
  }

  lemma {:induction false} SameAscending(r: seq<Pos>, s: seq<Pos>)
    requires forall p :: p in r <==> p in s
    requires forall i, j :: 0 <= i < j < |r| ==> Before(r[i], r[j])
    requires forall i, j :: 0 <= i < j < |s| ==> Before(s[i], s[j])
    ensures r == s
    decreases |r|
  {
    if r == [] {
      FirstIsIn(s);
    } else {
      assert r[0] in s && |s| > 0;
      assert s[0] in r;
      assert r[0] == s[0];
      forall p ensures p in r[1..] <==> p in s[1..] {
        assert p in r <==> p == r[0] || p in r[1..];
        assert p in s <==> p == s[0] || p in s[1..];
        assert r[0] !in r[1..] && s[0] !in s[1..];
      }
      SameAscending(r[1..], s[1..]);
    }
  }

  /** An empty needle finds nothing, although every string contains it: index and scan agree on it
      only when nothing is stored. */
  lemma EmptyNeedle(live: Live)
    ensures Scan(live, |live|, "", -1, -1) == [] <==>
      forall a, k :: 0 <= a < |live| && 0 <= k < |live[a]| ==> live[a][k].None?
  {
    ScanExact(live, |live|, "", -1, -1);
    var r := Scan(live, |live|, "", -1, -1);
    FirstIsIn(r);
    forall a, k | 0 <= a < |live| && 0 <= k < |live[a]| && live[a][k].Some? ensures Pos(a, k) in r {
      assert OccursAt(live[a][k].value.str, "", 0);
    }
    if r == [] {
      forall a, k | 0 <= a < |live| && 0 <= k < |live[a]| ensures live[a][k].None? {
        assert Pos(a, k) !in r;
      }
    }
  }

  /** The pool has `obj` at `p`, under the string. */
  ghost predicate Taken<T>(l2: L2Arr<T>, p: Pos, obj: Trans<T>, str: string)
    reads l2
  {
    p.arr < |l2.live| && p.slot < |l2.live[p.arr]| && l2.live[p.arr][p.slot].Some? && l2.live[p.arr][p.slot].value.str == str
    && p.arr < |l2.l1| && p.slot < |l2.l1[p.arr].arr| && obj == l2.RecordAt(p)
  }

  /** A lookup with room for all it finds puts the record of a string in the buffer exactly when the string contains
      what is looked for. */
  lemma TakenIsFound<T>(l2: L2Arr<T>, p: Pos, obj: Trans<T>, str: string, part: string, hits: seq<Pos>, buf: array<Trans?<T>>)
    requires l2.Valid() && Taken(l2, p, obj, str) && IsNaiveResult(l2.live, part, hits) && Filled(l2, buf, hits)
    ensures obj in buf[..|hits|] <==> Contains(str, part)
  {
    hide SimpleBitmap.Valid;
    if Contains(str, part) {
      var k :| 0 <= k < |hits| && hits[k] == p;
      assert buf[..|hits|][k] == obj;
    }
    if obj in buf[..|hits|] {
      var k :| 0 <= k < |hits| && buf[..|hits|][k] == obj;
      var q := hits[k];
      assert q in hits;
      ValueAt(l2, p);
      ValueAt(l2, q);
    }
  }

  lemma ValueAt<T>(l2: L2Arr<T>, p: Pos)
    requires l2.Valid() && p.arr < |l2.live| && p.slot < |l2.live[p.arr]| && l2.live[p.arr][p.slot].Some?
    ensures p.arr < |l2.l1| && p.slot < |l2.l1[p.arr].arr| && l2.live[p.arr][p.slot].value.str == l2.RecordAt(p).str
  {
    l2.UsageFacts(p.arr);
    assert Layer2.Array(p.arr);
  }

  // A record with the string copied into it
  method Store<T>(l2: L2Arr<T>, str: string, blank: T) returns (obj: Trans<T>, index: nat, ghost p: Pos)
    requires l2.Valid()
    modifies l2.Repr
    ensures l2.Valid() && forall o :: o in l2.Repr ==> o in old(l2.Repr) || fresh(o)
    ensures FirstFree(Opened(old(l2.live), l2.size), p)
    ensures l2.live == Put(Opened(old(l2.live), l2.size), p, Some(Text(str, 0)))
    ensures index == p.arr * l2.size + p.slot && index / l2.size == p.arr && index % l2.size == p.slot
    ensures old(l2.l1) <= l2.l1 && forall o: Trans<T> :: o in old(l2.Repr) && o != obj ==> o.Value() == old(o.Value()) && o.Rest() == old(o.Rest())
    ensures obj in l2.Repr && Taken(l2, p, obj, str) && obj.str == str && obj.Rest() == (0, 0, blank, index)
  {
    obj, index, p := l2.Add(blank);
    l2.SlotInArray(p);
    DivMod(p.arr, l2.size, p.slot);
    PutTwice(Opened(old(l2.live), l2.size), p, Some(Text("", 0)), Some(Text(str, 0)));
    l2.SetStr(index / l2.size, index % l2.size, str);
    l2.RecordOwned(p);
  }

  lemma PutTwice(live: Live, p: Pos, v: Option<Text>, w: Option<Text>)
    ensures Put(Put(live, p, v), p, w) == Put(live, p, w)
  {
    if p.arr < |live| && p.slot < |live[p.arr]| {
      assert live[p.arr][p.slot := v][p.slot := w] == live[p.arr][p.slot := w];
    }
  }
}
