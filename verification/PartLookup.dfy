/** The partial lookup: the map phase, then a real substring test on the records of the marked arrays. */
module PartLookup {
  import opened Util
  import opened Codes
  import opened Block
  import opened BitSeq
  import opened Bitmap
  import opened BitmapSearch
  import opened Strings
  import opened ExistMat
  import opened IndexSpec
  import opened PartMap
  import opened Layer2

  /** The slots from `i` to `j` that are not used add nothing to the scan. */
  lemma {:induction false} UnusedSlots(slots: seq<Option<Text>>, a: nat, i: nat, j: nat, part: string, min: int, max: int)
    requires i <= j <= |slots| && forall k :: i <= k < j ==> slots[k].None?
    ensures ScanSlots(slots, a, i, part, min, max) == ScanSlots(slots, a, j, part, min, max)
  {
    if i < j {
      UnusedSlots(slots, a, i, j - 1, part, min, max);
    }
  }

  lemma {:induction false} ScanSlotsPrefix(slots: seq<Option<Text>>, a: nat, i: nat, j: nat, part: string, min: int, max: int)
    requires i <= j <= |slots|
    ensures ScanSlots(slots, a, i, part, min, max) <= ScanSlots(slots, a, j, part, min, max)
  {
    if i < j {
      ScanSlotsPrefix(slots, a, i, j - 1, part, min, max);
    }
  }

  lemma {:induction false} ScanPrefix(live: Live, i: nat, j: nat, part: string, min: int, max: int)
    requires i <= j <= |live|
    ensures Scan(live, i, part, min, max) <= Scan(live, j, part, min, max)
  {
    if i < j {
      ScanPrefix(live, i, j - 1, part, min, max);
    }
  }

  /** Positions whose array and slot exist. */
  ghost predicate Exist<T>(l2: L2Arr<T>, found: seq<Pos>)
    reads l2
  {
    forall k :: 0 <= k < |found| ==> found[k].arr < |l2.l1| && found[k].slot < |l2.l1[found[k].arr].arr|
  }

  /** The first entries of the result buffer are the records found, in order. */
  ghost predicate Filled<T>(l2: L2Arr<T>, buf: array<Trans?<T>>, found: seq<Pos>)
    reads l2, buf
  {
    Exist(l2, found) && |found| <= buf.Length && forall k :: 0 <= k < |found| ==> buf[k] == l2.RecordAt(found[k])
  }

  // The substring test on one record, and its entry into the buffer
  method FilterSlot<T>(l2: L2Arr<T>, a: nat, k: nat, part: string, min: int, max: int, buf: array<Trans?<T>>, from: nat, ghost found: seq<Pos>)
    returns (used: nat, ghost hits: seq<Pos>)
    requires l2.Valid() && buf !in l2.Repr && a < |l2.live| && k < |l2.live[a]| && l2.live[a][k].Some? && part != ""
    requires from == |found| < buf.Length && Filled(l2, buf, found)
    modifies buf
    ensures hits == if Hit(l2.live[a][k], part, min, max) then [Pos(a, k)] else []
    ensures used == |found + hits| && Filled(l2, buf, found + hits)
  {
    l2.UsageFacts(a);
    var record := l2.l1[a].arr[k];
    used, hits := from, [];
    assert found + hits == found;
    var match_ := MatchSubMinMax(record.str, part, min, max);
    if match_ {
      buf[used] := record;
      used, hits := used + 1, [Pos(a, k)];
    }
  }

  lemma NextScanned(slots: seq<Option<Text>>, a: nat, skip: nat, k: nat, part: string, min: int, max: int)
    requires skip <= k < |slots| && slots[k].Some? && forall i :: skip <= i < k ==> slots[i].None?
    ensures ScanSlots(slots, a, k + 1, part, min, max)
         == ScanSlots(slots, a, skip, part, min, max) + (if Hit(slots[k], part, min, max) then [Pos(a, k)] else [])
  {
    UnusedSlots(slots, a, skip, k, part, min, max);
  }

  // The next used slot of the array
  method FilterNext<T>(l2: L2Arr<T>, a: nat, ghost j: nat, skip: nat, part: string, min: int, max: int, buf: array<Trans?<T>>, from: nat, ghost found: seq<Pos>)
    returns (next: nat, used: nat, ghost hits: seq<Pos>)
    requires l2.Valid() && buf !in l2.Repr && a < |l2.l1| && part != ""
    requires var bits := l2.l1[a].usage.bits; skip <= |bits| == |l2.live[a]| && Ones(bits[..skip]) == j < Ones(bits)
    requires from == |found| < buf.Length && Filled(l2, buf, found)
    modifies buf
    ensures var bits := l2.l1[a].usage.bits; next <= |bits| && Ones(bits[..next]) == j + 1
    ensures used == |found + hits| <= |found| + 1 && Filled(l2, buf, found + hits)
    ensures ScanSlots(l2.live[a], a, next, part, min, max) == ScanSlots(l2.live[a], a, skip, part, min, max) + hits
  {
    hide SimpleBitmap.Valid, ScanSlots, Hit, Ones, Filled;
    l2.UsageFacts(a);
    var k := NextOne(l2.l1[a].usage, j, skip);
    NextScanned(l2.live[a], a, skip, k, part, min, max);
    used, hits := FilterSlot(l2, a, k, part, min, max, buf, from, found);
    next := k + 1;
  }

  lemma MoreHits(found: seq<Pos>, slots: seq<Option<Text>>, a: nat, n: nat, part: string, min: int, max: int)
    requires n <= |slots|
    ensures found + ScanSlots(slots, a, n, part, min, max) <= found + ScanSlots(slots, a, |slots|, part, min, max)
  {
    ScanSlotsPrefix(slots, a, n, |slots|, part, min, max);
  }

  lemma AllUsedPassed(slots: seq<Option<Text>>, bits: seq<bool>, a: nat, skip: nat, part: string, min: int, max: int)
    requires skip <= |bits| == |slots| && Ones(bits[..skip]) == Ones(bits)
    requires forall k :: 0 <= k < |bits| ==> bits[k] == slots[k].Some?
    ensures ScanSlots(slots, a, skip, part, min, max) == ScanSlots(slots, a, |slots|, part, min, max)
  {
    OnesPositive(bits, skip);
    UnusedSlots(slots, a, skip, |slots|, part, min, max);
  }

  // The filter on one layer 1 array; `found` is what the buffer holds before, `all` after.
  method FilterArray<T>(l2: L2Arr<T>, a: nat, part: string, min: int, max: int, buf: array<Trans?<T>>, size: nat, from: nat, ghost found: seq<Pos>)
    returns (full: bool, used: nat, ghost all: seq<Pos>)
    requires l2.Valid() && buf !in l2.Repr && a < |l2.live| && part != ""
    requires from == |found| < size <= buf.Length && Filled(l2, buf, found)
    modifies buf
    ensures used == |all| <= size && (full <==> used == size) && Filled(l2, buf, all)
    ensures var hits := found + ScanSlots(l2.live[a], a, |l2.live[a]|, part, min, max);
            all <= hits && (!full ==> all == hits)
  {
    hide Filled, SimpleBitmap.Valid;
    l2.UsageFacts(a);
    ghost var slots, bits := l2.live[a], l2.l1[a].usage.bits;
    all, used := found, from;
    var skip: nat := 0;
    for j := 0 to l2.l1[a].usage.ones
      invariant skip <= |bits| && Ones(bits[..skip]) == j
      invariant l2.Valid()
      invariant used == |all| < size && Filled(l2, buf, all)
      invariant all == found + ScanSlots(slots, a, skip, part, min, max)
    {
      ghost var hits;
      skip, used, hits := FilterNext(l2, a, j, skip, part, min, max, buf, used, all);
      all := all + hits;
      if used == size {
        MoreHits(found, slots, a, skip, part, min, max);
        return true, used, all;
      }
    }
    AllUsedPassed(slots, bits, a, skip, part, min, max);
    full := false;
  }

  lemma NoneSet(s: seq<bool>)
    requires forall a :: !At(s, a)
    ensures Ones(s) == 0
  {
    assert forall i :: 0 <= i < |s| ==> s[i] == At(s, i);
    OnesConstant(s, false);
  }

  // One marked array; the unmarked ones from `done` on before it hold no hit.
  method FilterOne<T>(l2: L2Arr<T>, a: nat, part: string, min: int, max: int, buf: array<Trans?<T>>, size: nat, from: nat,
                      ghost found: seq<Pos>, ghost done: nat, ghost bits: seq<bool>)
    returns (full: bool, used: nat, ghost all: seq<Pos>)
    requires l2.Valid() && buf !in l2.Repr && part != ""
    requires Prunes(bits, l2.live, part, min, max) && At(bits, a) && done <= a && forall b :: done <= b < a ==> !At(bits, b)
    requires from == |found| < size <= buf.Length && Filled(l2, buf, found)
    requires done <= |l2.live| && found == Scan(l2.live, done, part, min, max)
    modifies buf
    ensures used == |all| <= size && (full <==> used == size) && Filled(l2, buf, all)
    ensures a < |l2.live| && all <= Scan(l2.live, |l2.live|, part, min, max)
    ensures !full ==> all == Scan(l2.live, a + 1, part, min, max)
  {
    ScanSkips(bits, l2.live, part, min, max, done, a);
    ScanPrefix(l2.live, a + 1, |l2.live|, part, min, max);
    full, used, all := FilterArray(l2, a, part, min, max, buf, size, from, found);
  }

  lemma NothingYet<T>(l2: L2Arr<T>, buf: array<Trans?<T>>, bits: seq<bool>, part: string, min: int, max: int)
    requires l2.Valid()
    ensures Filled(l2, buf, []) && Scan(l2.live, 0, part, min, max) == [] && Ones(bits[..0]) == 0
  {
  }

  // "for the index that contains all the characters, add them to result buffer": the marked arrays in order
  method FilterMarked<T>(l2: L2Arr<T>, part: string, min: int, max: int, marked: SimpleBitmap, buf: array<Trans?<T>>, size: nat)
    returns (full: bool, used: nat, ghost all: seq<Pos>)
    requires l2.Valid() && marked.Valid() && buf !in l2.Repr && 0 < size <= buf.Length
    requires if part == "" then Ones(marked.bits) == 0 else Prunes(marked.bits, l2.live, part, min, max)
    modifies buf
    ensures used == |all| <= size && (full <==> used == size) && Filled(l2, buf, all)
    ensures part == "" ==> used == 0
    ensures part != "" ==> var hits := Scan(l2.live, |l2.live|, part, min, max); all <= hits && (!full ==> all == hits)
  {
    hide Ones, Prunes, Filled, Scan, ScanSlots, SimpleBitmap.Holds, SimpleBitmap.Counted, L2Arr.Valid;
    ghost var bits, live := marked.bits, l2.live;
    var skip: nat := 0;
    ghost var done: nat := 0;
    used, all := 0, [];
    marked.Facts();
    NothingYet(l2, buf, bits, part, min, max);
    for i := 0 to marked.ones
      invariant part == "" ==> used == 0
      invariant marked.Valid() && marked.ones == Ones(bits)
      invariant skip <= |bits| && Ones(bits[..skip]) == i && done <= skip && done <= |live|
      invariant forall a :: done <= a < skip ==> !At(bits, a)
      invariant l2.Valid()
      invariant used == |all| < size && Filled(l2, buf, all)
      invariant part != "" ==> all == Scan(live, done, part, min, max)
    {
      var a := NextOne(marked, i, skip);
      full, used, all := FilterOne(l2, a, part, min, max, buf, size, used, all, done, bits);
      skip, done := a + 1, a + 1;
      if full {
        return;
      }
    }
    OnesPositive(bits, skip);
    if part != "" {
      ScanSkips(bits, live, part, min, max, done, |live|);
    }
    full := false;
  }

  // The map phase, seen from the filter phase
  method MarkArrays(matrix: Matrix, part: string, min: Int16, max: Int16, mapBuf: SimpleBitmap, mapResult: SimpleBitmap, ghost live: Live)
    requires matrix.Valid() && 0 < |matrix.columns| && '\0' !in part && Covers(matrix.views, matrix.maxLength, live)
    requires |part| <= matrix.maxLength && !Refused(matrix.maxLength, |part|, min, max)
    requires InMatrix(|matrix.columns|, matrix.maxLength, |part|, min, max)
    requires mapBuf.Valid() && mapResult.Valid() && mapBuf != mapResult && mapBuf.base != mapResult.base
    requires {mapBuf, mapBuf.base, mapResult, mapResult.base} !! matrix.Repr
    modifies mapBuf, mapBuf.base, mapResult, mapResult.base
    ensures mapBuf.Valid() && mapResult.Valid() && fresh({mapBuf.base, mapResult.base} - old({mapBuf.base, mapResult.base}))
    ensures if part == "" then Ones(mapResult.bits) == 0 else Prunes(mapResult.bits, live, part, min, max)
  {
    var _ := PartMapRanged(matrix, part, min, max, mapBuf, mapResult);
    if part == "" {
      NoneSet(mapResult.bits);
    } else {
      CandidatesPrune(matrix.views, matrix.maxLength, live, part, min, max,
                      LowerBound(min), UpperBound(matrix.maxLength, |part|, max), mapResult.bits);
    }
  }

  // The two phases, after the argument checks
  method QueryAndFilter<T>(l2: L2Arr<T>, matrix: Matrix, part: string, min: Int16, max: Int16,
                           mapBuf: SimpleBitmap, mapResult: SimpleBitmap, buf: array<Trans?<T>>, size: nat)
    returns (ret: int, used: nat)
    requires matrix.Valid() && l2.Valid() && 0 < |matrix.columns| && '\0' !in part
    requires Covers(matrix.views, matrix.maxLength, l2.live)
    requires mapBuf.Valid() && mapResult.Valid() && mapBuf != mapResult && mapBuf.base != mapResult.base
    requires {mapBuf, mapBuf.base, mapResult, mapResult.base} !! matrix.Repr + l2.Repr
    requires buf !in l2.Repr + matrix.Repr && 0 < size <= buf.Length
    requires |part| <= matrix.maxLength && !Refused(matrix.maxLength, |part|, min, max)
    requires InMatrix(|matrix.columns|, matrix.maxLength, |part|, min, max)
    modifies mapBuf, mapBuf.base, mapResult, mapResult.base, buf
    ensures mapBuf.Valid() && mapResult.Valid()
    ensures part == "" ==> ret == OK && used == 0
    ensures part != "" ==>
      var hits := Scan(l2.live, |l2.live|, part, min, max);
      (ret == if |hits| < size then OK else BUFFER_FULL)
      && used == (if |hits| < size then |hits| else size) && Filled(l2, buf, hits[..used])
  {
    MarkArrays(matrix, part, min, max, mapBuf, mapResult, l2.live);
    var full, n, all := FilterMarked(l2, part, min, max, mapResult, buf, size);
    ghost var hits := Scan(l2.live, |l2.live|, part, min, max);
    assert part != "" ==> hits[..n] == all;
    ret, used := if full then BUFFER_FULL else OK, n;
  }

  // lookup_..._part_ranged. The return code of the map phase is ignored.
  method LookupPartRanged<T>(l2: L2Arr<T>, matrix: Matrix, part: string, min: Int16, max: Int16,
                             mapBuf: SimpleBitmap, mapResult: SimpleBitmap, buf: array<Trans?<T>>, size: nat)
    returns (ret: int, used: nat)
    requires matrix.Valid() && l2.Valid() && 0 < |matrix.columns| && '\0' !in part
    requires Covers(matrix.views, matrix.maxLength, l2.live)
    requires mapBuf.Valid() && mapResult.Valid() && mapBuf != mapResult && mapBuf.base != mapResult.base
    requires {mapBuf, mapBuf.base, mapResult, mapResult.base} !! matrix.Repr + l2.Repr
    requires buf !in l2.Repr + matrix.Repr && size <= buf.Length
    requires size > 0 ==> InMatrix(|matrix.columns|, matrix.maxLength, |part|, min, max)
    modifies mapBuf, mapBuf.base, mapResult, mapResult.base, buf
    ensures l2.Valid() && matrix.Valid() && mapBuf.Valid() && mapResult.Valid()
    ensures |part| > |matrix.columns| ==> ret == VERIFY_FAIL && used == 0
    ensures |part| <= |matrix.columns| && size == 0 ==> ret == WRONG_ARGS && used == 0
    ensures |part| <= matrix.maxLength && Refused(matrix.maxLength, |part|, min, max) && size > 0 ==> ret == WRONG_ARGS && used == 0
    ensures part == "" && !Refused(matrix.maxLength, 0, min, max) && size > 0 ==> ret == OK && used == 0
    ensures part != "" && |part| <= |matrix.columns| && size > 0 && (|part| <= matrix.maxLength ==> !Refused(matrix.maxLength, |part|, min, max)) ==>
      var hits := Scan(l2.live, |l2.live|, part, min, max);
      (ret == if |hits| < size then OK else BUFFER_FULL)
      && used == (if |hits| < size then |hits| else size) && Filled(l2, buf, hits[..used])
  {
    hide UnsignedLess, Scan, SimpleBitmap.Valid;
    if |part| > |matrix.columns| {
      return VERIFY_FAIL, 0;
    }
    if size == 0 {
      return WRONG_ARGS, 0;
    }
    if |part| > matrix.maxLength {
      TooLongScansEmpty(matrix.views, matrix.maxLength, l2.live, part, min, max, |l2.live|);
      return OK, 0;
    }
    var lo, hi := LowerBound(min), UpperBound(matrix.maxLength, |part|, max);
    MatrixSizes(matrix);
    RefusedAsCompared(matrix.maxLength, |part|, lo);
    RefusedAsCompared(matrix.maxLength, |part|, hi);
    if lo > hi || UnsignedLess(matrix.maxLength - lo, |part|) || UnsignedLess(matrix.maxLength - hi, |part|) {
      return WRONG_ARGS, 0;
    }
    ret, used := QueryAndFilter(l2, matrix, part, min, max, mapBuf, mapResult, buf, size);
  }

  // ---------------------------------------------------------------------
  // Bounds without room

  /** A start position past the last one with room finds nothing: an upper bound there is none, a lower bound leaves
      nothing to find. */
  lemma NoRoom(live: Live, maxLength: nat, views: Views, part: string, min: int, max: int)
    requires Covers(views, maxLength, live) && part != ""
    ensures max > maxLength - |part| && max >= 0 ==> Scan(live, |live|, part, min, max) == Scan(live, |live|, part, min, -1)
    ensures LowerBound(min) > maxLength - |part| ==> Scan(live, |live|, part, min, max) == []
  {
    if max > maxLength - |part| && max >= 0 {
      forall a, k | 0 <= a < |live| && 0 <= k < |live[a]| ensures Hit(live[a][k], part, min, max) == Hit(live[a][k], part, min, -1) {
        if live[a][k].Some? {
          assert Covered(views, maxLength, live[a][k].value.str, a);
        }
      }
      SameHits(live, |live|, part, min, max, min, -1);
    }
    if LowerBound(min) > maxLength - |part| {
      var r := Scan(live, |live|, part, min, max);
      ScanExact(live, |live|, part, min, max);
      forall a, k | 0 <= a < |live| && 0 <= k < |live[a]| ensures !Hit(live[a][k], part, min, max) {
        if live[a][k].Some? {
          assert Covered(views, maxLength, live[a][k].value.str, a);
        }
      }
      FirstIsIn(r);
    }
  }

  lemma {:induction false} SameHits(live: Live, n: nat, part: string, min: int, max: int, min': int, max': int)
    requires n <= |live|
    requires forall a, k :: 0 <= a < |live| && 0 <= k < |live[a]| ==> Hit(live[a][k], part, min, max) == Hit(live[a][k], part, min', max')
    ensures Scan(live, n, part, min, max) == Scan(live, n, part, min', max')
  {
    if n > 0 {
      SameHits(live, n - 1, part, min, max, min', max');
      SameSlotHits(live[n - 1], n - 1, |live[n - 1]|, part, min, max, min', max');
    }
  }

  lemma {:induction false} SameSlotHits(slots: seq<Option<Text>>, a: nat, n: nat, part: string, min: int, max: int, min': int, max': int)
    requires n <= |slots| && forall k :: 0 <= k < |slots| ==> Hit(slots[k], part, min, max) == Hit(slots[k], part, min', max')
    ensures ScanSlots(slots, a, n, part, min, max) == ScanSlots(slots, a, n, part, min', max')
  {
    if n > 0 {
      SameSlotHits(slots, a, n - 1, part, min, max, min', max');
    }
  }

  /** "b" asked for up to position 10 where the only string is "abc": the bound is past the end, is not refused, and
      the string is found. */
  lemma BoundPastTheEnd()
    ensures !BoundsOk(3, 1, -1, 10) && !Refused(3, 1, -1, 10)
    ensures Scan([[Some(Text("abc", 0))]], 1, "b", -1, 10) == [Pos(0, 0)]
  {
    assert OccursAt("abc", "b", 1);
    var live: Live := [[Some(Text("abc", 0))]];
    assert Hit(live[0][0], "b", -1, 10);
    assert ScanSlots(live[0], 0, 0, "b", -1, 10) == [] && Scan(live, 0, "b", -1, 10) == [];
    assert ScanSlots(live[0], 0, 1, "b", -1, 10) == [Pos(0, 0)];
  }
}
