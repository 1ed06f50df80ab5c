/** What the substring index means: the matrix invariant, the query, and the scan it has to agree with. */
module IndexSpec {
  import opened Util
  import opened BitSeq
  import opened Strings
  import opened ExistMat

  type Views = seq<map<char, seq<bool>>>

  /** A stored string and the length recorded with it. The code that stores a string leaves the record's length 0. */
  datatype Text = Text(str: string, len: nat)

  /** The strings stored in the layer 2 array: per layer 1 array, per slot, the string if the slot is used. */
  type Live = seq<seq<Option<Text>>>

  /** The matrix says that array `a` may hold a string with `c` at position `i`. */
  ghost predicate Marks(views: Views, i: int, c: char, a: int) {
    0 <= i < |views| && c in views[i] && At(views[i][c], a)
  }

  /** Array `a` is marked for every character of `part` starting at position `s`. */
  ghost predicate StartMarks(views: Views, part: string, s: int, a: int) {
    forall j :: 0 <= j < |part| ==> Marks(views, s + j, part[j], a)
  }

  /** The result of the map phase: some start position between `lo` and `hi` has `a` in every column map. */
  ghost predicate Candidate(views: Views, part: string, lo: int, hi: int, a: int) {
    part != "" && exists s :: lo <= s <= hi && StartMarks(views, part, s, a)
  }

  /** The columns past the recorded maximum are empty. */
  ghost predicate Tidy(views: Views, maxLength: nat) {
    forall i :: maxLength <= i < |views| ==> views[i] == map[]
  }

  /** The matrix invariant: no used slot is missing from the matrix, marks point at existing arrays, and the
      recorded maximum bounds every string and every column in use. A mark without a string behind it is allowed. */
  ghost predicate Covers(views: Views, maxLength: nat, live: Live) {
    (forall a, k :: 0 <= a < |live| && 0 <= k < |live[a]| && live[a][k].Some? ==> Covered(views, maxLength, live[a][k].value.str, a))
    && (forall i, c, a {:trigger Marks(views, i, c, a)} :: Marks(views, i, c, a) ==> 0 <= a < |live|)
    && Tidy(views, maxLength)
  }

  ghost predicate Covered(views: Views, maxLength: nat, str: string, a: int) {
    |str| <= maxLength && StartMarks(views, str, 0, a)
  }

  /** A record of the layer 2 array: array number and slot. */
  datatype Pos = Pos(arr: nat, slot: nat)

  predicate Hit(slot: Option<Text>, part: string, min: int, max: int) {
    slot.Some? && ContainsBetween(slot.value.str, part, min, max)
  }

  /** The first `n` slots of an array searched one by one. */
  function ScanSlots(slots: seq<Option<Text>>, a: nat, n: nat, part: string, min: int, max: int): seq<Pos>
    requires n <= |slots|
  {
    if n == 0 then []
    else ScanSlots(slots, a, n - 1, part, min, max) + (if Hit(slots[n - 1], part, min, max) then [Pos(a, n - 1)] else [])
  }

  /** The naive scan: every used slot of the first `n` arrays, in order. */
  function Scan(live: Live, n: nat, part: string, min: int, max: int): seq<Pos>
    requires n <= |live|
  {
    if n == 0 then []
    else Scan(live, n - 1, part, min, max) + ScanSlots(live[n - 1], n - 1, |live[n - 1]|, part, min, max)
  }

  predicate Before(p: Pos, q: Pos) {
    p.arr < q.arr || (p.arr == q.arr && p.slot < q.slot)
  }

  /** The scan lists exactly the used slots that match. */
  lemma {:induction false} ScanSlotsExact(slots: seq<Option<Text>>, a: nat, n: nat, part: string, min: int, max: int)
    requires n <= |slots|
    ensures forall p :: p in ScanSlots(slots, a, n, part, min, max) <==> p.arr == a && p.slot < n && Hit(slots[p.slot], part, min, max)
    ensures forall i, j :: 0 <= i < j < |ScanSlots(slots, a, n, part, min, max)| ==>
      Before(ScanSlots(slots, a, n, part, min, max)[i], ScanSlots(slots, a, n, part, min, max)[j])
  {
    if n > 0 {
      ScanSlotsExact(slots, a, n - 1, part, min, max);
      var r := ScanSlots(slots, a, n - 1, part, min, max);
      forall i | 0 <= i < |r| ensures Before(r[i], Pos(a, n - 1)) {
        assert r[i] in r;
      }
    }
  }

  /** The naive scan finds every matching used slot, each once, in ascending order, and nothing else. */
  lemma {:induction false} ScanExact(live: Live, n: nat, part: string, min: int, max: int)
    requires n <= |live|
    ensures forall p :: p in Scan(live, n, part, min, max) <==>
      p.arr < n && p.slot < |live[p.arr]| && Hit(live[p.arr][p.slot], part, min, max)
    ensures forall i, j :: 0 <= i < j < |Scan(live, n, part, min, max)| ==>
      Before(Scan(live, n, part, min, max)[i], Scan(live, n, part, min, max)[j])
  {
    if n > 0 {
      ScanExact(live, n - 1, part, min, max);
      var last := live[n - 1];
      ScanSlotsExact(last, n - 1, |last|, part, min, max);
      var r, t := Scan(live, n - 1, part, min, max), ScanSlots(last, n - 1, |last|, part, min, max);
      forall i, j | 0 <= i < |r| && 0 <= j < |t| ensures Before(r[i], t[j]) {
        assert r[i] in r && t[j] in t;
      }
    }
  }

  /** An array the query does not mark holds no matching string. */
  lemma UnmarkedHasNoHit(views: Views, maxLength: nat, live: Live, part: string, min: int, max: int, lo: int, hi: int, a: nat)
    requires Covers(views, maxLength, live) && a < |live| && part != ""
    requires lo == (if min < 0 then 0 else min) && hi == (if max < 0 then maxLength - |part| else max)
    requires !Candidate(views, part, lo, hi, a)
    ensures ScanSlots(live[a], a, |live[a]|, part, min, max) == []
  {
    var slots := live[a];
    var r := ScanSlots(slots, a, |slots|, part, min, max);
    ScanSlotsExact(slots, a, |slots|, part, min, max);
    if r != [] {
      var k := r[0].slot;
      assert r[0] in r;
      var str := slots[k].value.str;
      var p :| 0 <= p <= |str| && min <= p && (max < 0 || p <= max) && OccursAt(str, part, p);
      assert Covered(views, maxLength, str, a);
      forall j | 0 <= j < |part| ensures Marks(views, p + j, part[j], a) {
        assert str[p..p + |part|][j] == str[p + j];
        assert Marks(views, 0 + (p + j), str[p + j], a);
      }
      assert StartMarks(views, part, p, a);
    }
  }

  /** Only existing arrays are marked, and an array that is not marked holds no matching string. */
  ghost predicate Prunes(bits: seq<bool>, live: Live, part: string, min: int, max: int) {
    forall a :: if At(bits, a) then 0 <= a < |live|
                else 0 <= a < |live| ==> ScanSlots(live[a], a, |live[a]|, part, min, max) == []
  }

  lemma CandidatesPrune(views: Views, maxLength: nat, live: Live, part: string, min: int, max: int, lo: int, hi: int, bits: seq<bool>)
    requires Covers(views, maxLength, live) && part != ""
    requires lo == (if min < 0 then 0 else min) && hi == (if max < 0 then maxLength - |part| else max)
    requires forall a :: At(bits, a) <==> Candidate(views, part, lo, hi, a)
    ensures Prunes(bits, live, part, min, max)
  {
    forall a ensures if At(bits, a) then 0 <= a < |live| else 0 <= a < |live| ==> ScanSlots(live[a], a, |live[a]|, part, min, max) == [] {
      if At(bits, a) {
        var s :| lo <= s <= hi && StartMarks(views, part, s, a);
        assert Marks(views, s + 0, part[0], a);
      } else if 0 <= a < |live| {
        UnmarkedHasNoHit(views, maxLength, live, part, min, max, lo, hi, a);
      }
    }
  }

  /** Arrays between two marked ones add nothing to the scan. */
  lemma {:induction false} ScanSkips(bits: seq<bool>, live: Live, part: string, min: int, max: int, i: nat, j: nat)
    requires Prunes(bits, live, part, min, max) && i <= j <= |live|
    requires forall a :: i <= a < j ==> !At(bits, a)
    ensures Scan(live, i, part, min, max) == Scan(live, j, part, min, max)
  {
    if i < j {
      ScanSkips(bits, live, part, min, max, i, j - 1);
      assert !At(bits, j - 1);
    }
  }

  lemma FirstIsIn<X>(s: seq<X>)
    ensures s == [] || s[0] in s
  {
  }

  /** Longer needles than any stored string match nothing. */
  lemma {:induction false} TooLongScansEmpty(views: Views, maxLength: nat, live: Live, part: string, min: int, max: int, n: nat)
    requires Covers(views, maxLength, live) && n <= |live| && |part| > maxLength
    ensures Scan(live, n, part, min, max) == []
  {
    ScanExact(live, n, part, min, max);
    var r := Scan(live, n, part, min, max);
    FirstIsIn(r);
  }
}
