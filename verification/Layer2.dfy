/** The pool of translation records: a layer 2 array of fixed-size layer 1 arrays with usage maps. */
module Layer2 {
  import opened Util
  import opened Lists
  import opened Codes
  import opened Block
  import opened BitSeq
  import opened Bitmap
  import opened BitmapSearch
  import opened IndexSpec

  /** `t_attr_to_target`: a string and the things filed under it. */
  class Trans<T> {
    var str: string
    /** `str_len` */
    var len: nat
    var number: nat
    var head: T
    /** `obj_arr_index` */
    var index: nat

    ghost function Value(): Text
      reads this
    {
      Text(str, len)
    }

    constructor (blank: T)
      ensures Wiped(blank, 0)
    {
      str, len, number, head, index := "", 0, 0, blank, 0;
    }

    ghost predicate Wiped(blank: T, at: nat)
      reads this
    {
      str == "" && len == 0 && number == 0 && head == blank && index == at
    }

    /** All but the string. */
    ghost function Rest(): (nat, nat, T, nat)
      reads this
    {
      (len, number, head, index)
    }

    // mem_wipe_sec on the record, and its index set
    method Wipe(blank: T, at: nat)
      modifies this
      ensures Wiped(blank, at)
    {
      str, len, number, head, index := "", 0, 0, blank, at;
    }
  }

  /** Every slot of every array is used. */
  ghost predicate AllFull(live: Live) {
    forall a {:trigger Array(a)} :: Array(a) && 0 <= a < |live| ==> IsFull(live[a])
  }

  ghost predicate IsFull(slots: seq<Option<Text>>) {
    forall k :: 0 <= k < |slots| ==> slots[k].Some?
  }

  /** What is stored, with room for one more: a new empty array only if all are full. */
  ghost function Opened(live: Live, size: nat): Live {
    if AllFull(live) then live + [seq(size, _ => None)] else live
  }

  /** The first unused slot of the first array that has one. */
  ghost predicate FirstFree(live: Live, p: Pos) {
    p.arr < |live| && p.slot < |live[p.arr]| && live[p.arr][p.slot].None?
    && AllFull(live[..p.arr]) && IsFull(live[p.arr][..p.slot])
  }

  /** `live` with one slot changed. */
  function Put(live: Live, p: Pos, v: Option<Text>): Live {
    if p.arr < |live| && p.slot < |live[p.arr]| then live[p.arr := live[p.arr][p.slot := v]] else live
  }

  /** Is there a used slot at this linear index? */
  ghost predicate UsedAt(live: Live, size: nat, index: nat)
    requires 0 < size
  {
    index / size < |live| && index % size < |live[index / size]| && live[index / size][index % size].Some?
  }

  /** What an array stores: the string of each used slot. */
  ghost function Stored<T>(arr: seq<Trans<T>>, used: seq<bool>): (r: seq<Option<Text>>)
    requires |arr| == |used|
    reads arr
    ensures |r| == |arr|
  {
    seq(|arr|, k requires 0 <= k < |arr| reads arr => if used[k] then Some(arr[k].Value()) else None)
  }

  /** `layer1_obj_arr` */
  class L1Arr<T> {
    const arr: seq<Trans<T>>
    const usage: SimpleBitmap

    ghost var slots: seq<Option<Text>>

    ghost predicate Valid()
      reads this, usage, usage.base, arr
    {
      usage.Valid() && |arr| == usage.length && Distinct(arr)
      && slots == Stored(arr, usage.bits)
    }

    // init_layer1_obj_arr
    constructor (n: nat, blank: T)
      requires 0 < n
      ensures Valid() && fresh(this) && fresh(usage) && fresh(usage.base) && (forall r :: r in arr ==> fresh(r))
      ensures |arr| == n && slots == seq(n, _ => None) && usage.bits == seq(n, _ => false)
    {
      var records: seq<Trans<T>> := [];
      for i := 0 to n
        invariant |records| == i && Distinct(records)
        invariant forall r :: r in records ==> fresh(r)
      {
        var r := new Trans(blank);
        records := records + [r];
      }
      var raw := new Block[BlockNumber(n)];
      var bm := new SimpleBitmap(raw, None, n, 0);
      arr, usage := records, bm;
      slots := seq(n, _ => None);
    }

    // What taking and giving back a slot have in common: the record is wiped and the slot marked.
    method SetSlot(k: nat, used: bool, blank: T, index: nat)
      requires Valid() && k < |arr|
      modifies this, usage`zeros, usage`ones, usage`bits, usage.base, arr[k]
      ensures Valid() && slots == old(slots)[k := if used then Some(Text("", 0)) else None]
      ensures usage.bits == old(usage.bits)[k := used] && arr[k].Wiped(blank, index)
    {
      arr[k].Wipe(blank, index);
      var _ := usage.Write(k, used);
      slots := slots[k := if used then Some(Text("", 0)) else None];
      OthersDiffer(arr, k);
    }

    // The caller of an add fills in the string.
    method SetStr(k: nat, str: string)
      requires Valid() && k < |arr| && slots[k].Some?
      modifies this, arr[k]
      ensures Valid() && slots == old(slots)[k := Some(Text(str, old(slots)[k].value.len))] && usage.bits == old(usage.bits)
      ensures arr[k].str == str && arr[k].Rest() == old(arr[k].Rest())
    {
      arr[k].str := str;
      slots := slots[k := Some(Text(str, slots[k].value.len))];
      OthersDiffer(arr, k);
    }

    lemma Full()
      requires Valid()
      ensures usage.zeros == 0 <==> forall k :: 0 <= k < |slots| ==> slots[k].Some?
    {
      usage.Facts();
      OnesComplement(usage.bits);
      OnesPositive(Complement(usage.bits), 0);
      assert Complement(usage.bits)[0..] == Complement(usage.bits);
      assert forall k :: 0 <= k < |slots| ==> (slots[k].Some? <==> !Complement(usage.bits)[k]);
    }
  }

  ghost function Footprint<T>(x: L1Arr<T>): set<object>
    reads x, x.usage
  {
    var own: set<object> := {x, x.usage, x.usage.base};
    own + (set o: object | o in x.arr)
  }

  ghost predicate Array(a: int) { true }

  ghost predicate Apart(prints: seq<set<object>>) {
    forall i, j {:trigger Array(i), Array(j)} ::
      Array(i) && Array(j) && 0 <= i < |prints| && 0 <= j < |prints| && i != j ==> prints[i] !! prints[j]
  }

  /** One layer 1 array of a layer 2 array: what it occupies, stores, and whether it is marked full. */
  ghost predicate Holds<T>(x: L1Arr<T>, own: set<object>, slots: seq<Option<Text>>, size: nat, full: bool)
    reads x, x.usage, x.usage.base, x.arr
  {
    x.Valid() && Footprint(x) == own && x.slots == slots && |x.arr| == size && full == (x.usage.zeros == 0)
  }

  /** `layer2_obj_arr`; `size` is the fixed size of its layer 1 arrays. */
  class L2Arr<T> {
    var l1: seq<L1Arr<T>>
    const l1Map: SimpleBitmap
    const size: nat

    ghost var live: Live
    ghost var prints: seq<set<object>>
    ghost var Repr: set<object>

    ghost predicate Valid()
      reads this, Repr
      ensures Valid() ==> this in Repr
    {
      Fits(0, -1)
    }

    /** The invariant, but for `extra` places of the map with no array behind them, and for the place `lax`,
        which need not say whether its array is full. */
    ghost predicate Fits(extra: nat, lax: int)
      reads this, Repr
    {
      this in Repr && l1Map in Repr && l1Map.base in Repr && 0 < size
      && l1Map.Valid() && l1Map.length == |l1| + extra && |l1| == |live| == |prints|
      && Apart(prints)
      && forall a {:trigger Array(a)} :: Array(a) && 0 <= a < |l1| ==>
           l1[a] in Repr && l1[a].usage in Repr && Footprint(l1[a]) == prints[a] <= Repr
           && this !in prints[a] && l1Map !in prints[a] && l1Map.base !in prints[a]
           && Holds(l1[a], prints[a], live[a], size, if a == lax then l1[a].usage.zeros == 0 else l1Map.bits[a])
    }

    lemma UsageFacts(a: nat)
      requires Valid() && a < |l1|
      ensures l1[a].usage.Valid() && l1[a].usage.ones == Ones(l1[a].usage.bits)
      ensures l1[a].usage in Repr && l1[a].usage.base in Repr
      ensures |l1[a].usage.bits| == |live[a]| == |l1[a].arr| == size
      ensures forall k :: 0 <= k < size ==> l1[a].usage.bits[k] == live[a][k].Some?
      ensures forall k :: 0 <= k < size ==> live[a][k].Some? ==> live[a][k] == Some(l1[a].arr[k].Value())
    {
      assert Array(a);
      l1[a].usage.Facts();
    }

    lemma SlotInArray(p: Pos)
      requires Valid() && p.arr < |live| && p.slot < |live[p.arr]|
      ensures p.slot < size && |live[p.arr]| == size
    {
      assert Array(p.arr);
    }

    /** The record at a position. */
    ghost function RecordAt(p: Pos): Trans<T>
      requires p.arr < |l1| && p.slot < |l1[p.arr].arr|
      reads this
    {
      l1[p.arr].arr[p.slot]
    }

    lemma RecordOwned(p: Pos)
      requires Valid() && p.arr < |l1| && p.slot < |l1[p.arr].arr|
      ensures RecordAt(p) in Repr
    {
      assert Array(p.arr);
      assert RecordAt(p) in Footprint(l1[p.arr]);
    }

    /** No record is at two positions. */
    lemma RecordsApart(p: Pos, q: Pos)
      requires Valid() && p.arr < |l1| && p.slot < |l1[p.arr].arr| && q.arr < |l1| && q.slot < |l1[q.arr].arr| && p != q
      ensures RecordAt(p) != RecordAt(q)
    {
      assert Array(p.arr) && Array(q.arr);
      if p.arr == q.arr {
        OthersDiffer(l1[p.arr].arr, p.slot);
      } else {
        assert RecordAt(p) in Footprint(l1[p.arr]) && RecordAt(q) in Footprint(l1[q.arr]);
      }
    }

    // init_layer2_obj_arr
    constructor (count: nat, n: nat, blank: T)
      requires 0 < count && 0 < n
      ensures Valid() && fresh(Repr)
      ensures |l1| == count && size == n && live == seq(count, _ => seq(n, _ => None))
    {
      hide SimpleBitmap.Valid;
      var arrays, own, all := NewArrays(count, n, blank);
      var raw := new Block[BlockNumber(count)];
      var bm := new SimpleBitmap(raw, None, count, 0);
      l1, l1Map, size := arrays, bm, n;
      live, prints, Repr := seq(count, _ => seq(n, _ => None)), own, all + {this, bm, bm.base};
    }

    static method NewArrays(count: nat, n: nat, blank: T)
      returns (arrays: seq<L1Arr<T>>, ghost own: seq<set<object>>, ghost all: set<object>)
      requires 0 < n
      ensures |arrays| == |own| == count && fresh(all) && Apart(own)
      ensures forall a {:trigger Array(a)} :: Array(a) && 0 <= a < count ==>
        arrays[a] in all && arrays[a].usage in all && own[a] <= all
        && Holds(arrays[a], own[a], seq(n, _ => None), n, false)
    {
      arrays, own, all := [], [], {};
      for i := 0 to count
        invariant |arrays| == |own| == i && fresh(all) && Apart(own)
        invariant forall a {:trigger Array(a)} :: Array(a) && 0 <= a < i ==>
          arrays[a] in all && arrays[a].usage in all && own[a] <= all
          && Holds(arrays[a], own[a], seq(n, _ => None), n, false)
      {
        var x := new L1Arr(n, blank);
        FreshZeros(x);
        assert fresh(Footprint(x));
        ApartAppend(own, Footprint(x), all);
        arrays, own, all := arrays + [x], own + [Footprint(x)], all + Footprint(x);
      }
    }

    // Every layer 1 array is full: one more is allocated (the grow size of every instantiation is 1).
    method GrowArrays(blank: T)
      requires Valid()
      modifies this, l1Map, l1Map.base
      ensures Valid() && forall o :: o in Repr ==> o in old(Repr) || fresh(o)
      ensures live == old(live) + [seq(size, _ => None)] && l1[..|live| - 1] == old(l1)
      ensures l1Map.bits == old(l1Map.bits) + [false]
    {
      GrowMap();
      var x := new L1Arr(size, blank);
      FreshZeros(x);
      assert fresh(Footprint(x));
      AddArray(x);
    }

    // add_obj_to_layer2_arr: the record of the first free slot, wiped and marked used.
    method Add(blank: T) returns (obj: Trans<T>, index: nat, ghost p: Pos)
      requires Valid()
      modifies Repr
      ensures Valid() && forall o :: o in Repr ==> o in old(Repr) || fresh(o)
      ensures FirstFree(Opened(old(live), size), p)
      ensures live == Put(Opened(old(live), size), p, Some(Text("", 0)))
      ensures p.slot < |l1[p.arr].arr| && obj == RecordAt(p) && obj.Wiped(blank, index)
      ensures index == p.arr * size + p.slot
      ensures old(l1) <= l1 && forall o: Trans<T> :: old(allocated(o)) && o != obj ==> o.Value() == old(o.Value()) && o.Rest() == old(o.Rest())
    {
      hide SimpleBitmap.Valid;
      Fullness();
      if l1Map.zeros == 0 {
        GrowArrays(blank);
        assert Array(|live| - 1) && live[|live| - 1][0].None?;
      }
      assert live == Opened(old(live), size);
      var a, k := FirstFreeSlot();
      assert Array(a);
      p := Pos(a, k);
      index := a * size + k;
      SetSlot(a, k, true, blank, index);
      obj := l1[a].arr[k];
    }

    // get_obj_from_layer2_arr
    method Get(index: nat) returns (ret: int, obj: Trans?<T>)
      requires Valid()
      ensures ret == OK <==> UsedAt(live, size, index)
      ensures ret == INDEX_OUT_OF_RANGE <==> index / size >= |live|
      ensures ret == OK || ((ret == INDEX_OUT_OF_RANGE || ret == FIND_FAIL) && obj == null)
      ensures ret == OK ==> index % size < |l1[index / size].arr| && obj == RecordAt(Pos(index / size, index % size))
      ensures ret == OK ==> obj != null && live[index / size][index % size] == Some(obj.Value())
    {
      var a, k := index / size, index % size;
      if a > l1Map.length - 1 {
        return INDEX_OUT_OF_RANGE, null;
      }
      assert Array(a);
      if k > l1[a].usage.length - 1 {
        return INDEX_OUT_OF_RANGE, null;
      }
      var code, used := l1[a].usage.Read(k);
      if !used {
        return FIND_FAIL, null;
      }
      ret, obj := OK, l1[a].arr[k];
    }

    // del_obj_from_layer2_arr
    method Delete(index: nat, blank: T) returns (ret: int)
      requires Valid()
      modifies Repr
      ensures Valid() && Repr == old(Repr) && l1 == old(l1)
      ensures ret == OK <==> UsedAt(old(live), size, index)
      ensures ret == INDEX_OUT_OF_RANGE <==> index / size >= |old(live)|
      ensures ret == OK ==> live == Put(old(live), Pos(index / size, index % size), None)
      ensures ret == OK ==> index % size < |l1[index / size].arr|
      ensures ret == OK ==> forall o: Trans<T> :: old(allocated(o)) && o != RecordAt(Pos(index / size, index % size)) ==>
        o.Value() == old(o.Value()) && o.Rest() == old(o.Rest())
      ensures ret != OK ==> live == old(live) && unchanged(Repr)
    {
      var a, k := index / size, index % size;
      if a > l1Map.length - 1 {
        return INDEX_OUT_OF_RANGE;
      }
      assert Array(a);
      if k > l1[a].usage.length - 1 {
        return INDEX_OUT_OF_RANGE;
      }
      var code, used := l1[a].usage.Read(k);
      if !used {
        return FIND_FAIL;
      }
      SetSlot(a, k, false, blank, 0);
      ret := OK;
    }

    // What the callers of an add do next: copy the string into the record.
    method SetStr(a: nat, k: nat, str: string)
      requires Valid() && a < |live| && k < |live[a]| && live[a][k].Some?
      modifies Repr
      ensures Valid() && Repr == old(Repr) && l1 == old(l1)
      ensures live == Put(old(live), Pos(a, k), Some(Text(str, old(live)[a][k].value.len)))
      ensures k < |l1[a].arr| == old(|l1[a].arr|) && l1[a].arr[k].str == str && l1[a].arr[k].Rest() == old(l1[a].arr[k].Rest())
      ensures forall o: Trans<T> :: old(allocated(o)) && o != l1[a].arr[k] ==> o.Value() == old(o.Value()) && o.Rest() == old(o.Rest())
    {
      hide SimpleBitmap.Valid, Distinct, Stored;
      assert Array(a);
      var x := l1[a];
      x.SetStr(k, str);
      OthersStillValid(l1, a);
      label Set:
      live := live[a := x.slots];
      OthersStillValid@Set(l1, -1);
    }

    // "find first usable l1_arr", "find first usable slot in the l1_arr"
    method FirstFreeSlot() returns (a: nat, k: nat)
      requires Valid() && !AllFull(live)
      ensures FirstFree(live, Pos(a, k))
    {
      Fullness();
      var code;
      code, a := FirstBitIndex(l1Map, false, 0);
      assert Array(a);
      l1[a].Full();
      code, k := FirstBitIndex(l1[a].usage, false, 0);
      assert AllFull(live[..a]) by {
        forall b {:trigger Array(b)} | Array(b) && 0 <= b < a ensures IsFull(live[b]) {
          l1[b].Full();
        }
      }
    }

    /** The map of the arrays says which are full. */
    lemma Fullness()
      requires Valid()
      ensures l1Map.zeros == 0 <==> AllFull(live)
      ensures forall a :: 0 <= a < |live| ==> l1Map.bits[a] == IsFull(live[a])
    {
      forall a | 0 <= a < |live| ensures l1Map.bits[a] == IsFull(live[a]) {
        assert Array(a);
        l1[a].Full();
      }
      l1Map.Facts();
      OnesComplement(l1Map.bits);
      OnesPositive(Complement(l1Map.bits), 0);
      assert Complement(l1Map.bits)[0..] == Complement(l1Map.bits);
      if AllFull(live) {
        forall a | 0 <= a < |live| ensures l1Map.bits[a] {
          assert Array(a);
        }
      } else {
        var a :| Array(a) && 0 <= a < |live| && !IsFull(live[a]);
        assert Complement(l1Map.bits)[a];
      }
    }

    // Wipes and marks one slot, and keeps the map of full arrays up to date.
    method SetSlot(a: nat, k: nat, used: bool, blank: T, index: nat)
      requires Valid() && a < |l1| && k < size
      modifies Repr
      ensures Valid() && Repr == old(Repr) && l1 == old(l1)
      ensures live == Put(old(live), Pos(a, k), if used then Some(Text("", 0)) else None)
      ensures k < |l1[a].arr| && l1[a].arr[k].Wiped(blank, index)
      ensures forall o: Trans<T> :: old(allocated(o)) && o != l1[a].arr[k] ==> o.Value() == old(o.Value()) && o.Rest() == old(o.Rest())
    {
      assert Array(a);
      TouchSlot(a, k, used, blank, index);
      MarkFull(a, l1[a].usage.zeros == 0);
    }

    method TouchSlot(a: nat, k: nat, used: bool, blank: T, index: nat)
      requires Valid() && a < |l1| && k < size
      modifies this`live, prints[a]
      ensures Fits(0, a) && unchanged(l1Map) && unchanged(l1Map.base)
      ensures live == Put(old(live), Pos(a, k), if used then Some(Text("", 0)) else None)
      ensures k < |l1[a].arr| && l1[a].arr[k].Wiped(blank, index)
      ensures forall o: Trans<T> :: old(allocated(o)) && o != l1[a].arr[k] ==> o.Value() == old(o.Value()) && o.Rest() == old(o.Rest())
    {
      hide SimpleBitmap.Valid;
      assert Array(a);
      var x := l1[a];
      x.SetSlot(k, used, blank, index);
      OthersStillValid(l1, a);
      live := live[a := x.slots];
    }

    method MarkFull(a: nat, full: bool)
      requires Fits(0, a) && a < |l1| && full == (l1[a].usage.zeros == 0)
      modifies l1Map`zeros, l1Map`ones, l1Map`bits, l1Map.base
      ensures Valid()
    {
      if full {
        var _ := l1Map.Write(a, true);
      } else {
        var code, marked := l1Map.Read(a);
        if marked {
          var _ := l1Map.Write(a, false);
        }
      }
      OthersStillValid(l1, -1);
    }

    method GrowMap()
      requires Valid()
      modifies this`Repr, l1Map, l1Map.base
      ensures Fits(1, -1) && l1Map.bits == old(l1Map.bits) + [false]
      ensures forall o :: o in Repr ==> o in old(Repr) || fresh(o)
    {
      var _ := l1Map.FfpGrow(l1Map.length + 1);
      OthersStillValid(l1, -1);
      label Grown:
      Repr := Repr + {l1Map.base};
      OthersStillValid@Grown(l1, -1);
    }

    method AddArray(x: L1Arr<T>)
      requires Fits(1, -1) && x.Valid() && |x.arr| == size && x.usage.zeros != 0 && !l1Map.bits[|l1|]
      requires Footprint(x) !! Repr
      modifies this
      ensures Valid() && Repr == old(Repr) + Footprint(x)
      ensures live == old(live) + [x.slots] && l1 == old(l1) + [x]
    {
      ghost var n, own := |l1|, Footprint(x);
      ApartAppend(prints, own, Repr);
      l1 := l1 + [x];
      live, prints, Repr := live + [x.slots], prints + [own], Repr + own;
      OthersStillValid(l1, -1);
    }
  }

  lemma ApartAppend(prints: seq<set<object>>, own: set<object>, all: set<object>)
    requires Apart(prints) && own !! all
    requires forall a {:trigger Array(a)} :: Array(a) && 0 <= a < |prints| ==> prints[a] <= all
    ensures Apart(prints + [own])
  {
  }

  twostate lemma StillValid<T>(x: L1Arr<T>)
    requires old(x.Valid()) && unchanged(old(Footprint(x)))
    ensures x.Valid() && unchanged(x) && unchanged(x.usage) && Footprint(x) == old(Footprint(x))
  {
    assert x in old(Footprint(x)) && x.usage in old(Footprint(x)) && old(x.usage.base) in old(Footprint(x));
    assert forall o: object :: o in x.arr ==> o in old(Footprint(x));
  }

  /** The layer 1 arrays but `x` are as before when nothing in their footprints has changed. */
  twostate lemma OthersStillValid<T>(l1: seq<L1Arr<T>>, new x: int)
    requires forall a {:trigger Array(a)} :: Array(a) && 0 <= a < |l1| ==> a != x ==> old(l1[a].Valid()) && unchanged(old(Footprint(l1[a])))
    ensures forall a {:trigger Array(a)} :: Array(a) && 0 <= a < |l1| ==> a != x ==>
      l1[a].Valid() && unchanged(l1[a]) && unchanged(l1[a].usage) && Footprint(l1[a]) == old(Footprint(l1[a]))
  {
    forall a {:trigger Array(a)} | Array(a) && 0 <= a < |l1| && a != x
      ensures l1[a].Valid() && unchanged(l1[a]) && unchanged(l1[a].usage) && Footprint(l1[a]) == old(Footprint(l1[a]))
    {
      StillValid(l1[a]);
    }
  }

  lemma FreshZeros<T>(x: L1Arr<T>)
    requires x.Valid() && 0 < |x.arr| && x.usage.bits == seq(|x.arr|, _ => false)
    ensures x.usage.zeros != 0
  {
    x.usage.Facts();
    OnesConstant(x.usage.bits, false);
  }
}
