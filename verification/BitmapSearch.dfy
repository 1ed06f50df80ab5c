/** The index and group searches of `simple_bitmap`. Each search exists for ones and for zeros; the two
    differ in the value looked for, in the blocks passed over (all 0 or all 1) and in how the skipped
    places of the first block are masked, so one method with the value `v` models both. */
module BitmapSearch {
  import opened Codes
  import opened Block
  import opened BitSeq
  import opened Bitmap

  /** A block without the value `v`: 0 when looking for ones, -1 when looking for zeros. */
  function Without(v: bool): Block { if v then ZERO else ONES }

  lemma WithoutBlock(x: Block, v: bool)
    ensures x == Without(v) <==> forall j :: 0 <= j < 64 ==> x[j] != v
  {
    ZeroBlock(x);
    FullBlock(x);
  }

  // "mask skipped bits", forward: the first `n` places no longer hold `v`.
  method MaskBefore(x: Block, n: nat, v: bool) returns (buf: Block)
    requires n < 64
    ensures forall j :: 0 <= j < 64 ==> buf[j] == if j < n then !v else x[j]
  {
    if v {
      var mask := LowMask(64 - n);
      buf := And(x, mask);
    } else {
      var mask := HighMask(n);
      buf := Or(x, mask);
    }
  }

  // "mask skipped bits", backward: the places after `n` no longer hold `v`.
  method MaskAfter(x: Block, n: nat, v: bool) returns (buf: Block)
    requires n < 64
    ensures forall j :: 0 <= j < 64 ==> buf[j] == if n < j then !v else x[j]
  {
    if v {
      var mask := HighMask(n + 1);
      buf := And(x, mask);
    } else {
      var mask := LowMask(63 - n);
      buf := Or(x, mask);
    }
  }

  // Counts the leading places of `x` different from `v`, shifting left.
  method CountLeading(x: Block, v: bool, limit: nat) returns (count: nat, rest: Block)
    requires limit <= 64
    ensures count <= limit && rest == Shl(x, count)
    ensures forall j :: 0 <= j < count ==> x[j] != v
    ensures count < limit ==> x[count] == v
  {
    count := 0;
    rest := x;
    assert Shl(x, 0) == x;
    while count < limit
      invariant count <= limit && rest == Shl(x, count)
      invariant forall j :: 0 <= j < count ==> x[j] != v
    {
      if rest[0] == v {
        return;
      }
      rest := Shl(rest, 1);
      count := count + 1;
    }
  }

  // Counts the trailing places of `x` different from `v`, shifting right.
  method CountTrailing(x: Block, v: bool, limit: nat) returns (count: nat, rest: Block)
    requires limit <= 64
    ensures count <= limit && rest == Shr(x, count)
    ensures forall j :: 64 - count <= j < 64 ==> x[j] != v
    ensures count < limit ==> x[63 - count] == v
  {
    count := 0;
    rest := x;
    assert Shr(x, 0) == x;
    while count < limit
      invariant count <= limit && rest == Shr(x, count)
      invariant forall j :: 64 - count <= j < 64 ==> x[j] != v
    {
      if rest[63] == v {
        return;
      }
      rest := Shr(rest, 1);
      count := count + 1;
    }
  }

  /** Bits `lo..hi` of the block `b` that do not hold `v`, as bits of the sequence. */
  lemma AbsentIn(blocks: seq<Block>, bits: seq<bool>, v: bool, b: nat, lo: nat, hi: nat)
    requires Packed(blocks, bits) && b < |blocks| && hi <= 64
    requires forall j :: lo <= j < hi ==> blocks[b][j] != v
    ensures forall i :: 64 * b + lo <= i < 64 * b + hi ==> At(bits, i) != v
  {
    forall i | 64 * b + lo <= i < 64 * b + hi ensures At(bits, i) != v {
      BlockAt(blocks, bits, b, i - 64 * b);
    }
  }

  // The common start of the forward searches: the first block whose masked content holds `v`, the place
  // inside it, and the content from that place on. `count` is 64 when no block holds `v`.
  method LocateForward(bm: SimpleBitmap, v: bool, skip: nat) returns (cur: nat, count: nat, rest: Block)
    requires bm.Valid() && skip < bm.length
    ensures count <= 64 && (count == 64 <==> cur == bm.end + 1)
    ensures count == 64 ==> forall i :: skip <= i < 64 * (bm.end + 1) ==> At(bm.bits, i) != v
    ensures count < 64 ==> cur <= bm.end && skip <= 64 * cur + count && At(bm.bits, 64 * cur + count) == v
    ensures count < 64 ==> forall i :: skip <= i < 64 * cur + count ==> At(bm.bits, i) != v
    ensures count < 64 ==> rest == Shl(bm.base[cur], count)
  {
    ghost var blocks := bm.base[..bm.end + 1];
    cur := skip / 64;
    ghost var from := skip % 64;
    var buf := MaskBefore(bm.base[cur], skip % 64, v);
    WithoutBlock(buf, v);
    if buf == Without(v) {
      AbsentIn(blocks, bm.bits, v, cur, from, 64);
      cur := cur + 1;
      from := 0;
      while cur <= bm.end
        invariant skip / 64 < cur <= bm.end + 1 && buf == Without(v)
        invariant forall i :: skip <= i < 64 * cur ==> At(bm.bits, i) != v
      {
        buf := bm.base[cur];
        WithoutBlock(buf, v);
        if buf != Without(v) {
          break;
        }
        AbsentIn(blocks, bm.bits, v, cur, 0, 64);
        cur := cur + 1;
      }
    }
    WithoutBlock(buf, v);
    count, rest := CountLeading(buf, v, 64);
    if count < 64 {
      BlockAt(blocks, bm.bits, cur, count);
      AbsentIn(blocks, bm.bits, v, cur, from, count);
      assert rest == Shl(bm.base[cur], count);
    }
  }

  // bitmap_first_one_bit_index, bitmap_first_zero_bit_index
  method FirstBitIndex(bm: SimpleBitmap, v: bool, skip: nat) returns (code: int, result: nat)
    requires bm.Valid()
    ensures skip >= bm.length ==> code == WRONG_INPUT
    ensures skip < bm.length ==> code == OK || code == SEARCH_FAIL
    ensures code == OK ==> IsFirst(bm.bits, v, skip, result)
    ensures code == SEARCH_FAIL ==> result >= bm.length && forall i :: skip <= i < bm.length ==> bm.bits[i] != v
  {
    if skip >= bm.length {
      return WRONG_INPUT, 0;
    }
    var cur, count, rest := LocateForward(bm, v, skip);
    assert forall i :: 0 <= i < bm.length ==> At(bm.bits, i) == bm.bits[i];
    result := cur * 64 + count;
    if result >= bm.length {
      return SEARCH_FAIL, result;
    }
    code := OK;
  }

  // One step of the enumeration idiom of the callers: the search from the place after the `k`-th find
  method NextOne(bm: SimpleBitmap, ghost k: nat, skip: nat) returns (r: nat)
    requires bm.Valid() && skip <= bm.length && Ones(bm.bits[..skip]) == k < Ones(bm.bits)
    ensures IsFirst(bm.bits, true, skip, r) && Ones(bm.bits[..r + 1]) == k + 1 && Indices(bm.bits)[k] == r
  {
    MoreOnes(bm.bits, k, skip);
    var code;
    code, r := FirstBitIndex(bm, true, skip);
    NextIndex(bm.bits, k, skip, r);
  }

  // The enumeration idiom of the callers: number_of_ones searches, each from the place after the last find.
  method Enumerate(bm: SimpleBitmap) returns (found: seq<nat>)
    requires bm.Valid()
    ensures found == Indices(bm.bits)
  {
    found := [];
    var skip: nat := 0;
    bm.Facts();
    for i := 0 to bm.ones
      invariant skip <= bm.length && Ones(bm.bits[..skip]) == i
      invariant found == Indices(bm.bits)[..i]
    {
      var index := NextOne(bm, i, skip);
      found := found + [index];
      skip := index + 1;
    }
  }

  // The common start of the backward searches; `count` is 64 when no block at or before `skip` holds `v`.
  method LocateBackward(bm: SimpleBitmap, v: bool, skip: nat) returns (cur: int, count: nat, rest: Block)
    requires bm.Valid() && skip < bm.length
    ensures count <= 64 && (count == 64 <==> cur == -1)
    ensures count == 64 ==> forall i :: 0 <= i <= skip ==> At(bm.bits, i) != v
    ensures count < 64 ==> 0 <= cur <= bm.end && 64 * cur + 63 - count <= skip && At(bm.bits, 64 * cur + 63 - count) == v
    ensures count < 64 ==> forall i :: 64 * cur + 63 - count < i <= skip ==> At(bm.bits, i) != v
    ensures count < 64 ==> rest == Shr(bm.base[cur], count)
  {
    ghost var blocks := bm.base[..bm.end + 1];
    cur := skip / 64;
    ghost var to := skip % 64 + 1;
    var buf := MaskAfter(bm.base[cur], skip % 64, v);
    WithoutBlock(buf, v);
    if buf == Without(v) {
      AbsentIn(blocks, bm.bits, v, cur, 0, to);
      cur := cur - 1;
      to := 64;
      while cur >= 0
        invariant -1 <= cur < skip / 64 && buf == Without(v)
        invariant forall i :: 64 * (cur + 1) <= i <= skip ==> At(bm.bits, i) != v
      {
        buf := bm.base[cur];
        WithoutBlock(buf, v);
        if buf != Without(v) {
          break;
        }
        AbsentIn(blocks, bm.bits, v, cur, 0, 64);
        cur := cur - 1;
      }
    }
    WithoutBlock(buf, v);
    count, rest := CountTrailing(buf, v, 64);
    if count < 64 {
      BlockAt(blocks, bm.bits, cur, 63 - count);
      AbsentIn(blocks, bm.bits, v, cur, 64 - count, to);
      assert rest == Shr(bm.base[cur], count);
    }
  }

  // bitmap_first_one_bit_index_back, bitmap_first_zero_bit_index_back
  method FirstBitIndexBack(bm: SimpleBitmap, v: bool, skip: nat) returns (code: int, result: nat)
    requires bm.Valid()
    ensures skip >= bm.length ==> code == WRONG_INPUT
    ensures skip < bm.length ==> code == OK || code == SEARCH_FAIL
    ensures code == OK ==> IsLast(bm.bits, v, skip, result)
    ensures code == SEARCH_FAIL ==> result == bm.length && forall i :: 0 <= i <= skip ==> bm.bits[i] != v
  {
    if skip >= bm.length {
      return WRONG_INPUT, 0;
    }
    var cur, count, rest := LocateBackward(bm, v, skip);
    assert forall i :: 0 <= i < bm.length ==> At(bm.bits, i) == bm.bits[i];
    if count == 64 {
      return SEARCH_FAIL, bm.length;
    }
    code, result := OK, cur * 64 + (63 - count);
  }
}
