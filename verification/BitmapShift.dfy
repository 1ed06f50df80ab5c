/** `bitmap_shift`: shifting with zeros coming in, by any offset, and rotation by less than a block. */
module BitmapShift {
  import opened Codes
  import opened Block
  import opened BitSeq
  import opened Bitmap

  /** The sequence moved `k` places to the right within its length, zeros coming in; left for negative `k`. */
  function Shifted(s: seq<bool>, k: int): (r: seq<bool>)
    ensures |r| == |s|
  {
    seq(|s|, i requires 0 <= i < |s| => At(s, i - k))
  }

  /** Rotation to the right by `k`; to the left for negative `k`. */
  function Rotated(s: seq<bool>, k: int): (r: seq<bool>)
    requires -|s| <= k <= |s|
    ensures |r| == |s|
  {
    var cut := if k >= 0 then |s| - k else -k;
    s[cut..] + s[..cut]
  }

  /** The signed amount of a move in one direction. */
  function Signed(right: bool, k: nat): int {
    if right then k as int else -(k as int)
  }

  /** Rotating right and then left by the same amount gives back the sequence. */
  lemma RotateBack(s: seq<bool>, k: nat)
    requires k <= |s|
    ensures Rotated(Rotated(s, k), Signed(false, k)) == s
    ensures Rotated(Rotated(s, Signed(false, k)), k) == s
  {
    var cut := |s| - k;
    assert Rotated(s, k)[k..] == s[..cut] && Rotated(s, k)[..k] == s[cut..];
    assert Rotated(s, Signed(false, k))[cut..] == s[..k] && Rotated(s, Signed(false, k))[..cut] == s[k..];
  }

  /** Two shifts in the same direction are one shift by the sum. */
  lemma ShiftTwice(s: seq<bool>, j: int, k: int)
    requires (j >= 0 && k >= 0) || (j <= 0 && k <= 0)
    ensures Shifted(Shifted(s, j), k) == Shifted(s, j + k)
  {
    forall i | 0 <= i < |s| ensures Shifted(Shifted(s, j), k)[i] == Shifted(s, j + k)[i] {
      assert i - (j + k) == i - k - j;
      assert Shifted(Shifted(s, j), k)[i] == At(Shifted(s, j), i - k);
      assert Shifted(s, j + k)[i] == At(s, i - k - j);
      if 0 <= i - k < |s| {
        assert Shifted(s, j)[i - k] == At(s, i - k - j);
      }
    }
  }

  /** To the right a bit comes from `k` places before it, to the left from `k` after it, or it is zero. */
  lemma ShiftedAt(s: seq<bool>, right: bool, k: nat, i: nat)
    requires i < |s|
    ensures Shifted(s, Signed(right, k))[i] == if right then k <= i && s[i - k] else i + k < |s| && s[i + k]
  {
    assert Shifted(s, Signed(right, k))[i] == At(s, i - Signed(right, k));
  }

  /** To the right a bit goes `k` places on, to the left `k` back, and comes in again at the other end. */
  lemma RotatedAt(s: seq<bool>, right: bool, k: nat, i: nat)
    requires i < |s| && k <= |s|
    ensures Rotated(s, Signed(right, k))[i]
         == if right then (if k <= i then s[i - k] else s[|s| + i - k]) else if i + k < |s| then s[i + k] else s[i + k - |s|]
  {
  }

  lemma ShiftedOut(s: seq<bool>, k: int)
    requires k >= |s| || k <= -|s|
    ensures forall i :: 0 <= i < |s| ==> !Shifted(s, k)[i]
  {
    forall i | 0 <= i < |s| ensures !Shifted(s, k)[i] {
      assert !At(s, i - k);
    }
  }

  // Recounts after the blocks of `bits` have been moved by `k` places.
  method Settle(bm: SimpleBitmap, ghost bits: seq<bool>, ghost k: int)
    requires bm.Shaped() && |bits| == bm.length
    requires var after := bm.base[..bm.end + 1];
             forall b, j :: 0 <= b < |after| && 0 <= j < 64 ==> after[b][j] == At(bits, 64 * b + j - k)
    modifies bm`zeros, bm`ones, bm`bits, bm.base
    ensures bm.Valid() && bm.bits == Shifted(bits, k)
  {
    UnpackShifted(bits, bm.base[..bm.end + 1], k);
    assert Unpack(bm.base[..], bm.length) == Unpack(bm.base[..bm.end + 1], bm.length);
    bm.CountZerosAndOnes();
  }

  lemma UnpackShifted(bits: seq<bool>, after: seq<Block>, k: int)
    requires |bits| <= 64 * |after|
    requires forall b, j :: 0 <= b < |after| && 0 <= j < 64 && 64 * b + j < |bits| ==> after[b][j] == At(bits, 64 * b + j - k)
    ensures Unpack(after, |bits|) == Shifted(bits, k)
  {
    forall i | 0 <= i < |bits| ensures Unpack(after, |bits|)[i] == Shifted(bits, k)[i] {
      assert 64 * (i / 64) + i % 64 == i;
      assert after[i / 64][i % 64] == At(bits, 64 * (i / 64) + i % 64 - k);
    }
  }

  // ---------------------------------------------------------------------
  // Whole blocks

  // The block loops of the right shift. The source also reads the places below `base`, which it then overwrites.
  method MoveBlocksRight(base: array<Block>, end: nat, m: nat)
    requires end < base.Length && 0 < m <= end
    modifies base
    ensures forall b :: 0 <= b <= end ==> base[b] == if b < m then ZERO else old(base[b - m])
  {
    var dst := end;
    while dst >= m
      invariant m - 1 <= dst <= end
      invariant forall b :: 0 <= b <= end ==> base[b] == if b <= dst then old(base[b]) else old(base[b - m])
    {
      base[dst] := base[dst - m];
      dst := dst - 1;
    }
    while dst >= 0
      invariant -1 <= dst < m
      invariant forall b :: 0 <= b <= end ==>
        base[b] == if b <= dst then old(base[b]) else if b < m then ZERO else old(base[b - m])
    {
      base[dst] := ZERO;
      dst := dst - 1;
    }
  }

  method MoveBlocksLeft(base: array<Block>, end: nat, m: nat)
    requires end < base.Length && 0 < m <= end
    modifies base
    ensures forall b :: 0 <= b <= end ==> base[b] == if b + m <= end then old(base[b + m]) else ZERO
  {
    var dst := 0;
    while dst + m <= end
      invariant 0 <= dst <= end + 1 - m
      invariant forall b :: 0 <= b <= end ==> base[b] == if b < dst then old(base[b + m]) else old(base[b])
    {
      base[dst] := base[dst + m];
      dst := dst + 1;
    }
    while dst <= end
      invariant end + 1 - m <= dst <= end + 1
      invariant forall b :: 0 <= b <= end ==>
        base[b] == if b + m <= end then old(base[b + m]) else if b < dst then ZERO else old(base[b])
    {
      base[dst] := ZERO;
      dst := dst + 1;
    }
  }

  // The whole-block part of a shift with zeros coming in
  method ShiftBlocks(bm: SimpleBitmap, m: nat, right: bool)
    requires bm.Valid() && 0 < m <= bm.end
    modifies bm`zeros, bm`ones, bm`bits, bm.base
    ensures bm.Valid() && bm.bits == Shifted(old(bm.bits), Signed(right, 64 * m))
  {
    ghost var blocks := bm.base[..bm.end + 1];
    ghost var k := Signed(right, 64 * m);
    if right {
      MoveBlocksRight(bm.base, bm.end, m);
    } else {
      MoveBlocksLeft(bm.base, bm.end, m);
    }
    ghost var after := bm.base[..bm.end + 1];
    forall b, j | 0 <= b < |after| && 0 <= j < 64
      ensures after[b][j] == At(bm.bits, 64 * b + j - k)
    {
      var from := if right then b - m else b + m;
      if 0 <= from <= bm.end {
        BlockAt(blocks, bm.bits, from, j);
      }
    }
    Settle(bm, bm.bits, k);
  }

  // ---------------------------------------------------------------------
  // Single bits

  /** One block of the right move: its own bits, and those that come from the block before it. */
  function BlockRight(blocks: seq<Block>, b: nat, k: nat): Block
    requires b < |blocks| && 0 < k < 64
  {
    if b == 0 then Shr(blocks[b], k) else Or(Shr(blocks[b], k), Shl(blocks[b - 1], 64 - k))
  }

  function BlockLeft(blocks: seq<Block>, b: nat, k: nat): Block
    requires b < |blocks| && 0 < k < 64
  {
    if b == |blocks| - 1 then Shl(blocks[b], k) else Or(Shl(blocks[b], k), Shr(blocks[b + 1], 64 - k))
  }

  method MoveBitsRight(base: array<Block>, end: nat, k: nat, ghost bits: seq<bool>)
    requires end < base.Length && 0 < k < 64 && Packed(base[..end + 1], bits)
    modifies base
    ensures var after := base[..end + 1];
            forall b, j :: 0 <= b < |after| && 0 <= j < 64 ==> after[b][j] == At(bits, 64 * b + j - k)
  {
    hide BlockRight, Packed, At, Shl, Shr, Or;
    ghost var blocks := base[..end + 1];
    var cur := end;
    while cur > 0
      invariant 0 <= cur <= end
      invariant forall b :: 0 <= b <= cur ==> base[b] == blocks[b]
      invariant forall b :: cur < b <= end ==> base[b] == BlockRight(blocks, b, k)
    {
      RightStep(blocks, cur, k);
      base[cur] := Shr(base[cur], k);
      base[cur] := Or(base[cur], Shl(base[cur - 1], 64 - k));
      cur := cur - 1;
    }
    RightEnd(blocks, k);
    base[0] := Shr(base[0], k);
    MovedRight(blocks, bits, k, base[..end + 1]);
  }

  lemma RightStep(blocks: seq<Block>, b: nat, k: nat)
    requires 0 < b < |blocks| && 0 < k < 64
    ensures BlockRight(blocks, b, k) == Or(Shr(blocks[b], k), Shl(blocks[b - 1], 64 - k))
  {
  }

  lemma RightEnd(blocks: seq<Block>, k: nat)
    requires 0 < |blocks| && 0 < k < 64
    ensures BlockRight(blocks, 0, k) == Shr(blocks[0], k)
  {
  }

  method MoveBitsLeft(base: array<Block>, end: nat, k: nat, ghost bits: seq<bool>)
    requires end < base.Length && 0 < k < 64 && Packed(base[..end + 1], bits)
    modifies base
    ensures var after := base[..end + 1];
            forall b, j :: 0 <= b < |after| && 0 <= j < 64 ==> after[b][j] == At(bits, 64 * b + j + k)
  {
    hide BlockLeft, Packed, At, Shl, Shr, Or;
    ghost var blocks := base[..end + 1];
    var cur := 0;
    while cur < end
      invariant 0 <= cur <= end
      invariant forall b :: cur <= b <= end ==> base[b] == blocks[b]
      invariant forall b :: 0 <= b < cur ==> base[b] == BlockLeft(blocks, b, k)
    {
      LeftStep(blocks, cur, k);
      base[cur] := Shl(base[cur], k);
      base[cur] := Or(base[cur], Shr(base[cur + 1], 64 - k));
      cur := cur + 1;
    }
    LeftEnd(blocks, k);
    base[end] := Shl(base[end], k);
    MovedLeft(blocks, bits, k, base[..end + 1]);
  }

  lemma LeftStep(blocks: seq<Block>, b: nat, k: nat)
    requires b < |blocks| - 1 && 0 < k < 64
    ensures BlockLeft(blocks, b, k) == Or(Shl(blocks[b], k), Shr(blocks[b + 1], 64 - k))
  {
  }

  lemma LeftEnd(blocks: seq<Block>, k: nat)
    requires 0 < |blocks| && 0 < k < 64
    ensures BlockLeft(blocks, |blocks| - 1, k) == Shl(blocks[|blocks| - 1], k)
  {
  }

  lemma MovedRight(blocks: seq<Block>, bits: seq<bool>, k: nat, after: seq<Block>)
    requires Packed(blocks, bits) && 0 < k < 64 && |after| == |blocks| > 0
    requires forall b :: 0 <= b < |blocks| ==> after[b] == BlockRight(blocks, b, k)
    ensures forall b, j :: 0 <= b < |after| && 0 <= j < 64 ==> after[b][j] == At(bits, 64 * b + j - k)
  {
    hide BlockRight, Packed, At;
    forall b, j | 0 <= b < |after| && 0 <= j < 64 ensures after[b][j] == At(bits, 64 * b + j - k) {
      RightBit(blocks, bits, k, b, j);
    }
  }

  lemma ShrAt(x: Block, k: nat, j: nat)
    requires j < 64
    ensures Shr(x, k)[j] == (k <= j && x[j - k])
  {
  }

  lemma ShlAt(x: Block, k: nat, j: nat)
    requires j < 64
    ensures Shl(x, k)[j] == (j + k < 64 && x[j + k])
  {
  }

  lemma OrAt(x: Block, y: Block, j: nat)
    requires j < 64
    ensures Or(x, y)[j] == (x[j] || y[j])
  {
  }

  lemma RightBit(blocks: seq<Block>, bits: seq<bool>, k: nat, b: nat, j: nat)
    requires Packed(blocks, bits) && 0 < k < 64 && b < |blocks| && j < 64
    ensures BlockRight(blocks, b, k)[j] == At(bits, 64 * b + j - k)
  {
    hide Shr, Shl, Or, Packed;
    ShrAt(blocks[b], k, j);
    if b > 0 {
      ShlAt(blocks[b - 1], 64 - k, j);
      OrAt(Shr(blocks[b], k), Shl(blocks[b - 1], 64 - k), j);
    }
    if k <= j {
      BlockAt(blocks, bits, b, j - k);
    } else if b > 0 {
      BlockAt(blocks, bits, b - 1, 64 + j - k);
    }
  }

  lemma MovedLeft(blocks: seq<Block>, bits: seq<bool>, k: nat, after: seq<Block>)
    requires Packed(blocks, bits) && 0 < k < 64 && |after| == |blocks| > 0
    requires forall b :: 0 <= b < |blocks| ==> after[b] == BlockLeft(blocks, b, k)
    ensures forall b, j :: 0 <= b < |after| && 0 <= j < 64 ==> after[b][j] == At(bits, 64 * b + j + k)
  {
    hide BlockLeft, Packed, At;
    forall b, j | 0 <= b < |after| && 0 <= j < 64 ensures after[b][j] == At(bits, 64 * b + j + k) {
      LeftBit(blocks, bits, k, b, j);
    }
  }

  lemma LeftBit(blocks: seq<Block>, bits: seq<bool>, k: nat, b: nat, j: nat)
    requires Packed(blocks, bits) && 0 < k < 64 && b < |blocks| && j < 64
    ensures BlockLeft(blocks, b, k)[j] == At(bits, 64 * b + j + k)
  {
    hide Shr, Shl, Or;
    ShlAt(blocks[b], k, j);
    if b < |blocks| - 1 {
      ShrAt(blocks[b + 1], 64 - k, j);
      OrAt(Shl(blocks[b], k), Shr(blocks[b + 1], 64 - k), j);
    }
    if j + k < 64 {
      BlockAt(blocks, bits, b, j + k);
    } else if b < |blocks| - 1 {
      BlockAt(blocks, bits, b + 1, j + k - 64);
    }
  }

  // The bit loops of a shift, with what they leave in the blocks said in terms of the old bits
  method MoveBits(base: array<Block>, end: nat, k: nat, right: bool, ghost bits: seq<bool>)
    requires end < base.Length && 0 < k < 64 && Packed(base[..end + 1], bits)
    modifies base
    ensures var after := base[..end + 1];
            forall b, j :: 0 <= b < |after| && 0 <= j < 64 ==> after[b][j] == At(bits, 64 * b + j - Signed(right, k))
  {
    if right {
      MoveBitsRight(base, end, k, bits);
    } else {
      MoveBitsLeft(base, end, k, bits);
    }
  }

  // The sub-block part of a shift with zeros coming in
  method ShiftBits(bm: SimpleBitmap, k: nat, right: bool)
    requires bm.Valid() && 0 < k < 64
    modifies bm`zeros, bm`ones, bm`bits, bm.base
    ensures bm.Valid() && bm.bits == Shifted(old(bm.bits), Signed(right, k))
  {
    MoveBits(bm.base, bm.end, k, right, bm.bits);
    Settle(bm, bm.bits, Signed(right, k));
  }

  // bitmap_shift without wrap_around, default value 0
  method Shift(bm: SimpleBitmap, offset: nat, right: bool)
    requires bm.Valid()
    modifies bm`zeros, bm`ones, bm`bits, bm.base
    ensures bm.Valid() && bm.bits == Shifted(old(bm.bits), Signed(right, offset))
  {
    var blocks, bits := offset / 64, offset % 64;
    assert Shifted(bm.bits, 0) == bm.bits;
    if blocks != 0 {
      if blocks >= BlockNumber(bm.length) {
        ShiftedOut(bm.bits, Signed(right, offset));
        bm.Zero();
        assert bm.bits == Shifted(old(bm.bits), Signed(right, offset));
        return;
      }
      ShiftBlocks(bm, blocks, right);
    }
    if bits == 0 {
      return;
    }
    ShiftTwice(old(bm.bits), Signed(right, 64 * blocks), Signed(right, bits));
    ShiftBits(bm, bits, right);
  }

  // ---------------------------------------------------------------------
  // Rotation

  /** What the right rotation by less than a block makes of a map whose last block is partial: the moved bits, with
      the last `k` pieced in from the start. */
  function WrappedRight(s: seq<bool>, k: nat): (r: seq<bool>)
    ensures |r| == |s|
  {
    seq(|s|, i requires 0 <= i < |s| => At(s, i - k) || At(s, |s| - k + i))
  }

  // bitmap_shift with wrap_around to the right, offset less than a block. If the last block is full the source
  // shifts a block by a negative amount.
  method RotateRight(bm: SimpleBitmap, k: nat)
    requires bm.Valid() && 0 < k < 64 && bm.length % 64 != 0
    modifies bm`zeros, bm`ones, bm`bits, bm.base
    ensures bm.Valid() && bm.bits == WrappedRight(old(bm.bits), k)
    ensures k <= bm.length ==> bm.bits == Rotated(old(bm.bits), k)
  {
    hide Shl, Shr, Or, At, Rotated, Unpack, WrappedRight;
    ghost var bits, blocks := bm.bits, bm.base[..bm.end + 1];
    var excess := bm.length % 64;
    var last := bm.base[bm.end];
    MoveBits(bm.base, bm.end, k, true, bits);
    ghost var moved := bm.base[..bm.end + 1];
    var temp;
    if k < (bm.length - 1) % 64 + 1 {
      temp := Shl(last, excess - k);
    } else {
      temp := Shr(last, k - excess);
      temp := Or(temp, Shl(bm.base[bm.end], excess));
    }
    WrapRight(blocks, bits, k, moved[bm.end], temp);
    bm.base[0] := Or(bm.base[0], temp);
    UnpackRotatedRight(bits, k, moved, temp, bm.base[..]);
    WrappedIsRotated(bits, k);
    bm.CountZerosAndOnes();
  }

  lemma WrappedIsRotated(s: seq<bool>, k: nat)
    ensures k <= |s| ==> WrappedRight(s, k) == Rotated(s, k)
  {
    if k <= |s| {
      forall i | 0 <= i < |s| ensures WrappedRight(s, k)[i] == Rotated(s, k)[i] {
        assert WrappedRight(s, k)[i] == (At(s, i - k) || At(s, |s| - k + i));
        assert Rotated(s, k)[i] == if i < k then s[|s| - k + i] else s[i - k];
      }
    }
  }

  /** The right rotation is right for every map of `n` bits exactly when the offset is no longer than the map. */
  lemma WrappedRightIff(n: nat, k: nat)
    requires 0 < n && 0 < k < 64
    ensures (forall s: seq<bool> :: |s| == n ==> WrappedRight(s, k) == Rotated(s, k % n)) <==> k <= n
  {
    hide WrappedRight, Rotated;
    if k <= n {
      forall s: seq<bool> | |s| == n ensures WrappedRight(s, k) == Rotated(s, k % n) {
        WrappedWithin(s, k);
      }
    } else {
      WrappedTooFar(n, k);
    }
  }

  lemma WrappedWithin(s: seq<bool>, k: nat)
    requires 0 < k <= |s|
    ensures WrappedRight(s, k) == Rotated(s, k % |s|)
  {
    hide WrappedRight, Rotated;
    WrappedIsRotated(s, k);
    if k == |s| {
      FullTurn(s);
    } else {
      assert k % |s| == k;
    }
  }

  lemma FullTurn(s: seq<bool>)
    requires s != []
    ensures |s| % |s| == 0 && Rotated(s, 0) == Rotated(s, |s|)
  {
    assert |s| == 1 * |s| + 0;
  }

  lemma WrappedTooFar(n: nat, k: nat)
    requires 0 < n < k
    ensures WrappedRight(seq(n, _ => true), k) != Rotated(seq(n, _ => true), k % n)
  {
    var ones := seq(n, _ => true);
    assert WrappedRight(ones, k)[0] == (At(ones, 0 - k) || At(ones, n - k + 0));
    assert Rotated(ones, k % n)[0];
  }

  /** What the right rotation pieces into the first block: the last `k` bits, nothing else. */
  lemma WrapRight(blocks: seq<Block>, bits: seq<bool>, k: nat, movedLast: Block, temp: Block)
    requires Packed(blocks, bits) && |blocks| == BlockNumber(|bits|) && 0 < k < 64 && |bits| % 64 != 0
    requires forall j :: 0 <= j < 64 ==> movedLast[j] == At(bits, 64 * (|blocks| - 1) + j - k)
    requires var e := |bits| % 64;
             var last := blocks[|blocks| - 1];
             temp == if k < e then Shl(last, e - k) else Or(Shr(last, k - e), Shl(movedLast, e))
    ensures forall j :: 0 <= j < 64 ==> temp[j] == At(bits, |bits| - k + j)
  {
    var e, end := |bits| % 64, |blocks| - 1;
    assert |bits| == 64 * end + e;
    forall j | 0 <= j < 64 ensures temp[j] == At(bits, |bits| - k + j) {
      if k < e {
        if j + (e - k) < 64 {
          BlockAt(blocks, bits, end, j + (e - k));
        }
      } else {
        assert temp[j] == (Shr(blocks[end], k - e)[j] || Shl(movedLast, e)[j]);
        if j >= k - e {
          BlockAt(blocks, bits, end, j - (k - e));
        }
        if j + e < 64 {
          assert movedLast[j + e] == At(bits, 64 * end + (j + e) - k);
        }
      }
    }
  }

  lemma UnpackRotatedRight(bits: seq<bool>, k: nat, moved: seq<Block>, temp: Block, after: seq<Block>)
    requires 0 < |bits| <= 64 * |moved| && 0 < k < 64 && 0 < |moved| <= |after|
    requires forall b, j :: 0 <= b < |moved| && 0 <= j < 64 ==> moved[b][j] == At(bits, 64 * b + j - k)
    requires forall j :: 0 <= j < 64 ==> temp[j] == At(bits, |bits| - k + j)
    requires after[0] == Or(moved[0], temp) && forall b :: 0 < b < |moved| ==> after[b] == moved[b]
    ensures Unpack(after, |bits|) == WrappedRight(bits, k)
  {
    forall i | 0 <= i < |bits| ensures Unpack(after, |bits|)[i] == WrappedRight(bits, k)[i] {
      var b, j := i / 64, i % 64;
      assert 64 * b + j == i;
      assert moved[b][j] == At(bits, 64 * b + j - k);
      assert WrappedRight(bits, k)[i] == (At(bits, i - k) || At(bits, |bits| - k + i));
      if b == 0 {
        assert after[0][j] == (moved[0][j] || temp[j]);
      }
    }
  }

  /** The lengths and offsets for which the left rotation stays inside its blocks: with a partial last block the
      offset is below its number of bits, or above and there is a block before it; with a full one there is. */
  predicate StaysInside(n: nat, k: nat) {
    var e := n % 64;
    0 < k < 64 && 0 < n && (k < e || (k > e && n > 64))
  }

  /** What the left rotation makes of a map: with a partial last block the rotation, with a full one the first bits
      pieced in at the wrong places. */
  function WrappedLeft(s: seq<bool>, k: nat): (r: seq<bool>)
    requires StaysInside(|s|, k)
    ensures |r| == |s|
  {
    if |s| % 64 != 0 then Rotated(s, Signed(false, k))
    else seq(|s|, i requires 0 <= i < |s| => At(s, i + k) || Misplaced(s, k, i))
  }

  /** The bit that the left rotation puts at `i` of a map with a full last block, from the first block. */
  predicate Misplaced(s: seq<bool>, k: nat, i: nat)
    requires 64 <= |s| && i < |s| && 0 < k < 64
  {
    var j := i - (|s| - 64);
    if j < -64 then false
    else if j < 0 then j + k >= 0 && s[j + k]
    else j + k < 64 && s[j + k]
  }

  // bitmap_shift with wrap_around to the left, offset less than a block. Elsewhere the source reads before its
  // first block or shifts by the width of a block.
  method RotateLeft(bm: SimpleBitmap, k: nat)
    requires bm.Valid() && StaysInside(bm.length, k)
    modifies bm`zeros, bm`ones, bm`bits, bm.base
    ensures bm.Valid() && bm.bits == WrappedLeft(old(bm.bits), k)
  {
    ghost var bits, blocks := bm.bits, bm.base[..bm.end + 1];
    var excess := bm.length % 64;
    var temp := bm.base[0];
    MoveBits(bm.base, bm.end, k, false, bits);
    ghost var moved := bm.base[..bm.end + 1];
    if k < excess {
      bm.base[bm.end] := Or(bm.base[bm.end], Shr(temp, excess - k));
    } else {
      bm.base[bm.end - 1] := Or(bm.base[bm.end - 1], Shr(temp, 64 - (k - excess)));
      bm.base[bm.end] := Or(bm.base[bm.end], Shl(temp, k - excess));
    }
    UnpackRotatedLeft(blocks, bits, k, moved, bm.base[..]);
    bm.CountZerosAndOnes();
  }

  /** The left rotation is right for every map of `n` bits exactly when the last block is partial. */
  lemma WrappedLeftIff(n: nat, k: nat)
    requires StaysInside(n, k)
    ensures (forall s: seq<bool> :: |s| == n ==> WrappedLeft(s, k) == Rotated(s, Signed(false, k))) <==> n % 64 != 0
  {
    hide WrappedLeft, Rotated;
    if n % 64 == 0 {
      WrappedAstray(n, k);
    } else {
      forall s: seq<bool> | |s| == n ensures WrappedLeft(s, k) == Rotated(s, Signed(false, k)) {
        PartialIsRotated(s, k);
      }
    }
  }

  lemma PartialIsRotated(s: seq<bool>, k: nat)
    requires StaysInside(|s|, k) && |s| % 64 != 0
    ensures WrappedLeft(s, k) == Rotated(s, Signed(false, k))
  {
  }

  lemma WrappedAstray(n: nat, k: nat)
    requires StaysInside(n, k) && n % 64 == 0
    ensures WrappedLeft(seq(n, _ => true), k) != Rotated(seq(n, _ => true), Signed(false, k))
  {
    var ones := seq(n, _ => true);
    assert !Misplaced(ones, k, n - 1);
    assert !WrappedLeft(ones, k)[n - 1] && Rotated(ones, Signed(false, k))[n - 1];
  }

  /** The left rotation pieces the first `k` bits into the end of the map. */
  lemma UnpackRotatedLeft(blocks: seq<Block>, bits: seq<bool>, k: nat, moved: seq<Block>, after: seq<Block>)
    requires Packed(blocks, bits) && |blocks| == BlockNumber(|bits|) == |moved| <= |after| && StaysInside(|bits|, k)
    requires forall b, j :: 0 <= b < |moved| && 0 <= j < 64 ==> moved[b][j] == At(bits, 64 * b + j + k)
    requires var e, end := |bits| % 64, |moved| - 1;
             (forall b :: 0 <= b < end - 1 ==> after[b] == moved[b])
             && (k < e ==> after[end] == Or(moved[end], Shr(blocks[0], e - k)) && (end > 0 ==> after[end - 1] == moved[end - 1]))
             && (k > e ==> after[end - 1] == Or(moved[end - 1], Shr(blocks[0], 64 - (k - e)))
                           && after[end] == Or(moved[end], Shl(blocks[0], k - e)))
    ensures Unpack(after, |bits|) == WrappedLeft(bits, k)
  {
    hide Or, Shl, Shr, At, Packed, WrappedLeft;
    forall i | 0 <= i < |bits| ensures Unpack(after, |bits|)[i] == WrappedLeft(bits, k)[i] {
      assert 64 * (i / 64) + i % 64 == i;
      LeftAt(blocks, bits, k, moved[i / 64], after[i / 64], i / 64, i % 64);
    }
  }

  lemma WrappedLeftAt(s: seq<bool>, k: nat, i: nat)
    requires StaysInside(|s|, k) && i < |s|
    ensures |s| % 64 != 0 ==> WrappedLeft(s, k)[i] == if i < |s| - k then s[i + k] else s[i - (|s| - k)]
    ensures |s| % 64 == 0 ==> WrappedLeft(s, k)[i] == (At(s, i + k) || Misplaced(s, k, i))
  {
    hide At, Misplaced;
  }

  lemma LeftAt(blocks: seq<Block>, bits: seq<bool>, k: nat, moved: Block, after: Block, b: nat, j: nat)
    requires Packed(blocks, bits) && |blocks| == BlockNumber(|bits|) && StaysInside(|bits|, k) && b < |blocks| && j < 64 && 64 * b + j < |bits|
    requires moved[j] == At(bits, 64 * b + j + k)
    requires var e, end := |bits| % 64, |blocks| - 1;
             (b < end - 1 ==> after == moved)
             && (k < e ==> after == if b == end then Or(moved, Shr(blocks[0], e - k)) else moved)
             && (k > e && b == end - 1 ==> after == Or(moved, Shr(blocks[0], 64 - (k - e))))
             && (k > e && b == end ==> after == Or(moved, Shl(blocks[0], k - e)))
    ensures after[j] == WrappedLeft(bits, k)[64 * b + j]
  {
    hide Or, Shl, Shr, Packed, WrappedLeft, Misplaced, At;
    WrappedLeftAt(bits, k, 64 * b + j);
    var e, end := |bits| % 64, |blocks| - 1;
    assert |bits| == 64 * end + if e == 0 then 64 else e;
    if e == 0 {
      FullBlock(blocks, bits, k, end, b, j, moved, after);
    } else {
      LeftBlock(blocks, bits, k, e, end, b, j, moved, after);
    }
  }

  lemma FullBlock(blocks: seq<Block>, bits: seq<bool>, k: nat, end: nat, b: nat, j: nat, moved: Block, after: Block)
    requires Packed(blocks, bits) && |blocks| == end + 1 && |bits| == 64 * end + 64 && 0 < k < 64 && b <= end && j < 64
    requires moved[j] == At(bits, 64 * b + j + k)
    requires b < end - 1 ==> after == moved
    requires b == end ==> after == Or(moved, Shl(blocks[0], k))
    requires b == end - 1 ==> after == Or(moved, Shr(blocks[0], 64 - k))
    ensures after[j] == (At(bits, 64 * b + j + k) || Misplaced(bits, k, 64 * b + j))
  {
    if b == end {
      assert after[j] == (moved[j] || Shl(blocks[0], k)[j]);
      if j + k < 64 { BlockAt(blocks, bits, 0, j + k); }
    } else if b == end - 1 {
      assert after[j] == (moved[j] || Shr(blocks[0], 64 - k)[j]);
      if j >= 64 - k { BlockAt(blocks, bits, 0, j - (64 - k)); }
    }
  }

  lemma LeftBlock(blocks: seq<Block>, bits: seq<bool>, k: nat, e: nat, end: nat, b: nat, j: nat, moved: Block, after: Block)
    requires Packed(blocks, bits) && |blocks| == end + 1 && |bits| == 64 * end + e
    requires 0 < k < 64 && 0 < e < 64 && (k < e || (k > e && end > 0)) && b <= end && j < 64 && 64 * b + j < |bits|
    requires moved[j] == At(bits, 64 * b + j + k)
    requires b < end - 1 ==> after == moved
    requires b == end && k < e ==> after == Or(moved, Shr(blocks[0], e - k))
    requires b == end && k > e ==> after == Or(moved, Shl(blocks[0], k - e))
    requires b == end - 1 ==> after == if k < e then moved else Or(moved, Shr(blocks[0], 64 - (k - e)))
    ensures var i := 64 * b + j;
            after[j] == if i < |bits| - k then bits[i + k] else bits[i - (|bits| - k)]
  {
    var i := 64 * b + j;
    var r := i - (|bits| - k);
    if b == end && k < e {
      assert after[j] == (moved[j] || Shr(blocks[0], e - k)[j]);
      if r >= 0 { BlockAt(blocks, bits, 0, r); }
    } else if b == end {
      assert after[j] == (moved[j] || Shl(blocks[0], k - e)[j]);
      BlockAt(blocks, bits, 0, r);
    } else if b == end - 1 && k > e {
      assert after[j] == (moved[j] || Shr(blocks[0], 64 - (k - e))[j]);
      if r >= 0 { BlockAt(blocks, bits, 0, r); }
    }
  }
}
