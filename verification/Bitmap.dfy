/** `simple_bitmap`: a bit sequence packed into 64-bit blocks, with cached counts. */
module Bitmap {
  import opened Util
  import opened Codes
  import opened Block
  import opened BitSeq

  datatype LogicOp = OpAnd | OpOr | OpXor

  function Logic(op: LogicOp, x: bool, y: bool): bool {
    match op
    case OpAnd => x && y
    case OpOr => x || y
    case OpXor => x != y
  }

  function LogicBlock(op: LogicOp, x: Block, y: Block): (r: Block)
    ensures forall j :: 0 <= j < 64 ==> r[j] == Logic(op, x[j], y[j])
  {
    match op
    case OpAnd => And(x, y)
    case OpOr => Or(x, y)
    case OpXor => Xor(x, y)
  }

  /** Blocks needed for `n` bits. */
  function BlockNumber(n: nat): (k: nat)
    ensures k == (n + 63) / 64
  {
    if n == 0 then 0 else (n - 1) / 64 + 1
  }

  /** The bits of `ret` after combining `a` and `b` into it block by block, over the blocks all three have. */
  function Combined(op: LogicOp, a: seq<bool>, b: seq<bool>, ret: seq<bool>): (r: seq<bool>)
    ensures |r| == |ret|
  {
    seq(|ret|, i requires 0 <= i < |ret| =>
      if i < Shared(|a|, |b|, |ret|) then Logic(op, At(a, i), At(b, i)) else ret[i])
  }

  /** Over the common length, the operator bit by bit. */
  lemma CombinedAt(a: seq<bool>, b: seq<bool>, ret: seq<bool>, i: nat)
    requires i < |a| == |b| == |ret|
    ensures Combined(OpAnd, a, b, ret)[i] == (a[i] && b[i])
    ensures Combined(OpOr, a, b, ret)[i] == (a[i] || b[i])
    ensures Combined(OpXor, a, b, ret)[i] == (a[i] != b[i])
  {
    assert i < Shared(|a|, |b|, |ret|);
  }

  /** How many places the blocks common to maps of these lengths cover. */
  function Shared(a: nat, b: nat, ret: nat): nat {
    64 * Min(Min(BlockNumber(a), BlockNumber(b)), BlockNumber(ret))
  }

  /** Bit `i` of a run of blocks. */
  ghost function BlockBit(blocks: seq<Block>, i: nat): bool
    requires i < 64 * |blocks|
  {
    blocks[i / 64][i % 64]
  }

  ghost function Unpack(blocks: seq<Block>, n: nat): (r: seq<bool>)
    requires n <= 64 * |blocks|
    ensures |r| == n
  {
    seq(n, i requires 0 <= i < n => BlockBit(blocks, i))
  }

  /** Names a place, so that the places of a packed map are looked at only where a proof asks for one. */
  ghost predicate Spot(b: int, j: int) { true }

  ghost predicate Tally(s: seq<bool>) { true }

  /** The blocks hold `bits`, and every place past the last bit is 0. */
  ghost predicate Packed(blocks: seq<Block>, bits: seq<bool>) {
    |bits| <= 64 * |blocks|
    && forall b, j {:trigger Spot(b, j)} ::
         Spot(b, j) && 0 <= b < |blocks| && 0 <= j < 64 ==> blocks[b][j] == At(bits, 64 * b + j)
  }

  lemma BlockAt(blocks: seq<Block>, bits: seq<bool>, b: nat, j: nat)
    requires Packed(blocks, bits) && b < |blocks| && j < 64
    ensures blocks[b][j] == At(bits, 64 * b + j)
  {
    assert Spot(b, j);
  }

  lemma PackedBit(blocks: seq<Block>, bits: seq<bool>, i: nat)
    requires Packed(blocks, bits) && i < 64 * |blocks|
    ensures blocks[i / 64][i % 64] == At(bits, i)
  {
    assert 64 * (i / 64) + i % 64 == i;
    BlockAt(blocks, bits, i / 64, i % 64);
  }

  /** Changing one bit of one block changes one bit of the sequence. */
  lemma PackedUpdate(blocks: seq<Block>, bits: seq<bool>, i: nat, v: bool)
    requires Packed(blocks, bits) && i < |bits|
    ensures var w: Block := blocks[i / 64][i % 64 := v]; Packed(blocks[i / 64 := w], bits[i := v])
  {
    var w: Block := blocks[i / 64][i % 64 := v];
    var after := blocks[i / 64 := w];
    forall b, j | 0 <= b < |after| && 0 <= j < 64 ensures after[b][j] == At(bits[i := v], 64 * b + j) {
      if b == i / 64 && j == i % 64 {
        assert 64 * b + j == i;
      } else {
        assert 64 * b + j != i;
        BlockAt(blocks, bits, b, j);
      }
    }
  }

  lemma PackedConstant(blocks: seq<Block>, end: nat, n: nat, v: bool)
    requires 0 < n && end == (n - 1) / 64 && |blocks| == end + 1
    requires forall b :: 0 <= b < end ==> blocks[b] == if v then ONES else ZERO
    requires forall j :: 0 <= j < 64 ==> blocks[end][j] == (j < (n - 1) % 64 + 1 && v)
    ensures Packed(blocks, seq(n, _ => v))
    ensures Ones(seq(n, _ => v)) == if v then n else 0
  {
    OnesConstant(seq(n, _ => v), v);
    forall b, j | 0 <= b < |blocks| && 0 <= j < 64 ensures blocks[b][j] == (64 * b + j < n && v) {
      if b == end {
        assert blocks[end][j] == (j < (n - 1) % 64 + 1 && v);
      }
    }
  }

  lemma PackedComplement(blocks: seq<Block>, bits: seq<bool>, after: seq<Block>)
    requires Packed(blocks, bits) && |after| == |blocks|
    requires forall b, j :: 0 <= b < |blocks| && 0 <= j < 64 ==> after[b][j] == (64 * b + j < |bits| && !blocks[b][j])
    ensures Packed(after, Complement(bits))
  {
    forall b, j | 0 <= b < |after| && 0 <= j < 64 ensures after[b][j] == At(Complement(bits), 64 * b + j) {
      BlockAt(blocks, bits, b, j);
    }
  }

  /** Resized content, read off blocks whose old part is kept and whose new part is filled. */
  lemma UnpackResize(blocks: seq<Block>, bits: seq<bool>, after: seq<Block>, n: nat, fill: bool)
    requires Packed(blocks, bits) && n <= 64 * |after|
    requires forall b, j :: 0 <= b < |after| && 0 <= j < 64 && 64 * b + j < n ==>
      after[b][j] == if b < |blocks| && 64 * b + j < |bits| then blocks[b][j] else fill
    ensures Unpack(after, n) == Resize(bits, n, fill)
  {
    forall i | 0 <= i < n ensures Unpack(after, n)[i] == Resize(bits, n, fill)[i] {
      assert 64 * (i / 64) + i % 64 == i;
      assert Unpack(after, n)[i] == after[i / 64][i % 64];
      if i < |bits| {
        PackedBit(blocks, bits, i);
      }
    }
  }

  /** The blocks of bitmap_copy: a copied prefix with its edge set to `fill`, then the filled rest. */
  lemma UnpackCopy(src: seq<Block>, bits: seq<bool>, filled: seq<Block>, after: seq<Block>,
                   last: nat, edge: nat, n: nat, fill: bool)
    requires Packed(src, bits)
    requires Packed(filled, seq(n, _ => fill)) && |filled| <= |after|
    requires last < |src| && last < |filled| && edge <= 64 && 64 * last + edge == Min(|bits|, n)
    requires forall b :: 0 <= b < |filled| && b != last ==> after[b] == if b < last then src[b] else filled[b]
    requires forall j :: 0 <= j < 64 ==> after[last][j] == if j < edge then src[last][j] else fill
    ensures Unpack(after, n) == Resize(bits, n, fill)
  {
    forall b, j | 0 <= b < |filled| && 0 <= j < 64 && 64 * b + j < n
      ensures after[b][j] == if b < |src| && 64 * b + j < |bits| then src[b][j] else fill
    {
      BlockAt(filled, seq(n, _ => fill), b, j);
      if b < |src| {
        BlockAt(src, bits, b, j);
      }
    }
    UnpackResize(src, bits, after[..|filled|], n, fill);
    assert Unpack(after, n) == Unpack(after[..|filled|], n);
  }

  lemma UnpackCombined(op: LogicOp, a: seq<Block>, abits: seq<bool>, b: seq<Block>, bbits: seq<bool>,
                       r: seq<Block>, rbits: seq<bool>, after: seq<Block>)
    requires Packed(a, abits) && Packed(b, bbits) && Packed(r, rbits) && |r| <= |after|
    requires |a| == BlockNumber(|abits|) && |b| == BlockNumber(|bbits|) && |r| == BlockNumber(|rbits|)
    requires forall k :: 0 <= k < |r| ==>
      after[k] == if k < |a| && k < |b| then LogicBlock(op, a[k], b[k]) else r[k]
    ensures Unpack(after, |rbits|) == Combined(op, abits, bbits, rbits)
  {
    var want := Combined(op, abits, bbits, rbits);
    forall i | 0 <= i < |rbits| ensures Unpack(after, |rbits|)[i] == want[i] {
      assert Unpack(after, |rbits|)[i] == after[i / 64][i % 64];
      PackedBit(r, rbits, i);
      if i / 64 < |a| && i / 64 < |b| {
        PackedBit(a, abits, i);
        PackedBit(b, bbits, i);
      }
    }
  }

  lemma WriteCounts(bits: seq<bool>, i: nat)
    requires i < |bits|
    ensures bits[i] ==> Ones(bits) > 0
    ensures !bits[i] ==> Ones(bits) < |bits|
  {
    OnesPositive(bits, i);
    OnesPositive(Complement(bits), i);
    OnesComplement(bits);
    assert !bits[i] ==> Complement(bits)[i];
  }

  class SimpleBitmap {
    var base: array<Block>
    var end: nat
    var length: nat
    var zeros: nat
    var ones: nat

    /** What the map denotes. */
    ghost var bits: seq<bool>

    /** `end` is the block of the last bit, and the memory reaches that far. */
    ghost predicate Shaped()
      reads this
    {
      0 < length && end == (length - 1) / 64 && end < base.Length
    }

    ghost predicate Valid()
      reads this, base
    {
      Shaped() && |bits| == length && Holds() && Counted() && ones + zeros == length
    }

    /** The blocks hold `bits`, and every place past the last bit is 0. */
    ghost predicate Holds()
      reads this, base
      requires end < base.Length
    {
      forall b, j {:trigger Spot(b, j)} ::
        Spot(b, j) && 0 <= b <= end && 0 <= j < 64 ==> base[b][j] == At(bits, 64 * b + j)
    }

    /** The cached count is the number of set bits. */
    ghost predicate Counted()
      reads this
    {
      forall s {:trigger Tally(s)} :: Tally(s) && s == bits ==> ones == Ones(s)
    }

    lemma Facts()
      requires Valid()
      ensures Packed(base[..end + 1], bits) && ones == Ones(bits)
    {
      assert Tally(bits);
    }

    lemma Established()
      requires Shaped() && |bits| == length && Packed(base[..end + 1], bits) && ones == Ones(bits) && ones + zeros == length
      ensures Valid()
    {
    }

    lemma BitInBlock(i: nat)
      requires Valid() && i < length
      ensures i / 64 <= end && base[i / 64][i % 64] == bits[i]
    {
      PackedBit(base[..end + 1], bits, i);
    }

    // bitmap_zero
    method Zero()
      requires Shaped()
      modifies this`zeros, this`ones, this`bits, base
      ensures Valid() && bits == seq(length, _ => false)
    {
      FillBlocks(base, 0, end + 1, ZERO);
      zeros := length;
      ones := 0;
      bits := seq(length, _ => false);
      PackedConstant(base[..end + 1], end, length, false);
    }

    // bitmap_one
    method One()
      requires Shaped()
      modifies this`zeros, this`ones, this`bits, base
      ensures Valid() && bits == seq(length, _ => true)
    {
      FillBlocks(base, 0, end + 1, ONES);
      base[end] := SetEdge(base[end], (length - 1) % 64 + 1, false);
      zeros := 0;
      ones := length;
      bits := seq(length, _ => true);
      PackedConstant(base[..end + 1], end, length, true);
    }

    // The choice by default value in bitmap_init and bitmap_copy
    method Fill(v: bool)
      requires Shaped()
      modifies this`zeros, this`ones, this`bits, base
      ensures Valid() && bits == seq(length, _ => v)
    {
      if v {
        One();
      } else {
        Zero();
      }
    }

    // bitmap_init. The last block may be given in place of the size; a value other than 0 and 1 leaves memory and
    // counts as they are.
    constructor (memory: array<Block>, last: Option<nat>, size: nat, value: nat)
      requires if last.Some? then last.value < memory.Length else 0 < size <= 64 * memory.Length
      modifies memory
      ensures base == memory && Shaped() && length == if last.Some? then 64 * (last.value + 1) else size
      ensures value == 0 ==> Valid() && bits == seq(length, _ => false)
      ensures value == 1 ==> Valid() && bits == seq(length, _ => true)
      ensures value > 1 ==> memory[..] == old(memory[..])
    {
      base := memory;
      end := if last.Some? then last.value else (size - 1) / 64;
      length := if last.Some? then (last.value + 1) * 64 else size;
      new;
      if value <= 1 {
        Fill(value == 1);
      }
    }

    // bitmap_count_zeros_and_ones: recounts, and clears the places past the last bit.
    method CountZerosAndOnes()
      requires Shaped()
      modifies this`zeros, this`ones, this`bits, base
      ensures Valid()
      ensures bits == Unpack(old(base[..]), length)
      ensures forall b :: 0 <= b < base.Length && b != end ==> base[b] == old(base[b])
    {
      hide Ones, Unpack, Packed;
      zeros, ones := CountBits(base, end, length);
      var last := (length - 1) % 64 + 1;
      bits := Unpack(base[..], length);
      base[end] := SetEdge(base[end], last, false);
      PackUnpacked(old(base[..]), length, end, base[..end + 1]);
    }

    // bitmap_read
    method Read(index: nat) returns (ret: int, value: bool)
      requires Valid()
      ensures index >= length ==> ret == WRONG_INPUT
      ensures index < length ==> ret == OK && value == bits[index]
    {
      var block := index / 64;
      if block > end || index >= length {
        return WRONG_INPUT, false;
      }
      BitInBlock(index);
      ret, value := OK, base[block][index % 64];
    }

    // bitmap_write
    method Write(index: nat, value: bool) returns (ret: int)
      requires Valid()
      modifies this`zeros, this`ones, this`bits, base
      ensures Valid()
      ensures index >= length ==> ret == WRONG_INPUT && bits == old(bits)
      ensures index < length ==> ret == OK && bits == old(bits)[index := value]
    {
      var block := index / 64;
      if block > end || index >= length {
        return WRONG_INPUT;
      }
      Put(index, value);
      ret := OK;
    }

    // bitmap_write past its range check
    method Put(index: nat, value: bool)
      requires Valid() && index < length
      modifies this`zeros, this`ones, this`bits, base
      ensures Valid() && bits == old(bits)[index := value]
    {
      BitInBlock(index);
      Facts();
      PackedUpdate(base[..end + 1], bits, index, value);
      OnesUpdate(bits, index, value);
      WriteCounts(bits, index);
      ghost var after := base[..end + 1][index / 64 := base[index / 64][index % 64 := value]];
      var original := WriteBlock(base, index / 64, index % 64, value);
      assert base[..end + 1] == after;
      bits := bits[index := value];
      Recount(original, value);
      Established();
    }

    // The count update of bitmap_write
    method Recount(original: bool, value: bool)
      requires value && !original ==> zeros > 0
      requires !value && original ==> ones > 0
      modifies this`zeros, this`ones
      ensures ones == old(ones) - (if original then 1 else 0) + (if value then 1 else 0)
      ensures ones + zeros == old(ones + zeros)
    {
      if !value && original {
        zeros := zeros + 1;
        ones := ones - 1;
      } else if value && !original {
        zeros := zeros - 1;
        ones := ones + 1;
      }
    }

    // bitmap_not
    method Negate()
      requires Valid()
      modifies this`zeros, this`ones, this`bits, base
      ensures Valid() && bits == Complement(old(bits))
    {
      Facts();
      OnesComplement(bits);
      ghost var blocks := base[..end + 1];
      NotBlocks(base, end + 1);
      base[end] := SetEdge(base[end], (length - 1) % 64 + 1, false);
      PackedComplement(blocks, bits, base[..end + 1]);
      ones, zeros := zeros, ones;
      bits := Complement(bits);
      Established();
    }

    // bitmap_grow with a null end: `newBase` is the reallocated memory, or null when the map stays in place.
    method Grow(newBase: array?<Block>, size: nat, fill: bool) returns (ret: int)
      requires Valid()
      requires newBase != null && size > length ==> newBase != base && end < newBase.Length && newBase[..end + 1] == base[..end + 1]
      requires size > length ==> BlockNumber(size) <= (if newBase == null then base.Length else newBase.Length)
      modifies this, base, newBase
      ensures size <= old(length) ==> ret == WRONG_INPUT && bits == old(bits) && length == old(length) && ones == old(ones)
      ensures size <= old(length) && newBase == null ==> Valid()
      ensures size > old(length) ==> ret == OK && Valid() && length == size && bits == Resize(old(bits), size, fill)
      ensures base == if newBase == null then old(base) else newBase
    {
      ghost var was := base;
      var oldLength, oldEnd := length, end;
      if newBase != null {
        base := newBase;
      }
      if size <= oldLength {
        return WRONG_INPUT;
      }
      assert forall b :: 0 <= b <= oldEnd ==> base[b] == old(base[..end + 1])[b];
      end := (size - 1) / 64;
      length := size;
      base[oldEnd] := SetEdge(base[oldEnd], (oldLength - 1) % 64 + 1, fill);
      FillBlocks(base, oldEnd + 1, end + 1, if fill then ONES else ZERO);
      UnpackResize(old(base[..end + 1]), bits, base[..], size, fill);
      CountZerosAndOnes();
      ret := OK;
    }

    // bitmap_shrink with a null end
    method Shrink(size: nat) returns (ret: int)
      requires Valid()
      modifies this`end, this`length, this`zeros, this`ones, this`bits, base
      ensures Valid()
      ensures size == 0 || size >= old(length) ==> ret == WRONG_INPUT && bits == old(bits)
      ensures 0 < size < old(length) ==> ret == OK && bits == old(bits)[..size]
      ensures 0 < size < old(length) ==> forall b :: end < b <= old(end) ==> base[b] == ZERO
    {
      if size == 0 || size >= length {
        return WRONG_INPUT;
      }
      var oldEnd := end;
      end := (size - 1) / 64;
      length := size;
      base[end] := SetEdge(base[end], (size - 1) % 64 + 1, false);
      for cur := end + 1 to oldEnd + 1
        invariant forall b :: end < b < cur ==> base[b] == ZERO
        invariant forall b, j :: 0 <= b <= end && 0 <= j < 64 ==>
          base[b][j] == (old(base[b])[j] && 64 * b + j < size)
        modifies base
      {
        base[cur] := ZERO;
      }
      UnpackResize(old(base[..end + 1]), bits, base[..], size, false);
      assert Resize(bits, size, false) == bits[..size];
      CountZerosAndOnes();
      ret := OK;
    }

    // ffp_grow_bitmap: grows with zeros, reallocating only when another block is needed.
    method FfpGrow(size: nat) returns (ret: int)
      requires Valid()
      modifies this, base
      ensures ret == OK && Valid()
      ensures base == old(base) || fresh(base)
      ensures size <= old(length) ==> bits == old(bits) && base == old(base) && unchanged(this) && unchanged(base)
      ensures size > old(length) ==> bits == Resize(old(bits), size, false)
    {
      if size > length {
        if BlockNumber(size) != BlockNumber(length) {
          var raw := Realloc(base, end + 1, BlockNumber(size));
          ret := Grow(raw, size, false);
        } else {
          ret := Grow(null, size, false);
        }
      }
      ret := OK;
    }
  }

  method FillBlocks(blocks: array<Block>, from: nat, to: nat, filler: Block)
    requires to <= blocks.Length
    modifies blocks
    ensures forall b :: 0 <= b < blocks.Length ==> blocks[b] == if from <= b < to then filler else old(blocks[b])
  {
    var cur := from;
    while cur < to
      invariant from <= cur
      invariant forall b :: 0 <= b < blocks.Length ==> blocks[b] == if from <= b < cur && b < to then filler else old(blocks[b])
    {
      blocks[cur] := filler;
      cur := cur + 1;
    }
  }

  method CopyBlocks(src: array<Block>, dst: array<Block>, n: nat)
    requires src != dst && n <= src.Length && n <= dst.Length
    modifies dst
    ensures forall b :: 0 <= b < dst.Length ==> dst[b] == if b < n then src[b] else old(dst[b])
  {
    for cur := 0 to n
      invariant forall b :: 0 <= b < dst.Length ==> dst[b] == if b < cur then src[b] else old(dst[b])
    {
      dst[cur] := src[cur];
    }
  }

  // realloc of a map's memory: the first `used` blocks keep their content.
  method Realloc(base: array<Block>, used: nat, size: nat) returns (raw: array<Block>)
    requires used <= base.Length && used <= size
    ensures fresh(raw) && raw.Length == size
    ensures raw[..used] == base[..used]
  {
    raw := new Block[size];
    CopyBlocks(base, raw, used);
  }

  // The block loop of bitmap_and, bitmap_or and bitmap_xor
  method CombineBlocks(op: LogicOp, a: array<Block>, b: array<Block>, ret: array<Block>, n: nat)
    requires n <= a.Length && n <= b.Length && n <= ret.Length
    modifies ret
    ensures forall k :: 0 <= k < ret.Length ==>
      ret[k] == if k < n then LogicBlock(op, old(a[k]), old(b[k])) else old(ret[k])
  {
    for i := 0 to n
      invariant forall k :: 0 <= k < ret.Length ==>
        ret[k] == if k < i then LogicBlock(op, old(a[k]), old(b[k])) else old(ret[k])
      invariant forall k :: i <= k < n ==> a[k] == old(a[k]) && b[k] == old(b[k])
    {
      ret[i] := LogicBlock(op, a[i], b[i]);
    }
  }

  method NotBlocks(blocks: array<Block>, n: nat)
    requires n <= blocks.Length
    modifies blocks
    ensures forall b :: 0 <= b < blocks.Length ==> blocks[b] == if b < n then Not(old(blocks[b])) else old(blocks[b])
  {
    for cur := 0 to n
      invariant forall b :: 0 <= b < blocks.Length ==> blocks[b] == if b < cur then Not(old(blocks[b])) else old(blocks[b])
    {
      blocks[cur] := Not(blocks[cur]);
    }
  }

  // The block update of bitmap_write; `original` is the bit that was there.
  method WriteBlock(blocks: array<Block>, block: nat, bit: nat, value: bool) returns (original: bool)
    requires block < blocks.Length && bit < 64
    modifies blocks
    ensures original == old(blocks[block])[bit]
    ensures forall b :: 0 <= b < blocks.Length && b != block ==> blocks[b] == old(blocks[b])
    ensures blocks[block] == old(blocks[block])[bit := value]
  {
    var mask := OneBit(bit);
    var buf := if value then mask else ZERO;
    TestBit(blocks[block], bit);
    WriteBit(blocks[block], bit, value);
    original := And(blocks[block], mask) != ZERO;
    blocks[block] := And(blocks[block], Not(mask));
    blocks[block] := Or(blocks[block], buf);
  }

  // bitmap_and, bitmap_or, bitmap_xor: the three differ in the operator only. `ret` may be `a` or `b`.
  method Combine(op: LogicOp, a: SimpleBitmap, b: SimpleBitmap, ret: SimpleBitmap, enforceSameSize: bool) returns (code: int)
    requires a.Valid() && b.Valid() && ret.Valid()
    requires (a == ret || a.base != ret.base) && (b == ret || b.base != ret.base)
    modifies ret`zeros, ret`ones, ret`bits, ret.base
    ensures ret.Valid()
    ensures enforceSameSize && !(a.length == b.length == ret.length) ==> code == WRONG_INPUT && ret.bits == old(ret.bits)
    ensures !enforceSameSize || a.length == b.length == ret.length ==>
      code == OK && ret.bits == Combined(op, old(a.bits), old(b.bits), old(ret.bits))
  {
    hide Ones, Unpack, LogicBlock, Combined;
    if enforceSameSize && !(a.length == b.length && a.length == ret.length) {
      return WRONG_INPUT;
    }
    var minLen := Min(Min(a.end + 1, b.end + 1), ret.end + 1);
    CombineBlocks(op, a.base, b.base, ret.base, minLen);
    UnpackCombined(op, old(a.base[..a.end + 1]), old(a.bits), old(b.base[..b.end + 1]), old(b.bits),
                   old(ret.base[..ret.end + 1]), old(ret.bits), ret.base[..]);
    ret.CountZerosAndOnes();
    code := OK;
  }

  // bitmap_copy
  method Copy(src: SimpleBitmap, dst: SimpleBitmap, allowTruncate: bool, fill: bool) returns (code: int)
    requires src.Valid() && dst.Valid() && src != dst && src.base != dst.base
    modifies dst`zeros, dst`ones, dst`bits, dst.base
    ensures dst.Valid()
    ensures src.length > dst.length && !allowTruncate ==> code == GENERAL_FAIL && dst.bits == old(dst.bits)
    ensures src.length <= dst.length || allowTruncate ==> code == OK && dst.bits == Resize(src.bits, dst.length, fill)
  {
    if src.length > dst.length && !allowTruncate {
      return GENERAL_FAIL;
    }
    if src.length <= dst.length {
      CopyInto(src, dst, src.end, (src.length - 1) % 64 + 1, fill);
    } else {
      CopyInto(src, dst, dst.end, (dst.length - 1) % 64 + 1, fill);
    }
    code := OK;
  }

  // The two branches of bitmap_copy: they differ in the last copied block and where its edge lies.
  method CopyInto(src: SimpleBitmap, dst: SimpleBitmap, last: nat, edge: nat, fill: bool)
    requires src.Valid() && dst.Valid() && src != dst && src.base != dst.base
    requires last <= src.end && last <= dst.end && edge <= 64 && 64 * last + edge == Min(src.length, dst.length)
    modifies dst`zeros, dst`ones, dst`bits, dst.base
    ensures dst.Valid() && dst.bits == Resize(src.bits, dst.length, fill)
  {
    dst.Fill(fill);
    ghost var filled := dst.base[..dst.end + 1];
    CopyBlocks(src.base, dst.base, last + 1);
    dst.base[last] := SetEdge(dst.base[last], edge, fill);
    UnpackCopy(src.base[..src.end + 1], src.bits, filled, dst.base[..], last, edge, dst.length, fill);
    dst.CountZerosAndOnes();
  }

  lemma NoOnes(s: seq<bool>)
    ensures Ones(s[..0]) == 0
  {
  }

  // The counting loops of bitmap_count_zeros_and_ones.
  method CountBits(base: array<Block>, end: nat, length: nat) returns (zeros: nat, ones: nat)
    requires 0 < length && end == (length - 1) / 64 && end < base.Length
    ensures ones == Ones(Unpack(base[..], length)) && ones + zeros == length
  {
    hide Ones, Unpack;
    ghost var all := Unpack(base[..], length);
    zeros := 0;
    ones := 0;
    NoOnes(all);
    for cur := 0 to end
      invariant ones == Ones(all[..64 * cur]) && ones + zeros == 64 * cur
    {
      var z, o := CountBlock(base[cur], 64);
      CountedBlock(base[..], all, cur, 64);
      zeros := zeros + z;
      ones := ones + o;
    }
    var last := (length - 1) % 64 + 1;
    var z, o := CountBlock(base[end], last);
    CountedBlock(base[..], all, end, last);
    zeros := zeros + z;
    ones := ones + o;
    assert all[..length] == all;
  }

  /** Clearing the edge of the last block packs the bits that were counted. */
  lemma PackUnpacked(blocks: seq<Block>, n: nat, end: nat, after: seq<Block>)
    requires 0 < n && end == (n - 1) / 64 && |after| == end + 1 <= |blocks|
    requires forall b :: 0 <= b < end ==> after[b] == blocks[b]
    requires forall j :: 0 <= j < 64 ==> after[end][j] == (j < (n - 1) % 64 + 1 && blocks[end][j])
    ensures Packed(after, Unpack(blocks, n))
  {
    var bits := Unpack(blocks, n);
    forall b, j | 0 <= b < |after| && 0 <= j < 64 ensures after[b][j] == At(bits, 64 * b + j) {
      if 64 * b + j < n {
        assert bits[64 * b + j] == BlockBit(blocks, 64 * b + j);
      }
      assert b == end ==> after[end][j] == (j < (n - 1) % 64 + 1 && blocks[end][j]);
    }
  }

  // The inner counting loop of bitmap_count_zeros_and_ones.
  method CountBlock(block: Block, n: nat) returns (zeros: nat, ones: nat)
    requires n <= 64
    ensures ones == Ones(block[..n]) && zeros + ones == n
  {
    var buf := block;
    zeros := 0;
    ones := 0;
    for count := 0 to n
      invariant buf == Shl(block, count)
      invariant ones == Ones(block[..count]) && zeros + ones == count
    {
      OnesStep(block, count);
      if buf[0] {
        ones := ones + 1;
      } else {
        zeros := zeros + 1;
      }
      buf := Shl(buf, 1);
    }
  }

  lemma CountedBlock(blocks: seq<Block>, all: seq<bool>, cur: nat, n: nat)
    requires cur < |blocks| && n <= 64 && 64 * cur + n <= |all| <= 64 * |blocks|
    requires all == Unpack(blocks, |all|)
    ensures Ones(all[..64 * cur + n]) == Ones(all[..64 * cur]) + Ones(blocks[cur][..n])
  {
    var lo, hi := all[..64 * cur], blocks[cur][..n];
    forall i | 0 <= i < n ensures all[64 * cur + i] == hi[i] {
      assert all[64 * cur + i] == BlockBit(blocks, 64 * cur + i);
    }
    assert all[..64 * cur + n] == lo + hi;
    OnesConcat(lo, hi);
  }
}
