/** The 64-bit map block (`map_block`, a uint64_t) as its 64 bits, bit 0 the most significant one,
    with the bitwise operators of C. */
module Block {

  const BLOCK_BIT: nat := 64

  type Block = s: seq<bool> | |s| == 64 witness seq(64, _ => false)

  function Constant(v: bool): Block {
    seq(64, _ => v)
  }

  const ZERO: Block := Constant(false)
  const ONES: Block := Constant(true)

  function And(x: Block, y: Block): Block {
    seq(64, i requires 0 <= i < 64 => x[i] && y[i])
  }

  function Or(x: Block, y: Block): Block {
    seq(64, i requires 0 <= i < 64 => x[i] || y[i])
  }

  function Xor(x: Block, y: Block): Block {
    seq(64, i requires 0 <= i < 64 => x[i] != y[i])
  }

  function Not(x: Block): Block {
    seq(64, i requires 0 <= i < 64 => !x[i])
  }

  /** `x << k`: bits move towards place 0. */
  function Shl(x: Block, k: nat): Block {
    seq(64, i requires 0 <= i < 64 => i + k < 64 && x[i + k])
  }

  /** `x >> k`: bits move away from place 0. */
  function Shr(x: Block, k: nat): Block {
    seq(64, i requires 0 <= i < 64 => k <= i && x[i - k])
  }

  /** `1 << (63 - i)`. */
  function OneBit(i: nat): Block {
    seq(64, j => j == i)
  }

  /** The mask built by `for (count = 0; count < n; count++) mask |= 1 << (63 - count)`. */
  method HighMask(n: nat) returns (mask: Block)
    requires n <= BLOCK_BIT
    ensures forall j :: 0 <= j < 64 ==> mask[j] == (j < n)
  {
    mask := ZERO;
    for count := 0 to n
      invariant forall j :: 0 <= j < 64 ==> mask[j] == (j < count)
    {
      mask := Or(mask, OneBit(count));
    }
  }

  /** The mask built by `for (count = 0; count < n; count++) mask |= 1 << count`. */
  method LowMask(n: nat) returns (mask: Block)
    requires n <= BLOCK_BIT
    ensures forall j :: 0 <= j < 64 ==> mask[j] == (64 - n <= j)
  {
    mask := ZERO;
    for count := 0 to n
      invariant forall j :: 0 <= j < 64 ==> mask[j] == (64 - count <= j)
    {
      mask := Or(mask, OneBit(63 - count));
    }
  }

  /** "Clean off the edge": the places from `n` on are set to `fill`. */
  method SetEdge(x: Block, n: nat, fill: bool) returns (w: Block)
    requires n <= BLOCK_BIT
    ensures forall j :: 0 <= j < 64 ==> w[j] == if j < n then x[j] else fill
  {
    var mask := HighMask(n);
    w := if fill then Or(x, Not(mask)) else And(x, mask);
  }

  lemma ZeroBlock(x: Block)
    ensures x == ZERO <==> forall j :: 0 <= j < 64 ==> !x[j]
  {
  }

  /** `x & (1 << (63 - i))` is nonzero exactly when bit `i` is set. */
  lemma TestBit(x: Block, i: nat)
    requires i < 64
    ensures And(x, OneBit(i)) != ZERO <==> x[i]
    ensures OneBit(i) != ZERO
  {
    assert x[i] ==> And(x, OneBit(i))[i];
    assert OneBit(i)[i];
    assert !x[i] ==> forall j :: 0 <= j < 64 ==> !And(x, OneBit(i))[j];
  }

  /** `(x & ~mask) | buf` writes one bit. */
  lemma WriteBit(x: Block, i: nat, v: bool)
    requires i < 64
    ensures var w := Or(And(x, Not(OneBit(i))), if v then OneBit(i) else ZERO);
            forall j :: 0 <= j < 64 ==> w[j] == if j == i then v else x[j]
  {
    var m, buf := Not(OneBit(i)), if v then OneBit(i) else ZERO;
    var w := Or(And(x, m), buf);
    forall j | 0 <= j < 64 ensures w[j] == if j == i then v else x[j] {
      assert w[j] == ((x[j] && m[j]) || buf[j]);
    }
  }

  lemma FullBlock(x: Block)
    ensures x == ONES <==> forall j :: 0 <= j < 64 ==> x[j]
  {
  }
}
