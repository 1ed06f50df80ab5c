/** Numbers as bytes: big endian in the file, in host order in memory. */
module Numbers {
  import opened Arith
  import opened BufferedFile

  function Pow256(k: nat): (p: nat)
    ensures p > 0
  {
    if k == 0 then 1 else 256 * Pow256(k - 1)
  }

  /** The low `k` bytes of `n`, big endian. */
  function BigEndian(n: nat, k: nat): (r: seq<Byte>)
    ensures |r| == k
  {
    if k == 0 then [] else BigEndian(n / 256, k - 1) + [n % 256]
  }

  function Number(s: seq<Byte>): (n: nat)
  {
    if s == [] then 0 else 256 * Number(s[..|s| - 1]) + s[|s| - 1]
  }

  lemma {:induction false} NumberOfBigEndian(n: nat, k: nat)
    requires n < Pow256(k)
    ensures Number(BigEndian(n, k)) == n
  {
    if k > 0 {
      NumberOfBigEndian(n / 256, k - 1);
      assert BigEndian(n, k)[..k - 1] == BigEndian(n / 256, k - 1);
    }
  }

  /** The most significant byte comes first. */
  lemma {:induction false} BigEndianAt(n: nat, k: nat, i: nat)
    requires i < k
    ensures BigEndian(n, k)[i] == n / Pow256(k - 1 - i) % 256
  {
    if i < k - 1 {
      BigEndianAt(n / 256, k - 1, i);
      DivTwice(n, Pow256(k - 2 - i));
    }
  }

  lemma DivTwice(n: nat, p: nat)
    requires 0 < p
    ensures n / 256 / p == n / (256 * p)
  {
    var q, r := n / 256, n % 256;
    var a, b := q / p, q % p;
    assert n == a * (256 * p) + (256 * b + r) by {
      assert q == a * p + b;
      assert a * (256 * p) == 256 * (a * p);
    }
    DivMod(a, 256 * p, 256 * b + r);
  }

  /** How the host keeps `n` in `k` bytes of memory. */
  function HostBytes(n: nat, k: nat, little: bool): (r: seq<Byte>)
    ensures |r| == k
  {
    if little then Reversed(BigEndian(n, k)) else BigEndian(n, k)
  }

  function HostNumber(s: seq<Byte>, little: bool): nat {
    Number(if little then Reversed(s) else s)
  }

  /** A little endian host puts the least significant byte first, a big endian one the most significant. */
  lemma HostBytesAt(n: nat, k: nat, little: bool, i: nat)
    requires i < k
    ensures HostBytes(n, k, little)[i] == n / Pow256(if little then i else k - 1 - i) % 256
  {
    BigEndianAt(n, k, if little then k - 1 - i else i);
  }

  /** Whatever the host, the file gets the number big endian. */
  lemma FileBytes(n: nat, k: nat, little: bool)
    ensures Converted(HostBytes(n, k, little), false, little) == BigEndian(n, k)
  {
    ReversedTwice(BigEndian(n, k));
  }

  lemma HostReads(s: seq<Byte>, little: bool)
    ensures HostNumber(Converted(s, false, little), little) == Number(s)
  {
    ReversedTwice(s);
  }

  /** Two's complement in `k` bytes. */
  function Unsigned(v: int, k: nat): int {
    if v < 0 then v + Pow256(k) else v
  }

  function Signed(n: nat, k: nat): int {
    if 2 * n >= Pow256(k) then n - Pow256(k) else n
  }

  predicate InSigned(v: int, k: nat) {
    0 <= 2 * v + Pow256(k) && 2 * v < Pow256(k)
  }

  lemma SignedRoundTrip(v: int, k: nat)
    requires InSigned(v, k)
    ensures 0 <= Unsigned(v, k) < Pow256(k) && Signed(Unsigned(v, k), k) == v
  {
  }

  lemma UnsignedIsRemainder(v: int, k: nat)
    requires InSigned(v, k)
    ensures Unsigned(v, k) == v % Pow256(k)
  {
    Remainder(v, if v < 0 then -1 else 0, Pow256(k), Unsigned(v, k));
  }

  lemma Remainder(v: int, q: int, p: int, r: int)
    requires 0 <= r < p && v == q * p + r
    ensures v % p == r
  {
    var a, b := v / p, v % p;
    assert (q - a) * p == b - r;
    assert q - a >= 1 ==> (q - a) * p >= p;
    assert q - a <= -1 ==> (q - a) * p <= -p;
  }

  function HexDigit(d: int): char
    requires 0 <= d < 16
  {
    if d < 10 then '0' + d as char else 'a' + (d - 10) as char
  }

  // bytes_to_hex_str
  method BytesToHexStr(b: seq<Byte>) returns (s: string)
    ensures s == HexString(b)
  {
    s := "";
    for i := 0 to |b|
      invariant s == HexString(b[..i])
    {
      s := s + [HexDigit(b[i] / 16), HexDigit(b[i] % 16)];
      assert b[..i + 1][..i] == b[..i];
    }
    assert b[..|b|] == b;
  }

  function HexString(b: seq<Byte>): (s: string)
    ensures |s| == 2 * |b|
  {
    if b == [] then "" else HexString(b[..|b| - 1]) + [HexDigit(b[|b| - 1] / 16), HexDigit(b[|b| - 1] % 16)]
  }

  /** The value of a hexadecimal digit. */
  function DigitValue(c: char): int {
    if '0' <= c <= '9' then c as int - '0' as int else if 'a' <= c <= 'f' then c as int - 'a' as int + 10 else -1
  }

  /** Each byte gives its two digits, the high one first. */
  lemma {:induction false} HexDigits(b: seq<Byte>, i: nat)
    requires i < |b|
    ensures 0 <= DigitValue(HexString(b)[2 * i]) < 16 && 0 <= DigitValue(HexString(b)[2 * i + 1]) < 16
    ensures 16 * DigitValue(HexString(b)[2 * i]) + DigitValue(HexString(b)[2 * i + 1]) == b[i]
  {
    var init := b[..|b| - 1];
    if i < |init| {
      HexDigits(init, i);
      assert HexString(b)[2 * i] == HexString(init)[2 * i] && HexString(b)[2 * i + 1] == HexString(init)[2 * i + 1];
    } else {
      assert HexString(b)[2 * i] == HexDigit(b[i] / 16) && HexString(b)[2 * i + 1] == HexDigit(b[i] % 16);
    }
  }

  /** The text of an id determines the id, so a table keyed by either finds the same entry. */
  lemma HexInjective(b: seq<Byte>, c: seq<Byte>)
    requires |b| == |c| && HexString(b) == HexString(c)
    ensures b == c
  {
    hide HexString, DigitValue;
    forall i | 0 <= i < |b| ensures b[i] == c[i] {
      HexDigits(b, i);
      HexDigits(c, i);
    }
  }
}
