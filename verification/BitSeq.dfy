/** Bit sequences: what a bitmap denotes. Reading past the end gives 0. */
module BitSeq {

  /** Zero-extended read. */
  predicate At(s: seq<bool>, i: int) {
    0 <= i < |s| && s[i]
  }

  /** Number of set bits. */
  function Ones(s: seq<bool>): (n: nat)
    ensures n <= |s|
  {
    if s == [] then 0 else Ones(s[..|s| - 1]) + (if s[|s| - 1] then 1 else 0)
  }

  /** `s` brought to length `n` with `fill`: a grow or a shrink. */
  function Resize(s: seq<bool>, n: nat, fill: bool): (r: seq<bool>)
    ensures |r| == n
  {
    seq(n, i requires 0 <= i < n => if i < |s| then s[i] else fill)
  }

  /** The old bits as far as they go, then the filling. */
  lemma ResizeAt(s: seq<bool>, n: nat, fill: bool, i: nat)
    requires i < n
    ensures Resize(s, n, fill)[i] == if i < |s| then s[i] else fill
  {
  }

  /** A shrink to the old length undoes a grow. */
  lemma ShrinkUndoesGrow(s: seq<bool>, n: nat, fill: bool)
    requires |s| <= n
    ensures Resize(s, n, fill)[..|s|] == s
  {
  }

  function Complement(s: seq<bool>): (r: seq<bool>)
    ensures |r| == |s|
  {
    seq(|s|, i requires 0 <= i < |s| => !s[i])
  }

  lemma {:induction false} OnesConcat(s: seq<bool>, t: seq<bool>)
    ensures Ones(s + t) == Ones(s) + Ones(t)
  {
    if t == [] {
      assert s + t == s;
    } else {
      var u := t[..|t| - 1];
      assert (s + t)[..|s + t| - 1] == s + u;
      OnesConcat(s, u);
    }
  }

  lemma OnesStep(s: seq<bool>, k: nat)
    requires k < |s|
    ensures Ones(s[..k + 1]) == Ones(s[..k]) + (if s[k] then 1 else 0)
  {
    assert s[..k + 1][..k] == s[..k];
  }

  lemma {:induction false} OnesUpdate(s: seq<bool>, k: nat, v: bool)
    requires k < |s|
    ensures Ones(s[k := v]) == Ones(s) - (if s[k] then 1 else 0) + (if v then 1 else 0)
  {
    var t := s[k := v];
    OnesConcat(s[..k + 1], s[k + 1..]);
    OnesConcat(t[..k + 1], t[k + 1..]);
    assert s == s[..k + 1] + s[k + 1..] && t == t[..k + 1] + t[k + 1..];
    assert t[k + 1..] == s[k + 1..] && t[..k] == s[..k];
    OnesStep(s, k);
    OnesStep(t, k);
  }

  lemma {:induction false} OnesComplement(s: seq<bool>)
    ensures Ones(Complement(s)) == |s| - Ones(s)
  {
    if s != [] {
      OnesComplement(s[..|s| - 1]);
      assert Complement(s)[..|s| - 1] == Complement(s[..|s| - 1]);
    }
  }

  lemma {:induction false} OnesConstant(s: seq<bool>, v: bool)
    requires forall i :: 0 <= i < |s| ==> s[i] == v
    ensures Ones(s) == if v then |s| else 0
  {
    if s != [] {
      OnesConstant(s[..|s| - 1], v);
    }
  }

  /** Some bit is set at or after `k` exactly when the count past `k` is positive. */
  lemma {:induction false} OnesPositive(s: seq<bool>, k: nat)
    requires k <= |s|
    ensures Ones(s) == Ones(s[..k]) + Ones(s[k..])
    ensures Ones(s[k..]) > 0 <==> exists i :: k <= i < |s| && s[i]
    decreases |s| - k
  {
    assert s == s[..k] + s[k..];
    OnesConcat(s[..k], s[k..]);
    if k < |s| {
      OnesPositive(s, k + 1);
      OnesStep(s, k);
    } else {
      assert s[k..] == [];
    }
  }

  // ---------------------------------------------------------------------
  // Searching

  /** `r` is the first place at or after `skip` that holds `v`. */
  ghost predicate IsFirst(s: seq<bool>, v: bool, skip: int, r: int) {
    0 <= skip <= r < |s| && s[r] == v && forall i :: skip <= i < r ==> s[i] != v
  }

  /** `r` is the last place at or before `skip` that holds `v`. */
  ghost predicate IsLast(s: seq<bool>, v: bool, skip: int, r: int) {
    0 <= r <= skip < |s| && s[r] == v && forall i :: r < i <= skip ==> s[i] != v
  }

  /** The places of the set bits, in order. */
  function Indices(s: seq<bool>): (r: seq<nat>)
    ensures |r| == Ones(s)
  {
    if s == [] then []
    else Indices(s[..|s| - 1]) + (if s[|s| - 1] then [|s| - 1] else [])
  }

  /** `Indices` is exactly the set bits in ascending order: bit `i` is entry number `Ones(s[..i])`. */
  lemma {:induction false} IndexOfBit(s: seq<bool>, i: nat)
    requires i < |s| && s[i]
    ensures Ones(s[..i]) < Ones(s) && Indices(s)[Ones(s[..i])] == i
  {
    var t := s[..|s| - 1];
    if i < |t| {
      IndexOfBit(t, i);
      assert t[..i] == s[..i];
    }
  }

  lemma {:induction false} IndicesAreSet(s: seq<bool>, k: nat)
    requires k < Ones(s)
    ensures Indices(s)[k] < |s| && s[Indices(s)[k]] && Ones(s[..Indices(s)[k]]) == k
  {
    var t := s[..|s| - 1];
    if k < Ones(t) {
      IndicesAreSet(t, k);
      assert t[..Indices(t)[k]] == s[..Indices(s)[k]];
    }
  }

  lemma {:induction false} NoOnesBetween(s: seq<bool>, i: nat, j: nat)
    requires i <= j <= |s|
    requires forall k :: i <= k < j ==> !s[k]
    ensures Ones(s[..i]) == Ones(s[..j])
  {
    assert s[..j] == s[..i] + s[i..j];
    OnesConcat(s[..i], s[i..j]);
    OnesConstant(s[i..j], false);
  }

  /** One step of the enumeration loop `skip = found + 1`: the `k`-th search finds the `k`-th set bit. */
  lemma NextIndex(s: seq<bool>, k: nat, skip: nat, r: nat)
    requires skip <= |s| && Ones(s[..skip]) == k && IsFirst(s, true, skip, r)
    ensures k < Ones(s) && Indices(s)[k] == r && Ones(s[..r + 1]) == k + 1
  {
    NoOnesBetween(s, skip, r);
    IndexOfBit(s, r);
    OnesStep(s, r);
  }

  /** While fewer than `Ones(s)` set bits have been passed, another one follows. */
  lemma MoreOnes(s: seq<bool>, k: nat, skip: nat)
    requires skip <= |s| && Ones(s[..skip]) == k < Ones(s)
    ensures skip < |s| && exists i :: skip <= i < |s| && s[i]
  {
    OnesPositive(s, skip);
  }
}
