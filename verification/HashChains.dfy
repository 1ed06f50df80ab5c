/** Which elements are in which bucket: the pure side of the hash table. */
module HashChains {
  import opened Lists
  import opened BitArith
  import opened HashLists

  type Chains = seq<seq<Handle>>

  /** The chain for a hash value among `n` buckets. */
  function Index(hashv: nat, n: nat): (b: nat)
    requires 0 < n
    ensures b < n
  {
    hashv % n
  }

  ghost predicate PowerOfTwo(n: nat) {
    exists k :: n == Pow2(k)
  }

  /** The mask of HASH_TO_BKT is the remainder for a power of two. */
  lemma MaskIsIndex(hashv: nat, k: nat)
    ensures And(hashv, Pow2(k) - 1) == Index(hashv, Pow2(k))
  {
    MaskAndShift(hashv, k);
  }

  // HASH_TO_BKT
  method ToBkt(hashv: nat, numBkts: nat) returns (bkt: nat)
    requires PowerOfTwo(numBkts)
    ensures 0 < numBkts && bkt == Index(hashv, numBkts)
  {
    ghost var k :| numBkts == Pow2(k);
    MaskIsIndex(hashv, k);
    bkt := And(hashv, numBkts - 1);
  }

  /** How far a chain exceeds a length. */
  function Excess(len: nat, ideal: nat): nat {
    if len > ideal then len - ideal else 0
  }

  function SumExcess(chains: Chains, ideal: nat): nat {
    if chains == [] then 0 else SumExcess(chains[..|chains| - 1], ideal) + Excess(|chains[|chains| - 1]|, ideal)
  }

  /** The number of elements in all chains. */
  function Total(chains: Chains): nat { SumExcess(chains, 0) }

  lemma {:induction false} SumUpdate(chains: Chains, b: nat, c: seq<Handle>, ideal: nat)
    requires b < |chains|
    ensures SumExcess(chains[b := c], ideal) + Excess(|chains[b]|, ideal) == SumExcess(chains, ideal) + Excess(|c|, ideal)
  {
    var n := |chains| - 1;
    if b == n {
      assert chains[b := c][..n] == chains[..n];
    } else {
      assert chains[b := c][..n] == chains[..n][b := c];
      SumUpdate(chains[..n], b, c, ideal);
    }
  }

  /** Allowing chains one element more takes one off the excess of every longer chain; with no element allowed all are in
      excess. */
  lemma {:induction false} ExcessStep(chains: Chains, n: nat)
    ensures SumExcess(chains, n) == SumExcess(chains, n + 1) + |set b | 0 <= b < |chains| && |chains[b]| > n|
  {
    if chains != [] {
      var init, last := chains[..|chains| - 1], |chains| - 1;
      ExcessStep(init, n);
      var all, some := set b | 0 <= b < |chains| && |chains[b]| > n, set b | 0 <= b < |init| && |init[b]| > n;
      assert all == some + (if |chains[last]| > n then {last} else {});
    }
  }

  lemma {:induction false} SumEmpty(chains: Chains, ideal: nat)
    requires forall b :: 0 <= b < |chains| ==> chains[b] == []
    ensures SumExcess(chains, ideal) == 0
  {
    if chains != [] {
      SumEmpty(chains[..|chains| - 1], ideal);
    }
  }

  /** Every element of `order` is in the chain of its index, once, and nothing else is in any chain. */
  ghost predicate Indexed(order: seq<Handle>, chains: Chains) {
    0 < |chains| && Total(chains) == |order|
    && (forall b :: 0 <= b < |chains| ==> InPlace(order, chains, b))
    && forall h :: h in order ==> h in chains[Index(h.hashv, |chains|)]
  }

  ghost predicate InPlace(order: seq<Handle>, chains: Chains, b: nat)
    requires b < |chains|
  {
    Distinct(chains[b]) && forall h :: h in chains[b] ==> h in order && Index(h.hashv, |chains|) == b
  }

  lemma IndexedAdd(order: seq<Handle>, chains: Chains, h: Handle)
    requires Indexed(order, chains) && h !in order
    ensures var b := Index(h.hashv, |chains|); h !in chains[b] && Indexed(order + [h], chains[b := [h] + chains[b]])
  {
    var b := Index(h.hashv, |chains|);
    assert InPlace(order, chains, b);
    var more := chains[b := [h] + chains[b]];
    SumUpdate(chains, b, [h] + chains[b], 0);
    PushedMembers(chains[b], h);
    forall c | 0 <= c < |more| ensures InPlace(order + [h], more, c) {
      assert InPlace(order, chains, c);
    }
  }

  lemma IndexedRemove(order: seq<Handle>, chains: Chains, p: nat, q: nat)
    requires Indexed(order, chains) && Distinct(order) && p < |order|
    requires var b := Index(order[p].hashv, |chains|); q < |chains[b]| && chains[b][q] == order[p]
    ensures var b := Index(order[p].hashv, |chains|); Indexed(Remove(order, p), chains[b := Remove(chains[b], q)])
  {
    var h := order[p];
    var b := Index(h.hashv, |chains|);
    assert InPlace(order, chains, b);
    RemovedMembers(order, p);
    RemovedMembers(chains[b], q);
    RemovedAt(order, p);
    RemovedAt(chains[b], q);
    SumUpdate(chains, b, Remove(chains[b], q), 0);
    var less := chains[b := Remove(chains[b], q)];
    forall c | 0 <= c < |less| ensures InPlace(Remove(order, p), less, c) {
      assert InPlace(order, chains, c);
    }
  }

  // ---------------------------------------------------------------------
  // Doubling

  /** One element pushed on the chain of its index. */
  function Pushed(new_: Chains, h: Handle): Chains
    requires 0 < |new_|
  {
    new_[Index(h.hashv, |new_|) := [h] + new_[Index(h.hashv, |new_|)]]
  }

  /** Redistribution under way: the old chains before `i`, and of chain `i` all but `rem`, are in the new
      chains, which are twice as many. */
  ghost predicate Spreading(order: seq<Handle>, chains: Chains, i: nat, rem: seq<Handle>, new_: Chains) {
    |new_| == 2 * |chains| && i <= |chains| && Distinct(rem)
    && (forall h :: h in rem ==> i < |chains| && h in chains[i])
    && (forall b :: 0 <= b < |new_| ==> InNew(order, chains, i, rem, new_, b))
    && (forall h :: h in order && Moved(order, chains, i, rem, h) ==> h in new_[Index(h.hashv, |new_|)])
  }

  ghost predicate InNew(order: seq<Handle>, chains: Chains, i: nat, rem: seq<Handle>, new_: Chains, b: nat)
    requires b < |new_|
  {
    Distinct(new_[b]) && forall h :: h in new_[b] ==> Moved(order, chains, i, rem, h) && Index(h.hashv, |new_|) == b
  }

  /** The element has been moved. */
  ghost predicate Moved(order: seq<Handle>, chains: Chains, i: nat, rem: seq<Handle>, h: Handle) {
    0 < |chains| && h in order && (Index(h.hashv, |chains|) < i || (Index(h.hashv, |chains|) == i && h !in rem))
  }

  lemma SpreadStart(order: seq<Handle>, chains: Chains, new_: Chains)
    requires Indexed(order, chains) && |new_| == 2 * |chains| && forall b :: 0 <= b < |new_| ==> new_[b] == []
    ensures Spreading(order, chains, 0, chains[0], new_) && SumExcess(new_, 0) == 0
  {
    SumEmpty(new_, 0);
    assert InPlace(order, chains, 0);
  }

  lemma SpreadNext(order: seq<Handle>, chains: Chains, i: nat, new_: Chains)
    requires Indexed(order, chains) && i < |chains| && Spreading(order, chains, i, [], new_)
    ensures Spreading(order, chains, i + 1, if i + 1 < |chains| then chains[i + 1] else [], new_)
  {
    var next, rem := i + 1, if i + 1 < |chains| then chains[i + 1] else [];
    if i + 1 < |chains| {
      assert InPlace(order, chains, i + 1);
    }
    forall h | h in order ensures Moved(order, chains, i, [], h) <==> Moved(order, chains, next, rem, h) {
    }
    forall b | 0 <= b < |new_| ensures InNew(order, chains, next, rem, new_, b) {
      assert InNew(order, chains, i, [], new_, b);
    }
  }

  lemma OneMore(order: seq<Handle>, chains: Chains, i: nat, rem: seq<Handle>, less: seq<Handle>, x: Handle)
    requires Indexed(order, chains) && i < |chains| && rem != [] && Distinct(rem) && less == rem[1..] && rem[0] in chains[i]
    ensures x in order ==> (Moved(order, chains, i, less, x) <==> Moved(order, chains, i, rem, x) || x == rem[0])
    ensures !Moved(order, chains, i, rem, rem[0]) && rem[0] in order
  {
    assert InPlace(order, chains, i);
    assert Remove(rem, 0) == less;
    RemovedMembers(rem, 0);
  }

  lemma SpreadMove(order: seq<Handle>, chains: Chains, i: nat, rem: seq<Handle>, new_: Chains)
    requires Indexed(order, chains) && Spreading(order, chains, i, rem, new_) && rem != []
    ensures var h := rem[0]; h !in new_[Index(h.hashv, |new_|)] && Spreading(order, chains, i, rem[1..], Pushed(new_, h))
    ensures SumExcess(Pushed(new_, rem[0]), 0) == SumExcess(new_, 0) + 1
  {
    var h, less := rem[0], rem[1..];
    var b, more := Index(h.hashv, |new_|), Pushed(new_, h);
    SumUpdate(new_, b, [h] + new_[b], 0);
    assert h in rem;
    forall x | x in order ensures Moved(order, chains, i, less, x) <==> Moved(order, chains, i, rem, x) || x == h {
      OneMore(order, chains, i, rem, less, x);
    }
    OneMore(order, chains, i, rem, less, h);
    assert Remove(rem, 0) == less;
    RemovedMembers(rem, 0);
    assert InNew(order, chains, i, rem, new_, b);
    PushedMembers(new_[b], h);
    forall c | 0 <= c < |more| ensures InNew(order, chains, i, less, more, c) {
      assert InNew(order, chains, i, rem, new_, c);
    }
  }

  lemma SpreadEnd(order: seq<Handle>, chains: Chains, new_: Chains)
    requires Indexed(order, chains) && Spreading(order, chains, |chains|, [], new_) && SumExcess(new_, 0) == Total(chains)
    ensures Indexed(order, new_)
  {
    forall h | h in order ensures Moved(order, chains, |chains|, [], h) {
    }
    forall b | 0 <= b < |new_| ensures InPlace(order, new_, b) {
      assert InNew(order, chains, |chains|, [], new_, b);
    }
  }
}
