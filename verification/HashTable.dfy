/** The hash table of `uthash.h`: chained buckets that double, and a list in the order of addition. */
module HashTable {
  import opened Lists
  import opened BitArith
  import opened HashLists
  import opened HashChains

  const HASH_INITIAL_NUM_BUCKETS: nat := 32
  const HASH_INITIAL_NUM_BUCKETS_LOG2: nat := 5
  const HASH_BKT_CAPACITY_THRESH: nat := 10

  /** UT_hash_bucket */
  datatype Bucket = Bucket(head: Handle?, count: nat, mult: nat)

  ghost function Members(chains: Chains): (m: set<Handle>)
    ensures forall b, h :: 0 <= b < |chains| && h in chains[b] ==> h in m
  {
    set b, h | 0 <= b < |chains| && h in chains[b] :: h
  }

  ghost predicate HungAt(bucket: Bucket, chain: seq<Handle>)
    reads chain`hhPrev, chain`hhNext
  {
    Hangs(bucket.head, chain) && bucket.count == |chain|
  }

  lemma CountIs(bucket: Bucket, chain: seq<Handle>)
    requires HungAt(bucket, chain)
    ensures bucket.count == |chain|
  {
  }

  /** Every bucket holds its chain. */
  ghost predicate Hung(buckets: seq<Bucket>, chains: Chains)
    reads Members(chains)`hhPrev, Members(chains)`hhNext
  {
    |buckets| == |chains| && forall b :: 0 <= b < |chains| ==> HungAt(buckets[b], chains[b])
  }

  /** Nothing is in two chains. */
  ghost predicate Apart(chains: Chains) {
    forall b, c, h :: 0 <= b < |chains| && 0 <= c < |chains| && b != c && h in chains[b] ==> h !in chains[c]
  }

  lemma IndexedApart(order: seq<Handle>, chains: Chains)
    requires Indexed(order, chains)
    ensures Apart(chains)
  {
    forall b, c, h | 0 <= b < |chains| && 0 <= c < |chains| && b != c && h in chains[b] ensures h !in chains[c] {
      assert InPlace(order, chains, b) && InPlace(order, chains, c);
    }
  }

  lemma SpreadingApart(order: seq<Handle>, chains: Chains, i: nat, rem: seq<Handle>, new_: Chains)
    requires Spreading(order, chains, i, rem, new_)
    ensures Apart(new_)
  {
    forall b, c, h | 0 <= b < |new_| && 0 <= c < |new_| && b != c && h in new_[b] ensures h !in new_[c] {
      assert InNew(order, chains, i, rem, new_, b) && InNew(order, chains, i, rem, new_, c);
    }
  }

  // HASH_ADD_TO_BKT, up to the decision to expand
  method AddToBkt(buckets: array<Bucket>, b: nat, h: Handle, ghost chains: Chains)
    requires b < buckets.Length && Hung(buckets[..], chains) && Apart(chains) && h !in Members(chains)
    modifies buckets, h`hhPrev, h`hhNext, chains[b]`hhPrev
    ensures Hung(buckets[..], chains[b := [h] + chains[b]])
    ensures buckets[..] == old(buckets[..])[b := Bucket(h, |chains[b]| + 1, old(buckets[b].mult))]
  {
    ghost var chain := chains[b];
    assert HungAt(buckets[b], chain);
    var head := PushFront(buckets[b].head, h, chain);
    buckets[b] := Bucket(head, buckets[b].count + 1, buckets[b].mult);
    forall c | 0 <= c < |chains| && c != b ensures HungAt(buckets[c], chains[c]) {
      assert old(HungAt(buckets[c], chains[c]));
      forall k {:trigger Place(k)} | Place(k) && 0 <= k < |chains[c]|
        ensures chains[c][k].hhPrev == Before(chains[c], k) && chains[c][k].hhNext == After(chains[c], k)
      {
        assert chains[c][k] in chains[c];
      }
    }
  }

  // HASH_DEL_IN_BKT
  method DelInBkt(buckets: array<Bucket>, b: nat, h: Handle, ghost chains: Chains, ghost p: nat)
    requires b < buckets.Length && Hung(buckets[..], chains) && Apart(chains)
    requires p < |chains[b]| && chains[b][p] == h && Distinct(chains[b])
    modifies buckets, chains[b]`hhPrev, chains[b]`hhNext
    ensures Hung(buckets[..], chains[b := Remove(chains[b], p)])
    ensures forall c :: 0 <= c < buckets.Length ==>
      buckets[c].mult == old(buckets[c].mult) && buckets[c].count == old(buckets[c].count) - (if c == b then 1 else 0)
  {
    ghost var chain := chains[b];
    assert HungAt(buckets[b], chain);
    RemovedAt(chain, p);
    var head := Unhook(buckets[b].head, h, chain, p);
    buckets[b] := Bucket(head, buckets[b].count - 1, buckets[b].mult);
    forall c | 0 <= c < |chains| && c != b ensures HungAt(buckets[c], chains[c]) {
      assert old(HungAt(buckets[c], chains[c]));
      forall k {:trigger Place(k)} | Place(k) && 0 <= k < |chains[c]|
        ensures chains[c][k].hhPrev == Before(chains[c], k) && chains[c][k].hhNext == After(chains[c], k)
      {
        assert chains[c][k] in chains[c];
      }
    }
  }

  // ---------------------------------------------------------------------
  // HASH_EXPAND_BUCKETS

  /** The rest of an old chain, by its forward links. */
  ghost predicate Follows(thh: Handle?, rem: seq<Handle>)
    reads rem`hhNext
  {
    thh == First(rem) && forall k {:trigger Place(k)} :: Place(k) && 0 <= k < |rem| ==> rem[k].hhNext == After(rem, k)
  }

  /** The old chains after the `i`-th are as they were. */
  ghost predicate Waiting(old_: seq<Bucket>, chains: Chains, i: int)
    reads Members(chains)`hhPrev, Members(chains)`hhNext
  {
    |old_| == |chains| && forall c :: 0 <= c < |chains| && i < c ==> HungAt(old_[c], chains[c])
  }

  /** The multiplier of a bucket that was filled by a doubling. */
  function MultFor(len: nat, ideal: nat): nat
    requires 0 < ideal
  {
    if len > ideal then len / ideal else 0
  }

  lemma MultForBounds(len: nat, ideal: nat)
    requires 0 < ideal
    ensures RoomAfter(len, ideal, MultFor(len, ideal), (MultFor(len, ideal) + 1) * HASH_BKT_CAPACITY_THRESH - 1 - len)
  {
    if len > ideal {
      var q, r := Split(len, ideal);
      assert (q + 1) * ideal == q * ideal + ideal;
    }
  }

  /** What a bucket that holds `count` elements after a doubling has room for: no more than the threshold, unless it is
      longer than ideal; then the limit is the threshold for every ideal length it holds, and once more. */
  predicate RoomAfter(count: nat, ideal: nat, mult: nat, room: int) {
    if count <= ideal then mult == 0 && room == 9 - count
    else mult * ideal <= count < (mult + 1) * ideal && room + count + 1 == 10 * (mult + 1)
  }

  /** Ten elements of one hash value, in a table that has come to the ideal length 1: ninety-nine more go in. */
  lemma TenOfOneValue(mult: nat, room: int)
    ensures RoomAfter(10, 1, mult, room) <==> mult == 10 && room == 99
  {
  }

  ghost predicate MultsOk(buckets: seq<Bucket>, chains: Chains, ideal: nat)
    requires |buckets| == |chains| && 0 < ideal
  {
    forall b :: 0 <= b < |buckets| ==> buckets[b].mult == MultFor(|chains[b]|, ideal)
  }

  // Pushing an element on its new bucket, and keeping account of chains longer than ideal
  method PushCounted(thh: Handle, buckets: array<Bucket>, ideal: nat, nonideal: nat, ghost new_: Chains) returns (newNonideal: nat)
    requires 0 < ideal && 0 < |new_| && Hung(buckets[..], new_) && Apart(new_) && thh !in Members(new_)
    requires MultsOk(buckets[..], new_, ideal) && nonideal == SumExcess(new_, ideal) && PowerOfTwo(|new_|)
    modifies buckets, thh`hhPrev, thh`hhNext, Members(new_)`hhPrev
    ensures Hung(buckets[..], Pushed(new_, thh)) && MultsOk(buckets[..], Pushed(new_, thh), ideal)
    ensures newNonideal == SumExcess(Pushed(new_, thh), ideal)
  {
    hide SumExcess, PowerOfTwo;
    var b := ToBkt(thh.hashv, buckets.Length);
    SumUpdate(new_, b, [thh] + new_[b], ideal);
    AddToBkt(buckets, b, thh, new_);
    newNonideal := nonideal;
    if buckets[b].count > ideal {
      newNonideal := newNonideal + 1;
      buckets[b] := buckets[b].(mult := buckets[b].count / ideal);
    }
  }

  // One element to its new bucket; what has not been moved stays linked.
  method MoveOne(thh: Handle, buckets: array<Bucket>, ideal: nat, nonideal: nat, ghost chains: Chains, ghost i: nat,
                 ghost rem: seq<Handle>, ghost new_: Chains, ghost old_: seq<Bucket>)
    returns (next: Handle?, newNonideal: nat)
    requires rem != [] && thh == rem[0] && Apart(new_) && Unmoved(chains, i, rem, new_) && 0 < ideal && 0 < |new_|
    requires Hung(buckets[..], new_) && Follows(thh, rem) && Waiting(old_, chains, i) && MultsOk(buckets[..], new_, ideal)
    requires nonideal == SumExcess(new_, ideal) && PowerOfTwo(|new_|)
    modifies buckets, thh`hhPrev, thh`hhNext, Members(new_)`hhPrev
    ensures Hung(buckets[..], Pushed(new_, thh)) && Follows(next, rem[1..]) && Waiting(old_, chains, i)
    ensures MultsOk(buckets[..], Pushed(new_, thh), ideal) && newNonideal == SumExcess(Pushed(new_, thh), ideal)
  {
    hide SumExcess, Hung, MultsOk, Apart, Pushed, PowerOfTwo;
    assert Place(0);
    next := thh.hhNext;
    assert thh in rem;
    newNonideal := PushCounted(thh, buckets, ideal, nonideal, new_);
    forall k {:trigger Place(k)} | Place(k) && 0 <= k < |rem[1..]| ensures rem[1..][k].hhNext == After(rem[1..], k) {
      assert Place(k + 1) && rem[k + 1] in rem;
    }
    forall c | i < c < |chains| ensures HungAt(old_[c], chains[c]) {
      assert old(HungAt(old_[c], chains[c]));
      forall k {:trigger Place(k)} | Place(k) && 0 <= k < |chains[c]|
        ensures chains[c][k].hhPrev == Before(chains[c], k) && chains[c][k].hhNext == After(chains[c], k)
      {
        assert chains[c][k] in chains[c];
      }
    }
  }

  /** What is still to be moved is not among what has been moved. */
  ghost predicate Unmoved(chains: Chains, i: nat, rem: seq<Handle>, new_: Chains) {
    (forall h :: h in rem ==> h !in Members(new_))
    && (forall k :: 0 < k < |rem| ==> rem[k] != rem[0])
    && forall c, h :: i < c < |chains| && h in chains[c] ==> h !in Members(new_) && h != First(rem)
  }

  lemma MovedApart(order: seq<Handle>, chains: Chains, i: nat, rem: seq<Handle>, new_: Chains)
    requires Indexed(order, chains) && Spreading(order, chains, i, rem, new_) && rem != []
    ensures Unmoved(chains, i, rem, new_) && Apart(new_)
  {
    SpreadingApart(order, chains, i, rem, new_);
    assert rem[0] in rem && InPlace(order, chains, i);
    forall h | h in Members(new_) ensures Moved(order, chains, i, rem, h) {
      var b :| 0 <= b < |new_| && h in new_[b];
      assert InNew(order, chains, i, rem, new_, b);
    }
    forall k | 0 < k < |rem| ensures rem[k] != rem[0] {
      assert Place(0) && Place(k);
    }
    forall c, h | i < c < |chains| && h in chains[c] ensures h !in Members(new_) && h != First(rem) {
      LaterApart(order, chains, i, rem, new_, c, h);
    }
  }

  lemma LaterApart(order: seq<Handle>, chains: Chains, i: nat, rem: seq<Handle>, new_: Chains, c: nat, h: Handle)
    requires Indexed(order, chains) && Spreading(order, chains, i, rem, new_) && rem != [] && i < c < |chains| && h in chains[c]
    ensures h !in Members(new_) && h != rem[0]
  {
    assert InPlace(order, chains, c) && rem[0] in rem && InPlace(order, chains, i);
    forall b | 0 <= b < |new_| ensures h !in new_[b] {
      assert InNew(order, chains, i, rem, new_, b);
    }
  }

  lemma NewInOrder(order: seq<Handle>, chains: Chains, i: nat, rem: seq<Handle>, new_: Chains)
    requires Spreading(order, chains, i, rem, new_)
    ensures forall h :: h in Members(new_) ==> h in order
  {
    forall h | h in Members(new_) ensures h in order {
      var b :| 0 <= b < |new_| && h in new_[b];
      assert InNew(order, chains, i, rem, new_, b);
    }
  }

  /** The new buckets are in order, with their account. */
  ghost predicate Filled(buckets: seq<Bucket>, new_: Chains, ideal: nat, nonideal: nat)
    requires 0 < ideal
    reads Members(new_)`hhPrev, Members(new_)`hhNext
  {
    0 < |new_| && PowerOfTwo(|new_|) && Hung(buckets, new_) && MultsOk(buckets, new_, ideal) && nonideal == SumExcess(new_, ideal)
  }

  // The loop over one old chain
  method MoveChain(first: Handle?, buckets: array<Bucket>, ideal: nat, nonideal: nat, ghost order: seq<Handle>, ghost chains: Chains, ghost i: nat,
                   ghost new_: Chains, ghost old_: seq<Bucket>)
    returns (newNonideal: nat, ghost more: Chains)
    requires Indexed(order, chains) && i < |chains| && Spreading(order, chains, i, chains[i], new_) && 0 < ideal
    requires Filled(buckets[..], new_, ideal, nonideal) && Hangs(first, chains[i]) && Waiting(old_, chains, i)
    modifies buckets, order`hhPrev, order`hhNext
    ensures Spreading(order, chains, i, [], more) && SumExcess(more, 0) == SumExcess(new_, 0) + |chains[i]|
    ensures Filled(buckets[..], more, ideal, newNonideal) && Waiting(old_, chains, i)
  {
    hide SumExcess, Indexed, Spreading, Hung, MultsOk, Pushed, PowerOfTwo;
    var thh := first;
    newNonideal, more := nonideal, new_;
    ghost var rem := chains[i];
    while thh != null
      invariant Spreading(order, chains, i, rem, more) && SumExcess(more, 0) + |rem| == SumExcess(new_, 0) + |chains[i]|
      invariant Filled(buckets[..], more, ideal, newNonideal) && Follows(thh, rem) && Waiting(old_, chains, i)
      decreases |rem|
    {
      MovedApart(order, chains, i, rem, more);
      SpreadMove(order, chains, i, rem, more);
      NewInOrder(order, chains, i, rem, more);
      RemInOrder(order, chains, i, rem, more);
      thh, newNonideal := MoveOne(thh, buckets, ideal, newNonideal, chains, i, rem, more, old_);
      more, rem := Pushed(more, rem[0]), rem[1..];
    }
  }

  lemma RemInOrder(order: seq<Handle>, chains: Chains, i: nat, rem: seq<Handle>, new_: Chains)
    requires Indexed(order, chains) && Spreading(order, chains, i, rem, new_) && rem != []
    ensures rem[0] in order && |Pushed(new_, rem[0])| == |new_|
  {
    assert rem[0] in rem && InPlace(order, chains, i);
  }

  function Empty(n: nat): (r: Chains)
    ensures |r| == n
  {
    seq(n, _ => [])
  }

  lemma EmptyFilled(buckets: seq<Bucket>, n: nat, ideal: nat)
    requires 0 < ideal && PowerOfTwo(n) && 0 < n == |buckets| && forall b :: 0 <= b < n ==> buckets[b] == Bucket(null, 0, 0)
    ensures Filled(buckets, Empty(n), ideal, 0)
  {
    SumEmpty(Empty(n), ideal);
    forall b | 0 <= b < n ensures HungAt(buckets[b], Empty(n)[b]) {
    }
  }

  lemma SumNext(chains: Chains, i: nat)
    requires i < |chains|
    ensures SumExcess(chains[..i + 1], 0) == SumExcess(chains[..i], 0) + |chains[i]|
  {
    assert chains[..i + 1][..i] == chains[..i];
  }

  lemma HungWaiting(buckets: seq<Bucket>, chains: Chains)
    requires Hung(buckets, chains)
    ensures Waiting(buckets, chains, -1)
  {
  }

  lemma WaitingAt(old_: seq<Bucket>, chains: Chains, i: nat)
    requires Waiting(old_, chains, i as int - 1) && i < |chains|
    ensures Hangs(old_[i].head, chains[i]) && Waiting(old_, chains, i)
  {
    assert HungAt(old_[i], chains[i]);
  }

  // The loop over the old buckets
  method MoveAll(oldBuckets: array<Bucket>, buckets: array<Bucket>, ideal: nat, ghost order: seq<Handle>, ghost chains: Chains)
    returns (nonideal: nat, ghost more: Chains)
    requires Indexed(order, chains) && Hung(oldBuckets[..], chains) && 0 < ideal && oldBuckets != buckets && PowerOfTwo(buckets.Length)
    requires buckets.Length == 2 * oldBuckets.Length && forall b :: 0 <= b < buckets.Length ==> buckets[b] == Bucket(null, 0, 0)
    modifies buckets, order`hhPrev, order`hhNext
    ensures Indexed(order, more) && Filled(buckets[..], more, ideal, nonideal)
  {
    hide SumExcess, Indexed, Spreading, Filled, Hung, Waiting, PowerOfTwo;
    nonideal, more := 0, Empty(buckets.Length);
    ghost var old_ := oldBuckets[..];
    ghost var n := |chains|;
    HungLengths(old_, order, chains);
    SpreadStart(order, chains, more);
    EmptyFilled(buckets[..], buckets.Length, ideal);
    HungWaiting(old_, chains);
    NothingSummed(chains);
    for i := 0 to oldBuckets.Length
      invariant Spreading(order, chains, i, if i < n then chains[i] else [], more) && SumExcess(more, 0) == SumExcess(chains[..i], 0)
      invariant Filled(buckets[..], more, ideal, nonideal) && Waiting(old_, chains, i - 1) && oldBuckets[..] == old_
    {
      WaitingAt(old_, chains, i);
      SumNext(chains, i);
      nonideal, more := MoveChain(oldBuckets[i].head, buckets, ideal, nonideal, order, chains, i, more, old_);
      SpreadNext(order, chains, i, more);
    }
    assert chains[..n] == chains;
    SpreadEnd(order, chains, more);
  }

  // The new buckets
  method Rebuild(oldBuckets: array<Bucket>, ideal: nat, ghost order: seq<Handle>, ghost chains: Chains)
    returns (buckets: array<Bucket>, nonideal: nat, ghost more: Chains)
    requires Indexed(order, chains) && Hung(oldBuckets[..], chains) && 0 < ideal && PowerOfTwo(2 * oldBuckets.Length)
    modifies order`hhPrev, order`hhNext
    ensures fresh(buckets) && buckets.Length == 2 * oldBuckets.Length == |more| && Indexed(order, more) && Filled(buckets[..], more, ideal, nonideal)
  {
    ghost var old_ := oldBuckets[..];
    buckets := new Bucket[2 * oldBuckets.Length](_ => Bucket(null, 0, 0));
    nonideal, more := MoveAll(oldBuckets, buckets, ideal, order, chains);
  }

  lemma HungLengths(buckets: seq<Bucket>, order: seq<Handle>, chains: Chains)
    requires Hung(buckets, chains) && Indexed(order, chains)
    ensures |buckets| == |chains| > 0
  {
  }

  lemma NothingSummed(chains: Chains)
    ensures SumExcess(chains[..0], 0) == 0
  {
  }

  // ---------------------------------------------------------------------
  // The table

  /** Keys that occur once, and the hash values of the keys. */
  ghost predicate Keyed(order: seq<Handle>, hash: string -> nat) {
    (forall i, j {:trigger Place(i), Place(j)} :: Place(i) && Place(j) && 0 <= i < j < |order| ==> order[i].key != order[j].key)
    && forall h :: h in order ==> h.hashv == hash(h.key)
  }

  /** A head pointer with its UT_hash_table, which exists as long as there are elements. */
  class Table {
    const hash: string -> nat
    var head: Handle?
    var tail: Handle?
    var buckets: array<Bucket>
    var numBuckets: nat
    var log2: nat
    var numItems: nat
    var ideal: nat
    var nonideal: nat
    var ineff: nat
    var noexpand: bool

    /** The elements in the order they were added, and by bucket. */
    ghost var order: seq<Handle>
    ghost var chains: Chains

    ghost predicate Valid()
      reads this, buckets, order, Members(chains)
    {
      Keyed(order, hash) && Distinct(order)
      && if head == null then order == [] else Tabled()
    }

    /** How many more elements a bucket takes before the next one makes the table double. */
    ghost function Room(b: nat): int
      reads this`buckets, buckets
      requires b < buckets.Length
    {
      (buckets[b].mult + 1) * HASH_BKT_CAPACITY_THRESH - 1 - buckets[b].count
    }

    /** The table has just doubled: the ideal length, the elements beyond it, and what follows from them. */
    ghost predicate Doubled(was: nat, wasIneff: nat, wasNoexpand: bool)
      reads this, buckets
    {
      numBuckets == 2 * was == buckets.Length && 0 < ideal && (ideal - 1) * numBuckets < numItems <= ideal * numBuckets
      && (forall b :: 0 <= b < buckets.Length ==> RoomAfter(buckets[b].count, ideal, buckets[b].mult, Room(b)))
      && nonideal == SumExcess(chains, ideal)
      && ineff == (if nonideal > numItems / 2 then wasIneff + 1 else 0) && noexpand == (wasNoexpand || ineff > 1)
    }

    /** There is a table, and it is in order. */
    ghost predicate Tabled()
      reads this, buckets, order, Members(chains)
    {
      Threads(head, tail, order) && Indexed(order, chains) && Hung(buckets[..], chains) && Sized()
    }

    /** The counters. */
    ghost predicate Sized()
      reads this
    {
      numItems == |order| > 0 && numBuckets == buckets.Length == |chains| == Pow2(log2)
    }

    // "head = NULL"
    constructor (hash: string -> nat)
      ensures Valid() && order == [] && this.hash == hash
    {
      this.hash, order, chains := hash, [], [];
      head, tail, buckets := null, null, new Bucket[0];
      numBuckets, log2, numItems, ideal, nonideal, ineff, noexpand := 0, 0, 0, 0, 0, 0, false;
    }

    // HASH_FIND
    method Find(key: string) returns (out: Handle?)
      requires Valid()
      ensures out == null <==> forall h :: h in order ==> h.key != key
      ensures out != null ==> out in order && out.key == key
    {
      out := null;
      if head != null {
        assert PowerOfTwo(Pow2(log2));
        var b := ToBkt(hash(key), numBuckets);
        assert InPlace(order, chains, b) && HungAt(buckets[b], chains[b]);
        out := FindInBkt(buckets[b].head, key, chains[b]);
        forall h | h in order && h.key == key ensures out != null {
          assert h in chains[b];
        }
      }
    }

    lemma RoomMade()
      requires 0 < ideal && Hung(buckets[..], chains) && MultsOk(buckets[..], chains, ideal)
      ensures forall b :: 0 <= b < buckets.Length ==> RoomAfter(buckets[b].count, ideal, buckets[b].mult, Room(b))
    {
      hide RoomAfter;
      forall b | 0 <= b < buckets.Length ensures RoomAfter(buckets[b].count, ideal, buckets[b].mult, Room(b)) {
        assert buckets[..][b] == buckets[b] && HungAt(buckets[b], chains[b]);
        MultForBounds(|chains[b]|, ideal);
      }
    }

    // The new buckets take the place of the old ones.
    method Double()
      requires Tabled()
      modifies this`ideal, this`nonideal, this`numBuckets, this`log2, this`buckets, this`chains, order`hhPrev, order`hhNext
      ensures Tabled() && fresh(buckets) && numBuckets == 2 * old(numBuckets)
      ensures ideal == Ceil(numItems, numBuckets) > 0 && MultsOk(buckets[..], chains, ideal) && nonideal == SumExcess(chains, ideal)
    {
      hide Indexed, Hung, Threads, SumExcess, MultsOk, Ceil, And, Shr;
      ShiftAndMaskIsCeil(numItems, log2 + 1);
      CeilPositive(numItems, Pow2(log2 + 1));
      var chainLen := Shr(numItems, log2 + 1) + (if And(numItems, numBuckets * 2 - 1) != 0 then 1 else 0);
      assert PowerOfTwo(Pow2(log2 + 1));
      ghost var more;
      var newBuckets;
      newBuckets, nonideal, more := Rebuild(buckets, chainLen, order, chains);
      ideal := chainLen;
      buckets, chains := newBuckets, more;
      numBuckets, log2 := numBuckets * 2, log2 + 1;
    }

    // HASH_EXPAND_BUCKETS
    method Expand()
      requires Tabled()
      modifies this, order`hhPrev, order`hhNext
      ensures Tabled() && order == old(order) && head == old(head) && fresh(buckets) && numBuckets == 2 * old(numBuckets)
      ensures Doubled(old(numBuckets), old(ineff), old(noexpand))
    {
      hide Indexed, Hung, Threads, SumExcess, MultsOk, Ceil, Shr, Pow2, RoomAfter, Room;
      Double();
      ShrOne(numItems);
      CeilBounds(numItems, numBuckets);
      RoomMade();
      ineff := if nonideal > Shr(numItems, 1) then ineff + 1 else 0;
      if ineff > 1 {
        noexpand := true;
      }
    }

    // HASH_MAKE_TABLE, for the first element
    method MakeTable(h: Handle)
      modifies this, h`prev
      ensures head == tail == h && h.prev == null && fresh(buckets) && order == old(order) && chains == Empty(HASH_INITIAL_NUM_BUCKETS)
      ensures numItems == 0 && !noexpand && numBuckets == buckets.Length == HASH_INITIAL_NUM_BUCKETS && log2 == HASH_INITIAL_NUM_BUCKETS_LOG2
      ensures forall b :: 0 <= b < buckets.Length ==> buckets[b] == Bucket(null, 0, 0)
    {
      head := h;
      h.prev := null;
      tail := h;
      numBuckets, log2 := HASH_INITIAL_NUM_BUCKETS, HASH_INITIAL_NUM_BUCKETS_LOG2;
      numItems, ideal, nonideal, ineff, noexpand := 0, 0, 0, 0, false;
      buckets := new Bucket[HASH_INITIAL_NUM_BUCKETS](_ => Bucket(null, 0, 0));
      chains := Empty(HASH_INITIAL_NUM_BUCKETS);
    }

    /** `h` is in the list of all elements, but not yet in a bucket. */
    ghost predicate Appended(h: Handle)
      reads this, buckets, order, h, Members(chains)
    {
      Threads(head, tail, order + [h]) && Indexed(order, chains) && Hung(buckets[..], chains)
      && numItems == |order| && numBuckets == buckets.Length == |chains| == Pow2(log2)
    }

    method Append(h: Handle)
      requires Valid() && h !in order
      modifies this, h`prev, h`next, order`next
      ensures Appended(h) && order == old(order) && (old(head) == null ==> fresh(buckets)) && (old(head) != null ==> buckets == old(buckets))
      ensures if old(head) == null then numBuckets == HASH_INITIAL_NUM_BUCKETS && !noexpand && forall c :: 0 <= c < numBuckets ==> Room(c) == 9
              else numBuckets == old(numBuckets) && noexpand == old(noexpand) && ineff == old(ineff)
    {
      h.next := null;
      if head == null {
        MakeTable(h);
        ThirtyTwo();
        EmptyFilled(buckets[..], HASH_INITIAL_NUM_BUCKETS, 1);
        EmptyIndexed(HASH_INITIAL_NUM_BUCKETS);
        FirstThreads(h);
      } else {
        AppendTail(head, tail, h, order);
        tail := h;
      }
    }

    // The new element into its bucket
    method PushItem(h: Handle) returns (full: bool)
      requires Appended(h) && h !in order
      modifies this`numItems, this`order, this`chains, buckets, h`hhPrev, h`hhNext, Members(chains)`hhPrev
      ensures Tabled() && order == old(order) + [h] && old(Index(h.hashv, numBuckets)) == Index(h.hashv, numBuckets) < buckets.Length
      ensures forall c :: 0 <= c < numBuckets ==> Room(c) == old(Room(c)) - (if c == Index(h.hashv, numBuckets) then 1 else 0)
      ensures full <==> old(Room(Index(h.hashv, numBuckets))) <= 0
    {
      hide Index, Distinct, Indexed, Pow2, HungAt, Apart;
      assert PowerOfTwo(Pow2(log2));
      var b := ToBkt(h.hashv, numBuckets);
      CountIs(buckets[b], chains[b]);
      IndexedAdd(order, chains, h);
      IndexedApart(order, chains);
      MembersInOrder(order, chains);
      numItems := numItems + 1;
      AddToBkt(buckets, b, h, chains);
      chains := chains[b := [h] + chains[b]];
      order := order + [h];
      full := buckets[b].count >= (buckets[b].mult + 1) * HASH_BKT_CAPACITY_THRESH;
    }

    // HASH_ADD_KEYPTR
    method Add(h: Handle)
      requires Valid() && h !in order && h.hashv == hash(h.key) && forall x :: x in order ==> x.key != h.key
      modifies this, buckets, h, order
      ensures Valid() && order == old(order) + [h]
      ensures old(head) == null ==> numBuckets == HASH_INITIAL_NUM_BUCKETS == buckets.Length
      ensures old(head) == null ==> forall c :: 0 <= c < numBuckets ==> Room(c) == if c == Index(h.hashv, numBuckets) then 8 else 9
      ensures old(head) != null ==> 0 < old(numBuckets) == old(buckets.Length)
      ensures old(head) != null ==> if old(Room(Index(h.hashv, numBuckets))) <= 0 && !old(noexpand)
        then Doubled(old(numBuckets), old(ineff), old(noexpand))
        else buckets == old(buckets) && numBuckets == old(numBuckets) && ineff == old(ineff) && noexpand == old(noexpand)
             && forall c :: 0 <= c < numBuckets ==> Room(c) == old(Room(c)) - (if c == Index(h.hashv, numBuckets) then 1 else 0)
    {
      hide Indexed, Hung, Threads, Pow2, Distinct, Keyed, HungAt, Room, Doubled, Index;
      KeyedAdd(order, h, hash);
      Append(h);
      MembersInOrder(order, chains);
      var full := PushItem(h);
      HeadOf(head, tail, order);
      if full && !noexpand {
        Expand();
      }
    }

    // HASH_DELETE; `p` is the element's place in the order of addition.
    method Delete(h: Handle, ghost p: nat)
      requires Valid() && p < |order| && order[p] == h
      modifies this, buckets, order
      ensures Valid() && order == Remove(old(order), p) && (head == null <==> |old(order)| == 1)
      ensures head != null ==> 0 < numBuckets == old(numBuckets) == buckets.Length && buckets == old(buckets)
      ensures head != null ==> ineff == old(ineff) && noexpand == old(noexpand)
      ensures head != null ==> forall c :: 0 <= c < numBuckets ==> Room(c) == old(Room(c)) + (if c == Index(h.hashv, numBuckets) then 1 else 0)
    {
      KeyedRemove(order, p, hash);
      assert Place(p);
      if h.prev == null && h.next == null {
        OnlyOne(order, p);
        head, order := null, [];
        return;
      }
      ghost var b := Index(h.hashv, |chains|);
      assert h in chains[b] && InPlace(order, chains, b);
      ghost var q :| 0 <= q < |chains[b]| && chains[b][q] == h;
      Unlink(h, p, q);
    }

    // Out of the list and out of the bucket
    method Unlink(h: Handle, ghost p: nat, ghost q: nat)
      requires Tabled() && Distinct(order) && p < |order| && order[p] == h && 1 < |order|
      requires 0 < |chains| && q < |chains[Index(h.hashv, |chains|)]| && chains[Index(h.hashv, |chains|)][q] == h
      requires Distinct(chains[Index(h.hashv, |chains|)])
      modifies this, buckets, order
      ensures Tabled() && order == Remove(old(order), p) && head != null && ineff == old(ineff) && noexpand == old(noexpand)
      ensures 0 < numBuckets == old(numBuckets) == buckets.Length && buckets == old(buckets)
      ensures forall c :: 0 <= c < numBuckets ==> Room(c) == old(Room(c)) + (if c == Index(h.hashv, numBuckets) then 1 else 0)
    {
      hide Indexed, HungAt, Threads, Distinct;
      RemovedAt(order, p);
      HeadOf(head, tail, order);
      head, tail := Unthread(head, tail, h, order, p);
      HeadOf(head, tail, Remove(order, p));
      DropItem(h, p, q);
    }

    method DropItem(h: Handle, ghost p: nat, ghost q: nat)
      requires Distinct(order) && p < |order| && order[p] == h && 1 < |order| && Threads(head, tail, Remove(order, p))
      requires Indexed(order, chains) && Hung(buckets[..], chains) && Sized()
      requires 0 < |chains| && q < |chains[Index(h.hashv, |chains|)]| && chains[Index(h.hashv, |chains|)][q] == h
      requires Distinct(chains[Index(h.hashv, |chains|)])
      modifies this`numItems, this`order, this`chains, buckets, order`hhPrev, order`hhNext
      ensures Tabled() && order == Remove(old(order), p) && 0 < numBuckets == buckets.Length && numBuckets == old(numBuckets) && buckets == old(buckets)
      ensures forall c :: 0 <= c < numBuckets ==> Room(c) == old(Room(c)) + (if c == Index(h.hashv, numBuckets) then 1 else 0)
    {
      hide Indexed, Hung, Threads, Distinct, Pow2;
      assert PowerOfTwo(Pow2(log2));
      var b := ToBkt(h.hashv, numBuckets);
      IndexedApart(order, chains);
      IndexedRemove(order, chains, p, q);
      MembersInOrder(order, chains);
      RemovedAt(order, p);
      forall k | 0 <= k < |chains[b]| ensures chains[b][k] in order {
        assert chains[b][k] in Members(chains);
      }
      DelInBkt(buckets, b, h, chains, q);
      numItems := numItems - 1;
      order, chains := Remove(order, p), chains[b := Remove(chains[b], q)];
    }
  }

  lemma HeadOf(head: Handle?, tail: Handle?, list: seq<Handle>)
    requires Threads(head, tail, list) && list != []
    ensures head != null && tail != null
  {
  }

  lemma OnlyOne(order: seq<Handle>, p: nat)
    requires p < |order| && Before(order, p) == null && After(order, p) == null
    ensures |order| == 1 && Remove(order, p) == []
  {
  }

  lemma ThirtyTwo()
    ensures PowerOfTwo(HASH_INITIAL_NUM_BUCKETS) && Pow2(HASH_INITIAL_NUM_BUCKETS_LOG2) == HASH_INITIAL_NUM_BUCKETS
  {
    assert Pow2(5) == 32;
  }

  lemma EmptyIndexed(n: nat)
    requires 0 < n
    ensures Indexed([], Empty(n))
  {
    SumEmpty(Empty(n), 0);
  }

  lemma FirstThreads(h: Handle)
    requires h.prev == null && h.next == null
    ensures Threads(h, h, [] + [h])
  {
  }

  lemma MembersInOrder(order: seq<Handle>, chains: Chains)
    requires Indexed(order, chains)
    ensures forall h :: h in Members(chains) ==> h in order
  {
    forall h | h in Members(chains) ensures h in order {
      var b :| 0 <= b < |chains| && h in chains[b];
      assert InPlace(order, chains, b);
    }
  }

  lemma KeyedAdd(order: seq<Handle>, h: Handle, hash: string -> nat)
    requires Keyed(order, hash) && Distinct(order) && h !in order && h.hashv == hash(h.key) && forall x :: x in order ==> x.key != h.key
    ensures Keyed(order + [h], hash) && Distinct(order + [h])
  {
    AppendedMembers(order, h);
    forall i, j | 0 <= i < j < |order + [h]| ensures (order + [h])[i].key != (order + [h])[j].key {
      assert Place(i) && Place(j);
    }
  }

  lemma KeyedRemove(order: seq<Handle>, p: nat, hash: string -> nat)
    requires Keyed(order, hash) && Distinct(order) && p < |order|
    ensures Keyed(Remove(order, p), hash) && Distinct(Remove(order, p))
  {
    RemovedAt(order, p);
    RemovedMembers(order, p);
    var r := Remove(order, p);
    forall i, j | 0 <= i < j < |r| ensures r[i].key != r[j].key {
      assert Place(if i < p then i else i + 1) && Place(if j < p then j else j + 1);
    }
  }

  lemma ShrOne(x: nat)
    ensures Shr(x, 1) == x / 2
  {
    assert Shr(x, 1) == Shr(x / 2, 0);
  }

  lemma CeilBounds(x: nat, d: nat)
    requires 0 < d
    ensures (Ceil(x, d) - 1) * d < x <= Ceil(x, d) * d || (x == 0 && Ceil(x, d) == 0)
  {
    var q, r := Split(x, d);
    CeilOf(q, d, r);
    assert (q + 1) * d == q * d + d;
  }

  lemma CeilPositive(x: nat, d: nat)
    requires 0 < x && 0 < d
    ensures 0 < Ceil(x, d)
  {
    CeilOf(x / d, d, x % d);
    var q, r := Split(x, d);
  }
}
