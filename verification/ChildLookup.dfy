/** Children of an entry by file name or by a part of their id: `find_children_via_file_name`,
    `find_children_via_entry_id_part` and the strategies they choose from. */
module ChildLookup {
  import opened Util
  import opened Lists
  import opened Codes
  import opened Block
  import opened BitSeq
  import opened Bitmap
  import opened BitmapSearch
  import opened Strings
  import opened ExistMat
  import opened IndexSpec
  import opened PartMap
  import opened Layer2
  import opened PartLookup
  import opened TransMap
  import opened Entries
  import D = Directory

  /** The entries filed under each record, as places in the entry pool; under an id there is one. */
  type Chains = map<Pos, seq<nat>>

  /** The members of `list` that are in `keep`, in order. */
  ghost function KeepIn(list: seq<nat>, keep: set<nat>): seq<nat> {
    if list == [] then [] else KeepIn(list[..|list| - 1], keep) + (if list[|list| - 1] in keep then [list[|list| - 1]] else [])
  }

  ghost function ChainAt(chains: Chains, p: Pos): seq<nat> {
    if p in chains then chains[p] else []
  }

  /** The kept entries under the first `n` slots of an array. */
  ghost function SlotTotal(slots: seq<Option<Text>>, chains: Chains, keep: set<nat>, a: nat, n: nat): seq<nat>
    requires n <= |slots|
  {
    if n == 0 then []
    else SlotTotal(slots, chains, keep, a, n - 1) + (if slots[n - 1].Some? then KeepIn(ChainAt(chains, Pos(a, n - 1)), keep) else [])
  }

  /** The kept entries under the first `n` arrays. */
  ghost function Total(live: Live, chains: Chains, keep: set<nat>, n: nat): seq<nat>
    requires n <= |live|
  {
    if n == 0 then [] else Total(live, chains, keep, n - 1) + SlotTotal(live[n - 1], chains, keep, n - 1, |live[n - 1]|)
  }

  lemma {:induction false} KeepInMembers(list: seq<nat>, keep: set<nat>)
    ensures forall e :: e in KeepIn(list, keep) <==> e in list && e in keep
    ensures Distinct(list) ==> Distinct(KeepIn(list, keep))
  {
    if list != [] {
      var init, last := list[..|list| - 1], list[|list| - 1];
      KeepInMembers(init, keep);
      assert list == init + [last];
      if Distinct(list) {
        SliceDistinct(list, 0, |list| - 1);
        FoundOnce(list, |list| - 1);
        AppendDistinct(KeepIn(init, keep), [last]);
      }
    }
  }

  /** Chains of different records have no entry in common, and none twice. */
  ghost predicate Disjoint(live: Live, chains: Chains) {
    (forall p :: Used(live, p) ==> p in chains && Distinct(chains[p]))
    && forall p, q, e :: Used(live, p) && Used(live, q) && p != q && p in chains && q in chains && e in chains[p] ==> e !in chains[q]
  }

  /** Entry `e` is filed under slot `k` of array `a`. */
  ghost predicate Under(live: Live, chains: Chains, a: int, k: int, e: nat) {
    0 <= a && 0 <= k && Used(live, Pos(a, k)) && e in ChainAt(chains, Pos(a, k))
  }

  ghost predicate UnderSlots(live: Live, chains: Chains, a: int, n: int, e: nat) {
    exists k :: 0 <= k < n && Under(live, chains, a, k, e)
  }

  ghost predicate UnderArrays(live: Live, chains: Chains, n: int, e: nat) {
    exists a :: 0 <= a < n && 0 <= a < |live| && UnderSlots(live, chains, a, |live[a]|, e)
  }

  lemma {:induction false} SlotTotalMembers(live: Live, chains: Chains, keep: set<nat>, a: nat, n: nat)
    requires a < |live| && n <= |live[a]| && Disjoint(live, chains)
    ensures forall e :: e in SlotTotal(live[a], chains, keep, a, n) <==> e in keep && UnderSlots(live, chains, a, n, e)
    ensures Distinct(SlotTotal(live[a], chains, keep, a, n))
  {
    if n > 0 {
      SlotTotalMembers(live, chains, keep, a, n - 1);
      var p := Pos(a, n - 1);
      KeepInMembers(ChainAt(chains, p), keep);
      if live[a][n - 1].Some? {
        assert Used(live, p);
        forall e | e in SlotTotal(live[a], chains, keep, a, n - 1) ensures e !in chains[p] {
          var k :| 0 <= k < n - 1 && Under(live, chains, a, k, e);
          assert p != Pos(a, k);
        }
        AppendDistinct(SlotTotal(live[a], chains, keep, a, n - 1), KeepIn(ChainAt(chains, p), keep));
      }
      forall e: nat ensures UnderSlots(live, chains, a, n, e) <==> UnderSlots(live, chains, a, n - 1, e) || Under(live, chains, a, n - 1, e) {
        if UnderSlots(live, chains, a, n, e) {
          var k :| 0 <= k < n && Under(live, chains, a, k, e);
        }
      }
    }
  }

  lemma {:induction false} TotalMembers(live: Live, chains: Chains, keep: set<nat>, n: nat)
    requires n <= |live| && Disjoint(live, chains)
    ensures forall e :: e in Total(live, chains, keep, n) <==> e in keep && UnderArrays(live, chains, n, e)
    ensures Distinct(Total(live, chains, keep, n))
  {
    if n > 0 {
      TotalMembers(live, chains, keep, n - 1);
      SlotTotalMembers(live, chains, keep, n - 1, |live[n - 1]|);
      var s, t := Total(live, chains, keep, n - 1), SlotTotal(live[n - 1], chains, keep, n - 1, |live[n - 1]|);
      forall e | e in s ensures e !in t {
        var a :| 0 <= a < n - 1 && 0 <= a < |live| && UnderSlots(live, chains, a, |live[a]|, e);
        var k :| 0 <= k < |live[a]| && Under(live, chains, a, k, e);
      }
      AppendDistinct(s, t);
      forall e: nat ensures UnderArrays(live, chains, n, e) <==>
                       UnderArrays(live, chains, n - 1, e) || UnderSlots(live, chains, n - 1, |live[n - 1]|, e) {
        if UnderArrays(live, chains, n, e) {
          var a :| 0 <= a < n && 0 <= a < |live| && UnderSlots(live, chains, a, |live[a]|, e);
        }
      }
    }
  }

  // ---------------------------------------------------------------------
  // The heap side

  /** The list from `head` runs through the entries of `chain`. */
  ghost predicate Chained(head: Entry?, chain: seq<nat>, pool: seq<Entry>)
    reads pool
  {
    (forall k :: 0 <= k < |chain| ==> chain[k] < |pool|)
    && head == (if chain == [] then null else pool[chain[0]])
    && forall k :: 0 <= k < |chain| ==> pool[chain[k]].nextSame == if k + 1 < |chain| then pool[chain[k + 1]] else null
  }

  /** A record of a name leads to a list of entries, a record of an id to one entry. */
  ghost predicate Leads(head: Entry?, chain: seq<nat>, pool: seq<Entry>, mode: D.Mode)
    reads pool
  {
    if mode == D.ByName then Chained(head, chain, pool) else |chain| == 1 && chain[0] < |pool| && head == pool[chain[0]]
  }

  /** The first entries of the result buffer. */
  ghost predicate Held(buf: array<Entry?>, pool: seq<Entry>, found: seq<nat>)
    reads buf
  {
    |found| <= buf.Length && forall k :: 0 <= k < |found| ==> found[k] < |pool| && buf[k] == pool[found[k]]
  }

  lemma {:induction false} KeepInPrefix(list: seq<nat>, keep: set<nat>, n: nat)
    requires n <= |list|
    ensures KeepIn(list[..n], keep) <= KeepIn(list, keep)
  {
    if n < |list| {
      KeepInPrefix(list[..|list| - 1], keep, n);
      assert list[..|list| - 1][..n] == list[..n];
    } else {
      assert list[..n] == list;
    }
  }

  lemma KeepInStep(list: seq<nat>, keep: set<nat>, n: nat)
    requires n < |list|
    ensures KeepIn(list[..n + 1], keep) == KeepIn(list[..n], keep) + (if list[n] in keep then [list[n]] else [])
    ensures KeepIn(list[..n + 1], keep) <= KeepIn(list, keep)
  {
    assert list[..n + 1][..n] == list[..n];
    KeepInPrefix(list, keep, n + 1);
  }

  // The walk along a chain of entries with the same name
  method CollectChain(head: Entry?, parent: Entry, buf: array<Entry?>, size: nat, from: nat,
                      ghost chain: seq<nat>, ghost pool: seq<Entry>, ghost keep: set<nat>, ghost found: seq<nat>)
    returns (full: bool, used: nat, ghost all: seq<nat>)
    requires Chained(head, chain, pool) && forall e :: e in chain ==> (pool[e].parent == parent <==> e in keep)
    requires from == |found| < size <= buf.Length && Held(buf, pool, found)
    modifies buf
    ensures used == |all| <= size && (full <==> used == size) && Held(buf, pool, all)
    ensures all <= found + KeepIn(chain, keep) && (!full ==> all == found + KeepIn(chain, keep))
  {
    var entry := head;
    ghost var k := 0;
    used, all := from, found;
    while entry != null
      invariant 0 <= k <= |chain| && entry == if k < |chain| then pool[chain[k]] else null
      invariant used == |all| < size && Held(buf, pool, all)
      invariant all == found + KeepIn(chain[..k], keep)
      decreases |chain| - k
    {
      KeepInStep(chain, keep, k);
      assert chain[k] in chain;
      if entry.parent == parent {
        buf[used] := entry;
        used, all := used + 1, all + [chain[k]];
        if used == size {
          return true, used, all;
        }
      }
      entry := entry.nextSame;
      k := k + 1;
    }
    assert chain[..k] == chain;
    full := false;
  }

  /** The text a search looks at: the file name, or the id in its text form. */
  function LabelOf(x: Entry, mode: D.Mode): string
    reads x
  {
    if mode == D.ByName then x.fileName else x.id
  }

  predicate Matches(s: string, name: string, exact: bool) {
    if exact then s == name else Contains(s, name)
  }

  /** The children asked for. */
  ghost function Matching(pool: seq<Entry>, parent: Entry, name: string, exact: bool, mode: D.Mode): set<nat>
    reads pool
  {
    set e: nat | e < |pool| && pool[e].parent == parent && Matches(LabelOf(pool[e], mode), name, exact)
  }

  /** Parent links and the child array agree. */
  ghost predicate Family(parent: Entry, pool: seq<Entry>, kids: seq<nat>)
    reads pool, parent
  {
    Distinct(kids) && |kids| == |parent.child|
    && (forall k :: 0 <= k < |kids| ==> kids[k] < |pool| && parent.child[k] == pool[kids[k]])
    && forall e :: 0 <= e < |pool| ==> (pool[e].parent == parent <==> e in kids)
  }

  lemma KeepNothing(list: seq<nat>, keep: set<nat>)
    ensures KeepIn(list[..0], keep) == []
  {
  }

  // The sequential search on the children, by strcmp or by strstr
  method CollectChildren(parent: Entry, name: string, exact: bool, mode: D.Mode, buf: array<Entry?>, size: nat,
                         ghost kids: seq<nat>, ghost pool: seq<Entry>)
    returns (full: bool, used: nat, ghost all: seq<nat>)
    requires Family(parent, pool, kids) && 0 < size <= buf.Length
    modifies buf
    ensures used == |all| <= size && (full <==> used == size) && Held(buf, pool, all)
    ensures var keep := Matching(pool, parent, name, exact, mode); all <= KeepIn(kids, keep) && (!full ==> all == KeepIn(kids, keep))
  {
    hide KeepIn;
    ghost var keep := Matching(pool, parent, name, exact, mode);
    used, all := 0, [];
    KeepNothing(kids, keep);
    for i := 0 to |parent.child|
      invariant used == |all| < size && Held(buf, pool, all)
      invariant all == KeepIn(kids[..i], keep)
    {
      KeepInStep(kids, keep, i);
      assert kids[i] in kids;
      var entry := parent.child[i];
      if Matches(LabelOf(entry, mode), name, exact) {
        buf[used] := entry;
        used, all := used + 1, all + [kids[i]];
        if used == size {
          return true, used, all;
        }
      }
    }
    assert kids[..|kids|] == kids;
    full := false;
  }

  lemma KidsListed(pool: seq<Entry>, parent: Entry, kids: seq<nat>, name: string, exact: bool, mode: D.Mode)
    requires Family(parent, pool, kids)
    ensures var keep := Matching(pool, parent, name, exact, mode); Listing(KeepIn(kids, keep), keep)
  {
    KeepInMembers(kids, Matching(pool, parent, name, exact, mode));
  }

  /** `list` holds exactly the members of `keep`, each once. */
  ghost predicate Listing(list: seq<nat>, keep: set<nat>) {
    Distinct(list) && forall e :: e in list <==> e in keep
  }

  /** The database knows every entry by its file name, or by its id: each record's chain holds entries of that
      label only, each entry is in some chain, and no two records have the same string. */
  ghost predicate Names(l2: L2Arr<Entry?>, pool: seq<Entry>, chains: Chains, mode: D.Mode)
    reads l2, l2.Repr, pool
    requires l2.Valid()
  {
    Disjoint(l2.live, chains)
    && (forall p, q :: Used(l2.live, p) && Used(l2.live, q) && p != q ==>
          l2.live[p.arr][p.slot].value.str != l2.live[q.arr][q.slot].value.str)
    && (forall e :: 0 <= e < |pool| ==> UnderArrays(l2.live, chains, |l2.live|, e))
    && forall p :: Used(l2.live, p) ==>
         assert Array(p.arr);
         assert p.slot < |l2.l1[p.arr].arr| && l2.RecordAt(p) in Layer2.Footprint(l2.l1[p.arr]);
         chains[p] != [] && Leads(l2.RecordAt(p).head, chains[p], pool, mode)
         && forall e :: e in chains[p] ==> e < |pool| && LabelOf(pool[e], mode) == l2.live[p.arr][p.slot].value.str
  }

  /** Under a string that does not contain the name, nothing is kept. */
  lemma {:induction false} NothingKept(chain: seq<nat>, keep: set<nat>)
    requires forall e :: e in chain ==> e !in keep
    ensures KeepIn(chain, keep) == []
  {
    if chain != [] {
      NothingKept(chain[..|chain| - 1], keep);
    }
  }

  // The one entry filed under an id
  method CollectTarget(entry: Entry, parent: Entry, buf: array<Entry?>, size: nat, from: nat,
                       ghost chain: seq<nat>, ghost pool: seq<Entry>, ghost keep: set<nat>, ghost found: seq<nat>)
    returns (full: bool, used: nat, ghost all: seq<nat>)
    requires |chain| == 1 && chain[0] < |pool| && entry == pool[chain[0]] && (entry.parent == parent <==> chain[0] in keep)
    requires from == |found| < size <= buf.Length && Held(buf, pool, found)
    modifies buf
    ensures used == |all| <= size && (full <==> used == size) && Held(buf, pool, all)
    ensures all == found + KeepIn(chain, keep)
  {
    assert chain[..0] == [] && KeepIn(chain[..0], keep) == [];
    full, used, all := false, from, found;
    if entry.parent == parent {
      buf[used] := entry;
      used, all := used + 1, all + [chain[0]];
      full := used == size;
    }
  }

  // One used slot of a marked array: the substring test, then the entries filed there
  method CollectSlot(l2: L2Arr<Entry?>, a: nat, k: nat, name: string, mode: D.Mode, parent: Entry, buf: array<Entry?>, size: nat, from: nat,
                     ghost pool: seq<Entry>, ghost chains: Chains, ghost found: seq<nat>)
    returns (full: bool, used: nat, ghost all: seq<nat>)
    requires l2.Valid() && buf !in l2.Repr && Names(l2, pool, chains, mode) && Used(l2.live, Pos(a, k))
    requires from == |found| < size <= buf.Length && Held(buf, pool, found)
    modifies buf
    ensures used == |all| <= size && (full <==> used == size) && Held(buf, pool, all)
    ensures var hits := found + KeepIn(ChainAt(chains, Pos(a, k)), Matching(pool, parent, name, false, mode));
            all <= hits && (!full ==> all == hits)
  {
    l2.UsageFacts(a);
    ghost var p, keep := Pos(a, k), Matching(pool, parent, name, false, mode);
    var record := l2.l1[a].arr[k];
    assert l2.live[a][k] == Some(record.Value()) && record == l2.RecordAt(p);
    if !Contains(record.str, name) {
      NothingKept(chains[p], keep);
      full, used, all := false, from, found;
    } else if mode == D.ByName {
      full, used, all := CollectChain(record.head, parent, buf, size, from, chains[p], pool, keep, found);
    } else {
      assert chains[p][0] in chains[p];
      full, used, all := CollectTarget(record.head, parent, buf, size, from, chains[p], pool, keep, found);
    }
  }

  lemma {:induction false} SlotTotalSkip(slots: seq<Option<Text>>, chains: Chains, keep: set<nat>, a: nat, i: nat, j: nat)
    requires i <= j <= |slots|
    requires forall k :: i <= k < j && slots[k].Some? ==> KeepIn(ChainAt(chains, Pos(a, k)), keep) == []
    ensures SlotTotal(slots, chains, keep, a, i) == SlotTotal(slots, chains, keep, a, j)
  {
    if i < j {
      SlotTotalSkip(slots, chains, keep, a, i, j - 1);
    }
  }

  lemma {:induction false} SlotTotalPrefix(slots: seq<Option<Text>>, chains: Chains, keep: set<nat>, a: nat, n: nat, m: nat)
    requires n <= m <= |slots|
    ensures SlotTotal(slots, chains, keep, a, n) <= SlotTotal(slots, chains, keep, a, m)
  {
    if n < m {
      SlotTotalPrefix(slots, chains, keep, a, n, m - 1);
    }
  }

  lemma SlotTotalNext(slots: seq<Option<Text>>, chains: Chains, keep: set<nat>, a: nat, i: nat, k: nat, start: seq<nat>)
    requires i <= k < |slots| && slots[k].Some? && forall m :: i <= m < k ==> slots[m].None?
    ensures start + SlotTotal(slots, chains, keep, a, i) + KeepIn(ChainAt(chains, Pos(a, k)), keep)
         == start + SlotTotal(slots, chains, keep, a, k + 1)
    ensures start + SlotTotal(slots, chains, keep, a, k + 1) <= start + SlotTotal(slots, chains, keep, a, |slots|)
  {
    SlotTotalSkip(slots, chains, keep, a, i, k);
    SlotTotalPrefix(slots, chains, keep, a, k + 1, |slots|);
  }

  lemma {:induction false} TotalPrefix(live: Live, chains: Chains, keep: set<nat>, n: nat, m: nat)
    requires n <= m <= |live|
    ensures Total(live, chains, keep, n) <= Total(live, chains, keep, m)
  {
    if n < m {
      TotalPrefix(live, chains, keep, n, m - 1);
    }
  }

  /** A string in an array the query does not mark does not contain the name. */
  lemma UnmarkedDiffers(live: Live, bits: seq<bool>, name: string, a: nat, k: nat)
    requires Prunes(bits, live, name, -1, -1) && a < |live| && k < |live[a]| && live[a][k].Some? && !At(bits, a)
    ensures !Contains(live[a][k].value.str, name)
  {
    ScanSlotsExact(live[a], a, |live[a]|, name, -1, -1);
    assert Pos(a, k) !in ScanSlots(live[a], a, |live[a]|, name, -1, -1);
    UnboundedIsContains(live[a][k].value.str, name);
  }

  lemma SlotKeepsNothing(l2: L2Arr<Entry?>, pool: seq<Entry>, chains: Chains, parent: Entry, name: string, p: Pos, mode: D.Mode)
    requires l2.Valid() && Names(l2, pool, chains, mode) && Used(l2.live, p) && !Contains(l2.live[p.arr][p.slot].value.str, name)
    ensures KeepIn(ChainAt(chains, p), Matching(pool, parent, name, false, mode)) == []
  {
    NothingKept(chains[p], Matching(pool, parent, name, false, mode));
  }

  /** Only existing arrays are marked, and the others lead to no entry in `keep`. */
  ghost predicate Narrows(bits: seq<bool>, live: Live, chains: Chains, keep: set<nat>) {
    forall a :: if At(bits, a) then 0 <= a < |live|
                else 0 <= a < |live| ==> SlotTotal(live[a], chains, keep, a, |live[a]|) == []
  }

  lemma PrunedNarrows(l2: L2Arr<Entry?>, pool: seq<Entry>, chains: Chains, bits: seq<bool>, parent: Entry, name: string, mode: D.Mode)
    requires l2.Valid() && Names(l2, pool, chains, mode) && Prunes(bits, l2.live, name, -1, -1)
    ensures Narrows(bits, l2.live, chains, Matching(pool, parent, name, false, mode))
  {
    var keep, live := Matching(pool, parent, name, false, mode), l2.live;
    forall a ensures if At(bits, a) then 0 <= a < |live| else 0 <= a < |live| ==> SlotTotal(live[a], chains, keep, a, |live[a]|) == [] {
      if 0 <= a < |live| && !At(bits, a) {
        forall k | 0 <= k < |live[a]| && live[a][k].Some? ensures KeepIn(ChainAt(chains, Pos(a, k)), keep) == [] {
          UnmarkedDiffers(live, bits, name, a, k);
          SlotKeepsNothing(l2, pool, chains, parent, name, Pos(a, k), mode);
        }
        SlotTotalSkip(live[a], chains, keep, a, 0, |live[a]|);
      }
    }
  }

  /** Arrays the query does not mark contribute nothing. */
  lemma {:induction false} TotalSkip(live: Live, chains: Chains, keep: set<nat>, bits: seq<bool>, i: nat, j: nat)
    requires Narrows(bits, live, chains, keep) && i <= j <= |live| && forall a :: i <= a < j ==> !At(bits, a)
    ensures Total(live, chains, keep, i) == Total(live, chains, keep, j)
  {
    if i < j {
      TotalSkip(live, chains, keep, bits, i, j - 1);
      assert !At(bits, j - 1);
    }
  }

  // The search for the next used slot
  method NextUsed(l2: L2Arr<Entry?>, a: nat, ghost j: nat, skip: nat, ghost chains: Chains, ghost keep: set<nat>, ghost start: seq<nat>)
    returns (k: nat)
    requires l2.Valid() && a < |l2.live|
    requires var bits := l2.l1[a].usage.bits; skip <= |bits| && skip <= |l2.live[a]| && Ones(bits[..skip]) == j < Ones(bits)
    ensures var bits := l2.l1[a].usage.bits; k < |bits| && Ones(bits[..k + 1]) == j + 1
    ensures k < |l2.live[a]| && l2.live[a][k].Some?
    ensures start + SlotTotal(l2.live[a], chains, keep, a, skip) + KeepIn(ChainAt(chains, Pos(a, k)), keep)
         == start + SlotTotal(l2.live[a], chains, keep, a, k + 1)
    ensures start + SlotTotal(l2.live[a], chains, keep, a, k + 1) <= start + SlotTotal(l2.live[a], chains, keep, a, |l2.live[a]|)
  {
    l2.UsageFacts(a);
    k := NextOne(l2.l1[a].usage, j, skip);
    SlotTotalNext(l2.live[a], chains, keep, a, skip, k, start);
  }

  // The next used slot of the array
  method CollectNext(l2: L2Arr<Entry?>, a: nat, ghost j: nat, skip: nat, name: string, mode: D.Mode, parent: Entry, buf: array<Entry?>, size: nat, from: nat,
                     ghost pool: seq<Entry>, ghost chains: Chains, ghost start: seq<nat>, ghost found: seq<nat>)
    returns (full: bool, next: nat, used: nat, ghost all: seq<nat>)
    requires l2.Valid() && buf !in l2.Repr && Names(l2, pool, chains, mode) && a < |l2.live|
    requires var bits := l2.l1[a].usage.bits; skip <= |bits| && skip <= |l2.live[a]| && Ones(bits[..skip]) == j < Ones(bits)
    requires from == |found| < size <= buf.Length && Held(buf, pool, found)
    requires found == start + SlotTotal(l2.live[a], chains, Matching(pool, parent, name, false, mode), a, skip)
    modifies buf
    ensures used == |all| <= size && (full <==> used == size) && Held(buf, pool, all)
    ensures var bits := l2.l1[a].usage.bits; next <= |bits| && next <= |l2.live[a]| && Ones(bits[..next]) == j + 1
    ensures var keep := Matching(pool, parent, name, false, mode);
            all <= start + SlotTotal(l2.live[a], chains, keep, a, |l2.live[a]|)
            && (!full ==> all == start + SlotTotal(l2.live[a], chains, keep, a, next))
  {
    hide SlotTotal, Names, Ones, Held;
    var k := NextUsed(l2, a, j, skip, chains, Matching(pool, parent, name, false, mode), start);
    full, used, all := CollectSlot(l2, a, k, name, mode, parent, buf, size, from, pool, chains, found);
    next := k + 1;
  }

  // The loop over the used slots of a marked array
  method CollectArray(l2: L2Arr<Entry?>, a: nat, name: string, mode: D.Mode, parent: Entry, buf: array<Entry?>, size: nat, from: nat,
                      ghost pool: seq<Entry>, ghost chains: Chains, ghost found: seq<nat>)
    returns (full: bool, used: nat, ghost all: seq<nat>)
    requires l2.Valid() && buf !in l2.Repr && Names(l2, pool, chains, mode) && a < |l2.live|
    requires from == |found| < size <= buf.Length && Held(buf, pool, found)
    modifies buf
    ensures used == |all| <= size && (full <==> used == size) && Held(buf, pool, all)
    ensures var hits := found + SlotTotal(l2.live[a], chains, Matching(pool, parent, name, false, mode), a, |l2.live[a]|);
            all <= hits && (!full ==> all == hits)
  {
    l2.UsageFacts(a);
    ghost var slots, bits, keep := l2.live[a], l2.l1[a].usage.bits, Matching(pool, parent, name, false, mode);
    var skip: nat := 0;
    full, used, all := false, from, found;
    for j := 0 to l2.l1[a].usage.ones
      invariant skip <= |bits| && Ones(bits[..skip]) == j && !full
      invariant used == |all| < size && Held(buf, pool, all)
      invariant all == found + SlotTotal(slots, chains, keep, a, skip)
    {
      full, skip, used, all := CollectNext(l2, a, j, skip, name, mode, parent, buf, size, used, pool, chains, found, all);
      if full {
        return;
      }
    }
    OnesPositive(bits, skip);
    SlotTotalSkip(slots, chains, keep, a, skip, |slots|);
  }

  // The search for the next marked array
  method NextMarked(marked: SimpleBitmap, ghost i: nat, skip: nat, ghost live: Live, ghost chains: Chains, ghost keep: set<nat>) returns (a: nat)
    requires marked.Valid() && Narrows(marked.bits, live, chains, keep)
    requires skip <= |marked.bits| && skip <= |live| && Ones(marked.bits[..skip]) == i < Ones(marked.bits)
    ensures a < |marked.bits| && a < |live| && Ones(marked.bits[..a + 1]) == i + 1
    ensures Total(live, chains, keep, a) == Total(live, chains, keep, skip)
    ensures Total(live, chains, keep, a + 1) <= Total(live, chains, keep, |live|)
  {
    a := NextOne(marked, i, skip);
    assert At(marked.bits, a);
    TotalSkip(live, chains, keep, marked.bits, skip, a);
    TotalPrefix(live, chains, keep, a + 1, |live|);
  }

  // The next marked array
  method CollectNextArray(l2: L2Arr<Entry?>, marked: SimpleBitmap, ghost i: nat, skip: nat, name: string, mode: D.Mode, parent: Entry, buf: array<Entry?>, size: nat, from: nat,
                          ghost pool: seq<Entry>, ghost chains: Chains, ghost found: seq<nat>)
    returns (full: bool, next: nat, used: nat, ghost all: seq<nat>)
    requires l2.Valid() && buf !in l2.Repr && Names(l2, pool, chains, mode)
    requires marked.Valid() && Narrows(marked.bits, l2.live, chains, Matching(pool, parent, name, false, mode))
    requires skip <= |marked.bits| && skip <= |l2.live| && Ones(marked.bits[..skip]) == i < Ones(marked.bits)
    requires from == |found| < size <= buf.Length && Held(buf, pool, found)
    requires found == Total(l2.live, chains, Matching(pool, parent, name, false, mode), skip)
    modifies buf
    ensures used == |all| <= size && (full <==> used == size) && Held(buf, pool, all)
    ensures next <= |marked.bits| && next <= |l2.live| && Ones(marked.bits[..next]) == i + 1
    ensures var keep := Matching(pool, parent, name, false, mode);
            all <= Total(l2.live, chains, keep, |l2.live|) && (!full ==> all == Total(l2.live, chains, keep, next))
  {
    hide SlotTotal, Narrows, Names, Ones, Held;
    var a := NextMarked(marked, i, skip, l2.live, chains, Matching(pool, parent, name, false, mode));
    full, used, all := CollectArray(l2, a, name, mode, parent, buf, size, from, pool, chains, found);
    next := a + 1;
  }

  // "go with bitmap based searching"
  method CollectMarked(l2: L2Arr<Entry?>, marked: SimpleBitmap, name: string, mode: D.Mode, parent: Entry, buf: array<Entry?>, size: nat,
                       ghost pool: seq<Entry>, ghost chains: Chains)
    returns (full: bool, used: nat, ghost all: seq<nat>)
    requires l2.Valid() && buf !in l2.Repr && Names(l2, pool, chains, mode) && 0 < size <= buf.Length
    requires marked.Valid() && if name == "" then Ones(marked.bits) == 0 else Narrows(marked.bits, l2.live, chains, Matching(pool, parent, name, false, mode))
    modifies buf
    ensures used == |all| <= size && (full <==> used == size) && Held(buf, pool, all)
    ensures name == "" ==> all == []
    ensures name != "" ==> var hits := Total(l2.live, chains, Matching(pool, parent, name, false, mode), |l2.live|);
            all <= hits && (!full ==> all == hits)
  {
    hide Names, Matching;
    ghost var bits, keep := marked.bits, Matching(pool, parent, name, false, mode);
    var skip: nat := 0;
    full, used, all := false, 0, [];
    marked.Facts();
    for i := 0 to marked.ones
      invariant skip <= |bits| && Ones(bits[..skip]) == i && !full
      invariant used == |all| < size && Held(buf, pool, all) && (name == "" ==> all == [])
      invariant name != "" ==> skip <= |l2.live| && all == Total(l2.live, chains, keep, skip)
    {
      full, skip, used, all := CollectNextArray(l2, marked, i, skip, name, mode, parent, buf, size, used, pool, chains, all);
      if full {
        return;
      }
    }
    if name != "" {
      OnesPositive(bits, skip);
      TotalSkip(l2.live, chains, keep, bits, skip, |l2.live|);
    }
  }

  /** Through the records, exactly the children asked for are reached. */
  lemma TotalListed(l2: L2Arr<Entry?>, pool: seq<Entry>, chains: Chains, parent: Entry, name: string, mode: D.Mode)
    requires l2.Valid() && Names(l2, pool, chains, mode)
    ensures var keep := Matching(pool, parent, name, false, mode); Listing(Total(l2.live, chains, keep, |l2.live|), keep)
  {
    TotalMembers(l2.live, chains, Matching(pool, parent, name, false, mode), |l2.live|);
  }

  /** The exact lookup: the hash table finds the record of every stored string. */
  ghost predicate Hashed(l2: L2Arr<Entry?>, htab: map<string, Trans<Entry?>>, at: map<string, Pos>)
    reads l2, l2.Repr
    requires l2.Valid()
  {
    (forall s :: s in htab ==> s in at && Used(l2.live, at[s]) && l2.live[at[s].arr][at[s].slot].value.str == s
                               && at[s].slot < |l2.l1[at[s].arr].arr| && htab[s] == l2.RecordAt(at[s]))
    && forall p :: Used(l2.live, p) ==> l2.live[p.arr][p.slot].value.str in htab
  }

  /** The chain of the record with exactly this name holds every entry of that name. */
  lemma ExactChainListed(l2: L2Arr<Entry?>, pool: seq<Entry>, chains: Chains, parent: Entry, name: string, p: Pos, mode: D.Mode)
    requires l2.Valid() && Names(l2, pool, chains, mode) && Used(l2.live, p) && l2.live[p.arr][p.slot].value.str == name
    ensures var keep := Matching(pool, parent, name, true, mode); Listing(KeepIn(chains[p], keep), keep)
    ensures forall e :: e in chains[p] ==> e < |pool| && (pool[e].parent == parent <==> e in Matching(pool, parent, name, true, mode))
  {
    var keep := Matching(pool, parent, name, true, mode);
    KeepInMembers(chains[p], keep);
    forall e | e in keep ensures e in chains[p] {
      assert UnderArrays(l2.live, chains, |l2.live|, e);
      var a :| 0 <= a < |l2.live| && UnderSlots(l2.live, chains, a, |l2.live[a]|, e);
      var k :| 0 <= k < |l2.live[a]| && Under(l2.live, chains, a, k, e);
      assert Used(l2.live, Pos(a, k));
    }
  }

  // The map query of a name without bounds, and what it means for the search
  method QueryNames(l2: L2Arr<Entry?>, matrix: Matrix, name: string, mode: D.Mode, parent: Entry, mapBuf: SimpleBitmap, marked: SimpleBitmap,
                    ghost pool: seq<Entry>, ghost chains: Chains)
    returns (ret: int)
    requires matrix.Valid() && 0 < |matrix.columns| && '\0' !in name && l2.Valid() && Names(l2, pool, chains, mode)
    requires Covers(matrix.views, matrix.maxLength, l2.live)
    requires mapBuf.Valid() && marked.Valid() && mapBuf != marked && mapBuf.base != marked.base
    requires {mapBuf, mapBuf.base, marked, marked.base} !! matrix.Repr + l2.Repr
    modifies mapBuf, mapBuf.base, marked, marked.base
    ensures mapBuf.Valid() && marked.Valid()
    ensures ret == if |name| > |matrix.columns| then VERIFY_FAIL else OK
    ensures ret == OK && name == "" ==> Ones(marked.bits) == 0
    ensures ret == OK && name != "" ==> Narrows(marked.bits, l2.live, chains, Matching(pool, parent, name, false, mode))
  {
    ghost var live := l2.live;
    ghost var views, maxLength := matrix.views, matrix.maxLength;
    ret := PartMapRanged(matrix, name, -1, -1, mapBuf, marked);
    if ret == OK {
      if name == "" {
        NoneSet(marked.bits);
      } else {
        QueryPrunes(views, maxLength, live, name, marked.bits);
        PrunedNarrows(l2, pool, chains, marked.bits, parent, name, mode);
      }
    }
  }

  lemma QueryPrunes(views: Views, maxLength: nat, live: Live, name: string, bits: seq<bool>)
    requires Covers(views, maxLength, live) && name != ""
    requires |name| > maxLength ==> forall a :: !At(bits, a)
    requires |name| <= maxLength ==> forall a :: At(bits, a) <==> Candidate(views, name, 0, maxLength - |name|, a)
    ensures Prunes(bits, live, name, -1, -1)
  {
    if |name| <= maxLength {
      CandidatesPrune(views, maxLength, live, name, -1, -1, 0, maxLength - |name|, bits);
    } else {
      forall a | 0 <= a < |live| ensures ScanSlots(live[a], a, |live[a]|, name, -1, -1) == [] {
        var r := ScanSlots(live[a], a, |live[a]|, name, -1, -1);
        ScanSlotsExact(live[a], a, |live[a]|, name, -1, -1);
        FirstIsIn(r);
        forall k | 0 <= k < |live[a]| && live[a][k].Some? ensures !Hit(live[a][k], name, -1, -1) {
          assert Covered(views, maxLength, live[a][k].value.str, a);
        }
      }
    }
  }

  /** What a search for children returns, whatever strategy found them: `total` lists them all, and the
      buffer holds as many of them as fit. */
  ghost predicate Answer(ret: int, used: nat, total: seq<nat>, keep: set<nat>, buf: array<Entry?>, size: nat, pool: seq<Entry>)
    reads buf
  {
    Listing(total, keep)
    && ret == (if |total| < size then OK else BUFFER_FULL)
    && used == (if |total| < size then |total| else size)
    && Held(buf, pool, total[..used])
  }

  lemma Answered(ret: int, full: bool, used: nat, all: seq<nat>, total: seq<nat>, keep: set<nat>, buf: array<Entry?>, size: nat, pool: seq<Entry>)
    requires Listing(total, keep) && used == |all| <= size && (full <==> used == size) && Held(buf, pool, all)
    requires all <= total && (!full ==> all == total) && ret == if full then BUFFER_FULL else OK
    ensures Answer(ret, used, total, keep, buf, size, pool)
  {
    assert total[..used] == all;
  }

  // The hash table knows the name: walk its chain or the children, whichever is shorter.
  method FindExact(l2: L2Arr<Entry?>, record: Trans<Entry?>, name: string, parent: Entry, buf: array<Entry?>, size: nat,
                   ghost pool: seq<Entry>, ghost chains: Chains, ghost kids: seq<nat>, ghost p: Pos)
    returns (ret: int, used: nat, ghost total: seq<nat>)
    requires l2.Valid() && Names(l2, pool, chains, D.ByName) && Family(parent, pool, kids) && buf !in l2.Repr && 0 < size <= buf.Length
    requires Used(l2.live, p) && l2.live[p.arr][p.slot].value.str == name && p.slot < |l2.l1[p.arr].arr| && record == l2.RecordAt(p)
    modifies buf
    ensures Answer(ret, used, total, Matching(pool, parent, name, true, D.ByName), buf, size, pool)
  {
    ghost var keep, all := Matching(pool, parent, name, true, D.ByName), [];
    var full;
    if record.number < |parent.child| {
      ExactChainListed(l2, pool, chains, parent, name, p, D.ByName);
      full, used, all := CollectChain(record.head, parent, buf, size, 0, chains[p], pool, keep, []);
      total := KeepIn(chains[p], keep);
    } else {
      KidsListed(pool, parent, kids, name, true, D.ByName);
      full, used, all := CollectChildren(parent, name, true, D.ByName, buf, size, kids, pool);
      total := KeepIn(kids, keep);
    }
    ret := if full then BUFFER_FULL else OK;
    Answered(ret, full, used, all, total, keep, buf, size, pool);
  }

  // The hash table knows the id: there is one such entry.
  method FindExactId(l2: L2Arr<Entry?>, record: Trans<Entry?>, id: string, parent: Entry, buf: array<Entry?>, size: nat,
                     ghost pool: seq<Entry>, ghost chains: Chains, ghost p: Pos)
    returns (ret: int, used: nat, ghost total: seq<nat>)
    requires l2.Valid() && Names(l2, pool, chains, D.ById) && buf !in l2.Repr && 0 < size <= buf.Length
    requires Used(l2.live, p) && l2.live[p.arr][p.slot].value.str == id && p.slot < |l2.l1[p.arr].arr| && record == l2.RecordAt(p)
    modifies buf
    ensures Answer(ret, used, total, Matching(pool, parent, id, true, D.ById), buf, size, pool)
  {
    ghost var keep, all := Matching(pool, parent, id, true, D.ById), [];
    var full;
    ExactChainListed(l2, pool, chains, parent, id, p, D.ById);
    assert chains[p][0] in chains[p];
    full, used, all := CollectTarget(record.head, parent, buf, size, 0, chains[p], pool, keep, []);
    total := KeepIn(chains[p], keep);
    ret := if full then BUFFER_FULL else OK;
    Answered(ret, full, used, all, total, keep, buf, size, pool);
  }

  // No entry has the name: search through the index or on the children, whichever costs less.
  method FindPart(l2: L2Arr<Entry?>, marked: SimpleBitmap, name: string, mode: D.Mode, parent: Entry, buf: array<Entry?>, size: nat,
                  ghost pool: seq<Entry>, ghost chains: Chains, ghost kids: seq<nat>)
    returns (ret: int, used: nat, ghost total: seq<nat>)
    requires l2.Valid() && Names(l2, pool, chains, mode) && Family(parent, pool, kids) && buf !in l2.Repr && 0 < size <= buf.Length
    requires marked.Valid()
    requires if name == "" then Ones(marked.bits) == 0 else Narrows(marked.bits, l2.live, chains, Matching(pool, parent, name, false, mode))
    modifies buf
    ensures name == "" ==> ret == OK && used == 0
    ensures name != "" ==> Answer(ret, used, total, Matching(pool, parent, name, false, mode), buf, size, pool)
  {
    ghost var keep, all := Matching(pool, parent, name, false, mode), [];
    var full;
    marked.Facts();
    if marked.ones * 100 <= |parent.child| {
      full, used, all := CollectMarked(l2, marked, name, mode, parent, buf, size, pool, chains);
      TotalListed(l2, pool, chains, parent, name, mode);
      total := Total(l2.live, chains, keep, |l2.live|);
    } else {
      KidsListed(pool, parent, kids, name, false, mode);
      full, used, all := CollectChildren(parent, name, false, mode, buf, size, kids, pool);
      total := KeepIn(kids, keep);
    }
    ret := if full then BUFFER_FULL else OK;
    if name != "" {
      Answered(ret, full, used, all, total, keep, buf, size, pool);
    }
  }

  /** The hash table knows exactly the names of the database's entries. */
  lemma KnownNames(l2: L2Arr<Entry?>, pool: seq<Entry>, chains: Chains, htab: map<string, Trans<Entry?>>, at: map<string, Pos>, name: string, mode: D.Mode)
    requires l2.Valid() && Names(l2, pool, chains, mode) && Hashed(l2, htab, at)
    ensures name in htab <==> exists e :: 0 <= e < |pool| && LabelOf(pool[e], mode) == name
  {
    hide SimpleBitmap.Valid, L2Arr.Valid;
    if name in htab {
      var p := at[name];
      assert chains[p][0] in chains[p];
    }
    if e :| 0 <= e < |pool| && LabelOf(pool[e], mode) == name {
      assert UnderArrays(l2.live, chains, |l2.live|, e);
      var a :| 0 <= a < |l2.live| && UnderSlots(l2.live, chains, a, |l2.live[a]|, e);
      var k :| 0 <= k < |l2.live[a]| && Under(l2.live, chains, a, k, e);
      assert Used(l2.live, Pos(a, k));
    }
  }

  /** Whatever the strategy: two answers to the same question list the same children, equally many. */
  lemma StrategiesAgree(s: seq<nat>, t: seq<nat>, keep: set<nat>)
    requires Listing(s, keep) && Listing(t, keep)
    ensures multiset(s) == multiset(t) && |s| == |t| == |keep|
  {
    CountsOnce(s);
    CountsOnce(t);
    forall e ensures multiset(s)[e] == multiset(t)[e] {
      assert e in s <==> e in t;
    }
    assert multiset(s) == multiset(keep) by {
      forall e ensures multiset(s)[e] == multiset(keep)[e] {
        assert e in s <==> e in keep;
      }
    }
    assert |multiset(s)| == |s| && |multiset(t)| == |t| && |multiset(keep)| == |keep|;
  }

  lemma {:induction false} CountsOnce(s: seq<nat>)
    requires Distinct(s)
    ensures forall e :: multiset(s)[e] == if e in s then 1 else 0
  {
    if s != [] {
      var init, last := s[..|s| - 1], s[|s| - 1];
      SliceDistinct(s, 0, |s| - 1);
      FoundOnce(s, |s| - 1);
      CountsOnce(init);
      assert s == init + [last];
    }
  }

  // find_children_via_file_name. If any entry of the database has the name, the children of that name;
  // otherwise the children whose name contains it.
  method FindChildrenViaFileName(l2: L2Arr<Entry?>, matrix: Matrix, htab: map<string, Trans<Entry?>>, name: string, parent: Entry,
                                 mapBuf: SimpleBitmap, mapBuf2: SimpleBitmap, buf: array<Entry?>, size: nat,
                                 ghost pool: seq<Entry>, ghost chains: Chains, ghost kids: seq<nat>, ghost at: map<string, Pos>)
    returns (ret: int, used: nat, ghost total: seq<nat>)
    requires l2.Valid() && Names(l2, pool, chains, D.ByName) && Hashed(l2, htab, at) && Family(parent, pool, kids)
    requires matrix.Valid() && 0 < |matrix.columns| && '\0' !in name && Covers(matrix.views, matrix.maxLength, l2.live)
    requires mapBuf.Valid() && mapBuf2.Valid() && mapBuf != mapBuf2 && mapBuf.base != mapBuf2.base
    requires {mapBuf, mapBuf.base, mapBuf2, mapBuf2.base} !! matrix.Repr + l2.Repr
    requires buf !in l2.Repr && size <= buf.Length
    modifies mapBuf, mapBuf.base, mapBuf2, mapBuf2.base, buf
    ensures size == 0 ==> ret == WRONG_ARGS
    ensures size > 0 && parent.child == [] ==> ret == OK && used == 0
    ensures size > 0 && parent.child != [] && name in htab ==> Answer(ret, used, total, Matching(pool, parent, name, true, D.ByName), buf, size, pool)
    ensures size > 0 && parent.child != [] && name !in htab && |name| > |matrix.columns| ==> ret == VERIFY_FAIL && used == 0
    ensures size > 0 && parent.child != [] && name !in htab && name == "" ==> ret == OK && used == 0
    ensures size > 0 && parent.child != [] && name !in htab && 0 < |name| <= |matrix.columns| ==>
      Answer(ret, used, total, Matching(pool, parent, name, false, D.ByName), buf, size, pool)
  {
    hide Names, Covers, Family, Answer, Matching;
    used, total := 0, [];
    if size == 0 {
      return WRONG_ARGS, 0, [];
    }
    if |parent.child| == 0 {
      return OK, 0, [];
    }
    if name in htab {
      ret, used, total := FindExact(l2, htab[name], name, parent, buf, size, pool, chains, kids, at[name]);
    } else {
      ret := QueryNames(l2, matrix, name, D.ByName, parent, mapBuf, mapBuf2, pool, chains);
      if ret != OK {
        return;
      }
      ret, used, total := FindPart(l2, mapBuf2, name, D.ByName, parent, buf, size, pool, chains, kids);
    }
  }

  // The maps are made as long as the map of the pool's arrays. Where that takes no further block the source hands on
  // a pointer it never set.
  method GrowMaps(l2: L2Arr<Entry?>, mapBuf: SimpleBitmap, mapBuf2: SimpleBitmap)
    requires l2.Valid() && mapBuf.Valid() && mapBuf2.Valid() && mapBuf != mapBuf2 && mapBuf.base != mapBuf2.base
    requires {mapBuf, mapBuf.base, mapBuf2, mapBuf2.base} !! l2.Repr
    requires Growable(mapBuf.length, l2.l1Map.length) && Growable(mapBuf2.length, l2.l1Map.length)
    modifies mapBuf, mapBuf.base, mapBuf2, mapBuf2.base
    ensures mapBuf.Valid() && mapBuf2.Valid() && mapBuf.base != mapBuf2.base
    ensures (mapBuf.base == old(mapBuf.base) || fresh(mapBuf.base)) && (mapBuf2.base == old(mapBuf2.base) || fresh(mapBuf2.base))
  {
    var length := l2.l1Map.length;
    var _ := mapBuf.FfpGrow(length);
    var _ := mapBuf2.FfpGrow(length);
  }

  predicate Growable(length: nat, needed: nat) {
    needed <= length || BlockNumber(needed) != BlockNumber(length)
  }

  // The maps grown, then the query
  method QueryIds(l2: L2Arr<Entry?>, matrix: Matrix, id: string, parent: Entry, mapBuf: SimpleBitmap, marked: SimpleBitmap,
                  ghost pool: seq<Entry>, ghost chains: Chains)
    returns (ret: int)
    requires matrix.Valid() && 0 < |matrix.columns| && '\0' !in id && l2.Valid() && Names(l2, pool, chains, D.ById)
    requires Covers(matrix.views, matrix.maxLength, l2.live)
    requires mapBuf.Valid() && marked.Valid() && mapBuf != marked && mapBuf.base != marked.base
    requires {mapBuf, mapBuf.base, marked, marked.base} !! matrix.Repr + l2.Repr
    requires Growable(mapBuf.length, l2.l1Map.length) && Growable(marked.length, l2.l1Map.length)
    modifies mapBuf, mapBuf.base, marked, marked.base
    ensures mapBuf.Valid() && marked.Valid()
    ensures ret == if |id| > |matrix.columns| then VERIFY_FAIL else OK
    ensures ret == OK && id == "" ==> Ones(marked.bits) == 0
    ensures ret == OK && id != "" ==> Narrows(marked.bits, l2.live, chains, Matching(pool, parent, id, false, D.ById))
  {
    hide Names, Covers, Matching, Narrows, Ones;
    GrowMaps(l2, mapBuf, marked);
    ret := QueryNames(l2, matrix, id, D.ById, parent, mapBuf, marked, pool, chains);
  }

  // find_children_via_entry_id_part. If the database knows the id, the entry with that id if it is a child;
  // otherwise the children whose id contains the text.
  method FindChildrenViaEntryIdPart(l2: L2Arr<Entry?>, matrix: Matrix, htab: map<string, Trans<Entry?>>, id: string, parent: Entry,
                                    mapBuf: SimpleBitmap, mapBuf2: SimpleBitmap, buf: array<Entry?>, size: nat,
                                    ghost pool: seq<Entry>, ghost chains: Chains, ghost kids: seq<nat>, ghost at: map<string, Pos>)
    returns (ret: int, used: nat, ghost total: seq<nat>)
    requires l2.Valid() && Names(l2, pool, chains, D.ById) && Hashed(l2, htab, at) && Family(parent, pool, kids)
    requires matrix.Valid() && 0 < |matrix.columns| && '\0' !in id && Covers(matrix.views, matrix.maxLength, l2.live)
    requires mapBuf.Valid() && mapBuf2.Valid() && mapBuf != mapBuf2 && mapBuf.base != mapBuf2.base
    requires {mapBuf, mapBuf.base, mapBuf2, mapBuf2.base} !! matrix.Repr + l2.Repr
    requires Growable(mapBuf.length, l2.l1Map.length) && Growable(mapBuf2.length, l2.l1Map.length)
    requires buf !in l2.Repr && size <= buf.Length
    modifies mapBuf, mapBuf.base, mapBuf2, mapBuf2.base, buf
    ensures size == 0 ==> ret == WRONG_ARGS
    ensures size > 0 && parent.child == [] ==> ret == OK && used == 0
    ensures size > 0 && parent.child != [] && id in htab ==> Answer(ret, used, total, Matching(pool, parent, id, true, D.ById), buf, size, pool)
    ensures size > 0 && parent.child != [] && id !in htab && |id| > |matrix.columns| ==> ret == VERIFY_FAIL && used == 0
    ensures size > 0 && parent.child != [] && id !in htab && id == "" ==> ret == OK && used == 0
    ensures size > 0 && parent.child != [] && id !in htab && 0 < |id| <= |matrix.columns| ==>
      Answer(ret, used, total, Matching(pool, parent, id, false, D.ById), buf, size, pool)
  {
    hide Names, Covers, Family, Answer, Matching;
    used, total := 0, [];
    if size == 0 {
      return WRONG_ARGS, 0, [];
    }
    if |parent.child| == 0 {
      return OK, 0, [];
    }
    if id in htab {
      ret, used, total := FindExactId(l2, htab[id], id, parent, buf, size, pool, chains, at[id]);
    } else {
      ret := QueryIds(l2, matrix, id, parent, mapBuf, mapBuf2, pool, chains);
      if ret != OK {
        return;
      }
      ret, used, total := FindPart(l2, mapBuf2, id, D.ById, parent, buf, size, pool, chains, kids);
    }
  }
}
