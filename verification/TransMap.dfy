/** From a map of layer 1 arrays of translation records to a map of the entries the matching records lead to. */
module TransMap {
  import opened Util
  import opened Codes
  import opened Block
  import opened BitSeq
  import opened Bitmap
  import opened BitmapSearch
  import opened Strings
  import opened ExistMat
  import opened IndexSpec
  import opened PartMap
  import opened Layer2
  import opened PartLookup

  /** What is filed under a translation record: a list of items, each leading to an entry by its pool index. */
  class Item {
    var next: Item?
    var entry: nat

    constructor (entry: nat)
      ensures this.entry == entry && next == null
    {
      this.entry, next := entry, null;
    }
  }

  /** The list from `head` runs through `list`, whose items lead to the entries `targets`. */
  ghost predicate Leads(head: Item?, list: seq<Item>, targets: seq<nat>)
    reads list
  {
    |targets| == |list| && head == (if list == [] then null else list[0])
    && forall k :: 0 <= k < |list| ==>
         list[k].entry == targets[k] && list[k].next == if k + 1 < |list| then list[k + 1] else null
  }

  type Lists = map<Pos, seq<Item>>
  type Targets = map<Pos, seq<nat>>

  ghost predicate Used(live: Live, p: Pos) {
    p.arr < |live| && p.slot < |live[p.arr]| && live[p.arr][p.slot].Some?
  }

  /** Every used record has its list. */
  ghost predicate Filed(l2: L2Arr<Item?>, items: set<Item>, lists: Lists, targets: Targets)
    reads l2, l2.Repr, items
    requires l2.Valid()
  {
    forall p :: Used(l2.live, p) ==>
      assert Array(p.arr);
      assert p.slot < |l2.l1[p.arr].arr| && l2.RecordAt(p) in Layer2.Footprint(l2.l1[p.arr]);
      p in lists && p in targets && (forall x :: x in lists[p] ==> x in items)
      && p.slot < |l2.l1[p.arr].arr| && Leads(l2.RecordAt(p).head, lists[p], targets[p])
  }

  /** Slot `k` of array `a` contains `part` and leads to entry `e`. */
  ghost predicate SlotLeads(live: Live, targets: Targets, part: string, a: int, k: int, e: int) {
    0 <= a < |live| && 0 <= k < |live[a]| && live[a][k].Some? && Contains(live[a][k].value.str, part)
    && Pos(a, k) in targets && e in targets[Pos(a, k)]
  }

  ghost predicate SlotsLead(live: Live, targets: Targets, part: string, a: int, n: int, e: int) {
    exists k :: 0 <= k < n && SlotLeads(live, targets, part, a, k, e)
  }

  /** Some marked array before `n` leads to entry `e`. */
  ghost predicate MarkedLead(live: Live, targets: Targets, part: string, marked: seq<bool>, n: int, e: int) {
    exists a :: 0 <= a < n && At(marked, a) && 0 <= a < |live| && SlotsLead(live, targets, part, a, |live[a]|, e)
  }

  /** The entry map holds what it held at the start and what the slots before `n` lead to. */
  ghost predicate SlotsDone(bits: seq<bool>, start: seq<bool>, live: Live, targets: Targets, part: string, a: int, n: int) {
    forall e :: At(bits, e) <==> At(start, e) || SlotsLead(live, targets, part, a, n, e)
  }

  /** The same for the marked arrays before `n`. */
  ghost predicate ArraysDone(bits: seq<bool>, start: seq<bool>, live: Live, targets: Targets, part: string, marked: seq<bool>, n: int) {
    forall e :: At(bits, e) <==> At(start, e) || MarkedLead(live, targets, part, marked, n, e)
  }

  // The chain walk: every item's entry is marked, the map growing as needed.
  method MarkChain(head: Item?, entryMap: SimpleBitmap, ghost list: seq<Item>, ghost targets: seq<nat>)
    requires entryMap.Valid() && Leads(head, list, targets)
    modifies entryMap, entryMap.base
    ensures entryMap.Valid() && (entryMap.base == old(entryMap.base) || fresh(entryMap.base))
    ensures forall e :: At(entryMap.bits, e) <==> At(old(entryMap.bits), e) || e in targets
  {
    var item := head;
    ghost var k := 0;
    while item != null
      invariant Leads(head, list, targets)
      invariant 0 <= k <= |list| && item == if k < |list| then list[k] else null
      invariant entryMap.Valid() && (entryMap.base == old(entryMap.base) || fresh(entryMap.base))
      invariant forall e :: At(entryMap.bits, e) <==> At(old(entryMap.bits), e) || e in targets[..k]
      decreases |list| - k
    {
      assert item.entry == targets[k] && item.next == if k + 1 < |list| then list[k + 1] else null;
      MarkEntry(entryMap, item.entry);
      assert targets[..k + 1] == targets[..k] + [targets[k]];
      item := item.next;
      k := k + 1;
    }
    assert targets[..k] == targets;
  }

  method MarkEntry(entryMap: SimpleBitmap, e: nat)
    requires entryMap.Valid()
    modifies entryMap, entryMap.base
    ensures entryMap.Valid() && (entryMap.base == old(entryMap.base) || fresh(entryMap.base))
    ensures forall i :: At(entryMap.bits, i) <==> At(old(entryMap.bits), i) || i == e
  {
    var _ := entryMap.FfpGrow(e + 1);
    var _ := entryMap.Write(e, true);
  }

  // One used slot of the array
  method MarkSlot(l2: L2Arr<Item?>, a: nat, k: nat, part: string, entryMap: SimpleBitmap, ghost items: set<Item>, ghost lists: Lists, ghost targets: Targets)
    requires l2.Valid() && Filed(l2, items, lists, targets) && Used(l2.live, Pos(a, k))
    requires entryMap.Valid() && entryMap !in l2.Repr && entryMap.base !in l2.Repr
    modifies entryMap, entryMap.base
    ensures entryMap.Valid() && (entryMap.base == old(entryMap.base) || fresh(entryMap.base))
    ensures forall e :: At(entryMap.bits, e) <==> At(old(entryMap.bits), e) || SlotLeads(l2.live, targets, part, a, k, e)
  {
    l2.UsageFacts(a);
    var record := l2.l1[a].arr[k];
    assert l2.live[a][k] == Some(record.Value()) && record == l2.RecordAt(Pos(a, k));
    if Contains(record.str, part) {
      MarkChain(record.head, entryMap, lists[Pos(a, k)], targets[Pos(a, k)]);
    }
  }

  // The loop over the used slots of an array
  method MarkSlots(l2: L2Arr<Item?>, a: nat, part: string, entryMap: SimpleBitmap, ghost items: set<Item>, ghost lists: Lists, ghost targets: Targets)
    requires l2.Valid() && Filed(l2, items, lists, targets) && a < |l2.live|
    requires entryMap.Valid() && entryMap !in l2.Repr && entryMap.base !in l2.Repr
    modifies entryMap, entryMap.base
    ensures entryMap.Valid() && (entryMap.base == old(entryMap.base) || fresh(entryMap.base))
    ensures SlotsDone(entryMap.bits, old(entryMap.bits), l2.live, targets, part, a, |l2.live[a]|)
  {
    l2.UsageFacts(a);
    ghost var live, bits := l2.live, l2.l1[a].usage.bits;
    var skip: nat := 0;
    for j := 0 to l2.l1[a].usage.ones
      invariant skip <= |bits| && Ones(bits[..skip]) == j
      invariant Filed(l2, items, lists, targets)
      invariant entryMap.Valid() && (entryMap.base == old(entryMap.base) || fresh(entryMap.base))
      invariant SlotsDone(entryMap.bits, old(entryMap.bits), live, targets, part, a, skip)
    {
      skip := MarkNext(l2, a, j, skip, part, entryMap, items, lists, targets, old(entryMap.bits));
    }
    NoMoreSlots(live, targets, part, a, skip, bits);
  }

  // The next used slot; `start` is the content of the entry map before the first one.
  method MarkNext(l2: L2Arr<Item?>, a: nat, ghost j: nat, skip: nat, part: string, entryMap: SimpleBitmap,
                  ghost items: set<Item>, ghost lists: Lists, ghost targets: Targets, ghost start: seq<bool>)
    returns (next: nat)
    requires l2.Valid() && Filed(l2, items, lists, targets) && a < |l2.live|
    requires var bits := l2.l1[a].usage.bits; skip <= |bits| && Ones(bits[..skip]) == j < Ones(bits)
    requires entryMap.Valid() && entryMap !in l2.Repr && entryMap.base !in l2.Repr
    requires SlotsDone(entryMap.bits, start, l2.live, targets, part, a, skip)
    modifies entryMap, entryMap.base
    ensures entryMap.Valid() && (entryMap.base == old(entryMap.base) || fresh(entryMap.base))
    ensures var bits := l2.l1[a].usage.bits; next <= |bits| && Ones(bits[..next]) == j + 1
    ensures SlotsDone(entryMap.bits, start, l2.live, targets, part, a, next)
  {
    hide SimpleBitmap.Valid, Filed, SlotsLead, Ones;
    l2.UsageFacts(a);
    var k := NextOne(l2.l1[a].usage, j, skip);
    SlotsLeadStep(l2.live, targets, part, a, skip, k);
    MarkSlot(l2, a, k, part, entryMap, items, lists, targets);
    next := k + 1;
  }

  lemma SlotsLeadStep(live: Live, targets: Targets, part: string, a: nat, skip: nat, k: nat)
    requires a < |live| && skip <= k < |live[a]| && forall m :: skip <= m < k ==> live[a][m].None?
    ensures forall e :: SlotsLead(live, targets, part, a, k + 1, e) <==>
                        SlotsLead(live, targets, part, a, skip, e) || SlotLeads(live, targets, part, a, k, e)
  {
    forall e ensures SlotsLead(live, targets, part, a, k + 1, e) ==>
                     SlotsLead(live, targets, part, a, skip, e) || SlotLeads(live, targets, part, a, k, e) {
      if SlotsLead(live, targets, part, a, k + 1, e) {
        var m :| 0 <= m < k + 1 && SlotLeads(live, targets, part, a, m, e);
      }
    }
  }

  lemma NoMoreSlots(live: Live, targets: Targets, part: string, a: nat, skip: nat, bits: seq<bool>)
    requires a < |live| && skip <= |bits| == |live[a]| && Ones(bits[..skip]) == Ones(bits)
    requires forall k :: 0 <= k < |bits| ==> bits[k] == live[a][k].Some?
    ensures forall e :: SlotsLead(live, targets, part, a, |live[a]|, e) <==> SlotsLead(live, targets, part, a, skip, e)
  {
    OnesPositive(bits, skip);
    forall e | SlotsLead(live, targets, part, a, |live[a]|, e) ensures SlotsLead(live, targets, part, a, skip, e) {
      var m :| 0 <= m < |live[a]| && SlotLeads(live, targets, part, a, m, e);
      assert bits[m];
    }
  }

  // The next marked array
  method MarkNextArray(l2: L2Arr<Item?>, transMap: SimpleBitmap, ghost i: nat, skip: nat, entryMap: SimpleBitmap, part: string,
                       ghost items: set<Item>, ghost lists: Lists, ghost targets: Targets, ghost start: seq<bool>)
    returns (next: nat)
    requires l2.Valid() && Filed(l2, items, lists, targets) && transMap.Valid() && transMap != entryMap && transMap.base != entryMap.base
    requires forall a :: At(transMap.bits, a) ==> a < |l2.live|
    requires skip <= |transMap.bits| && Ones(transMap.bits[..skip]) == i < Ones(transMap.bits)
    requires entryMap.Valid() && entryMap !in l2.Repr && entryMap.base !in l2.Repr
    requires ArraysDone(entryMap.bits, start, l2.live, targets, part, transMap.bits, skip)
    modifies entryMap, entryMap.base
    ensures entryMap.Valid() && (entryMap.base == old(entryMap.base) || fresh(entryMap.base))
    ensures next <= |transMap.bits| && Ones(transMap.bits[..next]) == i + 1
    ensures ArraysDone(entryMap.bits, start, l2.live, targets, part, transMap.bits, next)
  {
    var a := NextOne(transMap, i, skip);
    assert At(transMap.bits, a);
    MarkedLeadStep(l2.live, targets, part, transMap.bits, skip, a);
    MarkSlots(l2, a, part, entryMap, items, lists, targets);
    next := a + 1;
  }

  // part_name_trans_map_to_entry_map: adds to what the entry map already holds.
  method NameTransMapToEntryMap(l2: L2Arr<Item?>, transMap: SimpleBitmap, entryMap: SimpleBitmap, part: string,
                                ghost items: set<Item>, ghost lists: Lists, ghost targets: Targets)
    requires l2.Valid() && Filed(l2, items, lists, targets) && transMap.Valid() && transMap != entryMap && transMap.base != entryMap.base
    requires forall a :: At(transMap.bits, a) ==> a < |l2.live|
    requires entryMap.Valid() && entryMap !in l2.Repr && entryMap.base !in l2.Repr
    modifies entryMap, entryMap.base
    ensures entryMap.Valid() && (entryMap.base == old(entryMap.base) || fresh(entryMap.base))
    ensures ArraysDone(entryMap.bits, old(entryMap.bits), l2.live, targets, part, transMap.bits, |transMap.bits|)
  {
    ghost var live, bits := l2.live, transMap.bits;
    var skip: nat := 0;
    transMap.Facts();
    for i := 0 to transMap.ones
      invariant skip <= |bits| && Ones(bits[..skip]) == i
      invariant Filed(l2, items, lists, targets)
      invariant entryMap.Valid() && (entryMap.base == old(entryMap.base) || fresh(entryMap.base))
      invariant ArraysDone(entryMap.bits, old(entryMap.bits), live, targets, part, bits, skip)
    {
      skip := MarkNextArray(l2, transMap, i, skip, entryMap, part, items, lists, targets, old(entryMap.bits));
    }
    NoMoreMarked(live, targets, part, bits, skip);
  }

  lemma MarkedLeadStep(live: Live, targets: Targets, part: string, bits: seq<bool>, skip: nat, a: nat)
    requires IsFirst(bits, true, skip, a) && a < |live|
    ensures forall e :: MarkedLead(live, targets, part, bits, a + 1, e) <==>
                        MarkedLead(live, targets, part, bits, skip, e) || SlotsLead(live, targets, part, a, |live[a]|, e)
  {
    assert At(bits, a);
    forall e | MarkedLead(live, targets, part, bits, a + 1, e)
      ensures MarkedLead(live, targets, part, bits, skip, e) || SlotsLead(live, targets, part, a, |live[a]|, e)
    {
      var b :| 0 <= b < a + 1 && At(bits, b) && 0 <= b < |live| && SlotsLead(live, targets, part, b, |live[b]|, e);
    }
  }

  lemma NoMoreMarked(live: Live, targets: Targets, part: string, bits: seq<bool>, skip: nat)
    requires skip <= |bits| && Ones(bits[..skip]) == Ones(bits)
    ensures forall e :: MarkedLead(live, targets, part, bits, |bits|, e) <==> MarkedLead(live, targets, part, bits, skip, e)
  {
    OnesPositive(bits, skip);
    forall e | MarkedLead(live, targets, part, bits, |bits|, e) ensures MarkedLead(live, targets, part, bits, skip, e) {
      var b :| 0 <= b < |bits| && At(bits, b) && 0 <= b < |live| && SlotsLead(live, targets, part, b, |live[b]|, e);
      assert bits[b];
    }
  }

  // part_f_sha1_trans_map_to_entry_map and its siblings: the entry map is cleared first.
  method TransMapToEntryMap(l2: L2Arr<Item?>, transMap: SimpleBitmap, entryMap: SimpleBitmap, part: string,
                            ghost items: set<Item>, ghost lists: Lists, ghost targets: Targets)
    requires l2.Valid() && Filed(l2, items, lists, targets) && transMap.Valid() && transMap != entryMap && transMap.base != entryMap.base
    requires forall a :: At(transMap.bits, a) ==> a < |l2.live|
    requires entryMap.Valid() && entryMap !in l2.Repr && entryMap.base !in l2.Repr
    modifies entryMap, entryMap.base
    ensures entryMap.Valid() && (entryMap.base == old(entryMap.base) || fresh(entryMap.base))
    ensures forall e :: At(entryMap.bits, e) <==> MarkedLead(l2.live, targets, part, transMap.bits, |transMap.bits|, e)
  {
    entryMap.Zero();
    NameTransMapToEntryMap(l2, transMap, entryMap, part, items, lists, targets);
  }

  /** Some stored string containing `part` leads to entry `e`. */
  ghost predicate NaiveLead(live: Live, targets: Targets, part: string, e: int) {
    exists p :: Used(live, p) && Contains(live[p.arr][p.slot].value.str, part) && p in targets && e in targets[p]
  }

  /** On a map of arrays from the map phase, the conversion reaches exactly the entries of all stored
      strings that contain `part`: pruning by the matrix loses none. */
  lemma PrunedIsNaive(live: Live, targets: Targets, part: string, bits: seq<bool>, e: int)
    requires Prunes(bits, live, part, -1, -1)
    ensures MarkedLead(live, targets, part, bits, |bits|, e) <==> NaiveLead(live, targets, part, e)
  {
    if MarkedLead(live, targets, part, bits, |bits|, e) {
      var a :| 0 <= a < |bits| && At(bits, a) && 0 <= a < |live| && SlotsLead(live, targets, part, a, |live[a]|, e);
      var k :| 0 <= k < |live[a]| && SlotLeads(live, targets, part, a, k, e);
      assert Used(live, Pos(a, k));
    }
    if NaiveLead(live, targets, part, e) {
      var p :| Used(live, p) && Contains(live[p.arr][p.slot].value.str, part) && p in targets && e in targets[p];
      var slots := live[p.arr];
      UnboundedIsContains(slots[p.slot].value.str, part);
      ScanSlotsExact(slots, p.arr, |slots|, part, -1, -1);
      assert p in ScanSlots(slots, p.arr, |slots|, part, -1, -1);
      assert At(bits, p.arr);
      assert SlotLeads(live, targets, part, p.arr, p.slot, e);
      assert SlotsLead(live, targets, part, p.arr, |slots|, e);
    }
  }
}
