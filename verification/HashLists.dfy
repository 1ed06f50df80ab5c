/** The two linked lists of `uthash.h` that an element is in: its bucket's chain, and the list of all elements
    in the order they were added. */
module HashLists {
  import opened Lists

  /** An element with its `UT_hash_handle`. The hash value, computed when the element is added, depends on the
      key alone. */
  class Handle {
    const key: string
    const hashv: nat
    var prev: Handle?
    var next: Handle?
    var hhPrev: Handle?
    var hhNext: Handle?

    constructor (key: string, hashv: nat)
      ensures this.key == key && this.hashv == hashv
    {
      this.key, this.hashv := key, hashv;
      prev, next, hhPrev, hhNext := null, null, null, null;
    }
  }

  function First(s: seq<Handle>): Handle? {
    if s == [] then null else s[0]
  }

  function Last(s: seq<Handle>): Handle? {
    if s == [] then null else s[|s| - 1]
  }

  /** What comes after place `k`. */
  function After(s: seq<Handle>, k: nat): Handle?
    requires k < |s|
  {
    if k + 1 < |s| then s[k + 1] else null
  }

  function Before(s: seq<Handle>, k: nat): Handle?
    requires k < |s|
  {
    if k == 0 then null else s[k - 1]
  }

  function Remove(s: seq<Handle>, p: nat): seq<Handle>
    requires p < |s|
  {
    s[..p] + s[p + 1..]
  }

  lemma RemovedAt(s: seq<Handle>, p: nat)
    requires p < |s|
    ensures |Remove(s, p)| == |s| - 1 && forall k :: 0 <= k < |s| - 1 ==> Remove(s, p)[k] == s[if k < p then k else k + 1]
  {
  }

  lemma RemovedMembers(s: seq<Handle>, p: nat)
    requires p < |s| && Distinct(s)
    ensures Distinct(Remove(s, p)) && forall h :: h in Remove(s, p) <==> h in s && h != s[p]
  {
    RemovedAt(s, p);
    var r := Remove(s, p);
    forall i, j | 0 <= i < j < |r| ensures r[i] != r[j] {
      assert Place(if i < p then i else i + 1) && Place(if j < p then j else j + 1);
    }
    forall h | h in r ensures h in s && h != s[p] {
      var k :| 0 <= k < |r| && r[k] == h;
      assert Place(if k < p then k else k + 1) && Place(p);
    }
    forall h | h in s && h != s[p] ensures h in r {
      var k :| 0 <= k < |s| && s[k] == h;
      assert r[if k < p then k else k - 1] == h;
    }
  }

  lemma PushedMembers(s: seq<Handle>, h: Handle)
    requires Distinct(s) && h !in s
    ensures Distinct([h] + s)
  {
    forall i, j | 0 <= i < j < |[h] + s| ensures ([h] + s)[i] != ([h] + s)[j] {
      assert Place(i - 1) && Place(j - 1);
    }
  }

  lemma AppendedMembers(s: seq<Handle>, h: Handle)
    requires Distinct(s) && h !in s
    ensures Distinct(s + [h])
  {
    forall i, j | 0 <= i < j < |s + [h]| ensures (s + [h])[i] != (s + [h])[j] {
      assert Place(i) && Place(j);
    }
  }

  // ---------------------------------------------------------------------
  // A bucket's chain

  /** `chain` hangs from a bucket's head. */
  ghost predicate Hangs(head: Handle?, chain: seq<Handle>)
    reads chain`hhPrev, chain`hhNext
  {
    head == First(chain)
    && forall k {:trigger Place(k)} :: Place(k) && 0 <= k < |chain| ==> chain[k].hhPrev == Before(chain, k) && chain[k].hhNext == After(chain, k)
  }

  // The linking in HASH_ADD_TO_BKT
  method PushFront(head: Handle?, h: Handle, ghost chain: seq<Handle>) returns (newHead: Handle)
    requires Hangs(head, chain) && h !in chain
    modifies h`hhPrev, h`hhNext, chain`hhPrev
    ensures newHead == h && Hangs(newHead, [h] + chain)
  {
    assert Place(0);
    h.hhNext := head;
    h.hhPrev := null;
    if head != null {
      head.hhPrev := h;
    }
    newHead := h;
    ghost var s := [h] + chain;
    forall k {:trigger Place(k)} | Place(k) && 0 <= k < |s| ensures s[k].hhPrev == Before(s, k) && s[k].hhNext == After(s, k) {
      assert Place(k - 1) && Place(0);
    }
  }

  // The linking in HASH_DEL_IN_BKT
  method Unhook(head: Handle?, h: Handle, ghost chain: seq<Handle>, ghost p: nat) returns (newHead: Handle?)
    requires Hangs(head, chain) && Distinct(chain) && p < |chain| && chain[p] == h
    modifies chain`hhPrev, chain`hhNext
    ensures Hangs(newHead, Remove(chain, p))
  {
    assert Place(p) && Place(p - 1) && Place(p + 1) && Place(0);
    newHead := head;
    if newHead == h {
      newHead := h.hhNext;
    }
    if h.hhPrev != null {
      h.hhPrev.hhNext := h.hhNext;
    }
    if h.hhNext != null {
      h.hhNext.hhPrev := h.hhPrev;
    }
    RemovedAt(chain, p);
    ghost var s := Remove(chain, p);
    forall k {:trigger Place(k)} | Place(k) && 0 <= k < |s| ensures s[k].hhPrev == Before(s, k) && s[k].hhNext == After(s, k) {
      assert Place(if k < p then k else k + 1);
    }
  }

  // HASH_FIND_IN_BKT
  method FindInBkt(head: Handle?, key: string, ghost chain: seq<Handle>) returns (out: Handle?)
    requires Hangs(head, chain)
    ensures out == null ==> forall h :: h in chain ==> h.key != key
    ensures out != null ==> out in chain && out.key == key
  {
    out := head;
    ghost var i := 0;
    assert Place(0);
    while out != null
      invariant 0 <= i <= |chain| && out == (if i < |chain| then chain[i] else null)
      invariant forall k :: 0 <= k < i ==> chain[k].key != key
      decreases |chain| - i
    {
      if |out.key| == |key| {
        if out.key == key {
          break;
        }
      }
      assert Place(i);
      if out.hhNext != null {
        out := out.hhNext;
      } else {
        out := null;
      }
      i := i + 1;
    }
  }

  // ---------------------------------------------------------------------
  // The list of all elements

  ghost predicate Threads(head: Handle?, tail: Handle?, list: seq<Handle>)
    reads list`prev, list`next
  {
    head == First(list) && tail == Last(list)
    && forall k {:trigger Place(k)} :: Place(k) && 0 <= k < |list| ==> list[k].prev == Before(list, k) && list[k].next == After(list, k)
  }

  // The linking in HASH_ADD_KEYPTR, when there is a table
  method AppendTail(head: Handle, tail: Handle, h: Handle, ghost list: seq<Handle>)
    requires list != [] && Threads(head, tail, list) && h !in list && h.next == null
    modifies h`prev, list`next
    ensures Threads(head, h, list + [h])
  {
    tail.next := h;
    h.prev := tail;
    ghost var s := list + [h];
    forall k {:trigger Place(k)} | Place(k) && 0 <= k < |s| ensures s[k].prev == Before(s, k) && s[k].next == After(s, k) {
      assert Place(|list| - 1);
    }
  }

  // The linking in HASH_DELETE, for an element that is not the only one
  method Unthread(head: Handle, tail: Handle, h: Handle, ghost list: seq<Handle>, ghost p: nat) returns (newHead: Handle?, newTail: Handle?)
    requires Threads(head, tail, list) && Distinct(list) && p < |list| && list[p] == h && 1 < |list|
    modifies list`prev, list`next
    ensures Threads(newHead, newTail, Remove(list, p))
  {
    assert Place(p) && Place(p - 1) && Place(p + 1) && Place(0) && Place(|list| - 1);
    newHead, newTail := head, tail;
    if h == newTail {
      newTail := h.prev;
    }
    if h.prev != null {
      h.prev.next := h.next;
    } else {
      newHead := h.next;
    }
    if h.next != null {
      h.next.prev := h.prev;
    }
    RemovedAt(list, p);
    ghost var s := Remove(list, p);
    forall k {:trigger Place(k)} | Place(k) && 0 <= k < |s| ensures s[k].prev == Before(s, k) && s[k].next == After(s, k) {
      assert Place(if k < p then k else k + 1);
    }
  }
}
