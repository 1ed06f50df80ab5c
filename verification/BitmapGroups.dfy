/** The continuous-group searches of `simple_bitmap`: a run of equal bits found forward or backward. */
module BitmapGroups {
  import opened Codes
  import opened Block
  import opened BitSeq
  import opened Bitmap
  import opened BitmapSearch

  /** The run of `v` from `start` of length `n` that goes as far right as the blocks reach, the places past
      the last bit reading as 0. */
  ghost predicate RunRight(s: seq<bool>, v: bool, start: int, n: nat) {
    (forall i :: start <= i < start + n ==> At(s, i) == v)
    && start + n <= 64 * BlockNumber(|s|)
    && (start + n == 64 * BlockNumber(|s|) || At(s, start + n) != v)
  }

  /** The run of `v` of length `n` ending at `last` that goes as far left as possible. */
  ghost predicate RunLeft(s: seq<bool>, v: bool, last: int, n: nat) {
    n <= last + 1
    && (forall i :: last - n < i <= last ==> At(s, i) == v)
    && (n == last + 1 || At(s, last - n) != v)
  }

  /** A run inside the sequence that cannot be extended to the right. */
  ghost predicate MaximalRun(s: seq<bool>, v: bool, start: int, n: nat) {
    0 <= start && start + n <= |s|
    && (forall i :: start <= i < start + n ==> s[i] == v)
    && (start + n == |s| || s[start + n] != v)
  }

  // bitmap_first_one_cont_group, bitmap_first_zero_cont_group
  method FirstGroup(bm: SimpleBitmap, v: bool, skip: nat) returns (code: int, start: nat, length: nat)
    requires bm.Valid()
    ensures skip >= bm.length ==> code == WRONG_INPUT
    ensures skip < bm.length ==> code == OK || code == SEARCH_FAIL
    ensures code == OK ==> IsFirst(bm.bits, v, skip, start) && RunRight(bm.bits, v, start, length)
    ensures code == SEARCH_FAIL ==> forall i :: skip <= i < bm.length ==> bm.bits[i] != v
  {
    length := 0;
    if skip >= bm.length {
      return WRONG_INPUT, 0, 0;
    }
    var cur, passed, buf := LocateForward(bm, v, skip);
    assert forall i :: 0 <= i < bm.length ==> At(bm.bits, i) == bm.bits[i];
    start := cur * 64 + passed;
    if start >= bm.length {
      return SEARCH_FAIL, start, 0;
    }
    code := OK;
    length := ExtendRight(bm, v, cur, passed, buf);
  }

  // The counting loop of the forward group searches
  method ExtendRight(bm: SimpleBitmap, v: bool, from: nat, place: nat, content: Block) returns (length: nat)
    requires bm.Valid() && from <= bm.end && place < 64 && content == Shl(bm.base[from], place)
    ensures RunRight(bm.bits, v, 64 * from + place, length)
  {
    var start := 64 * from + place;
    var cur, passed, buf := from, place, content;
    length := 0;
    while cur <= bm.end
      invariant 0 <= passed < 64 && cur <= bm.end + 1
      invariant start + length == 64 * cur + passed
      invariant passed > 0 ==> cur <= bm.end && buf == Shl(bm.base[cur], passed)
      invariant forall i :: start <= i < start + length ==> At(bm.bits, i) == v
    {
      if passed == 0 {
        buf := bm.base[cur];
      }
      var run, rest := CountLeading(buf, !v, 64 - passed);
      RunIn(bm.base[..bm.end + 1], bm.bits, v, cur, passed, run, buf);
      length := length + run;
      if run + passed != 64 {
        break;
      }
      passed := 0;
      cur := cur + 1;
    }
  }

  /** `run` leading places of a shifted block hold `v`, and the next one, if the block has one, does not. */
  lemma RunIn(blocks: seq<Block>, bits: seq<bool>, v: bool, b: nat, passed: nat, run: nat, buf: Block)
    requires Packed(blocks, bits) && b < |blocks| && passed + run <= 64
    requires forall j :: 0 <= j < 64 - passed ==> buf[j] == blocks[b][j + passed]
    requires forall j :: 0 <= j < run ==> buf[j] == v
    requires run < 64 - passed ==> buf[run] != v
    ensures forall i :: 64 * b + passed <= i < 64 * b + passed + run ==> At(bits, i) == v
    ensures passed + run < 64 ==> At(bits, 64 * b + passed + run) != v
  {
    forall i | 64 * b + passed <= i < 64 * b + passed + run ensures At(bits, i) == v {
      assert buf[i - 64 * b - passed] == blocks[b][i - 64 * b - passed + passed];
      BlockAt(blocks, bits, b, i - 64 * b);
    }
    if passed + run < 64 {
      assert buf[run] == blocks[b][run + passed];
      BlockAt(blocks, bits, b, run + passed);
    }
  }

  // bitmap_first_one_cont_group_back, bitmap_first_zero_cont_group_back
  method FirstGroupBack(bm: SimpleBitmap, v: bool, skip: nat) returns (code: int, start: int, length: nat)
    requires bm.Valid()
    ensures skip >= bm.length ==> code == WRONG_INPUT
    ensures skip < bm.length ==> code == OK || code == SEARCH_FAIL
    ensures code == OK ==> IsLast(bm.bits, v, skip, start + length - 1) && RunLeft(bm.bits, v, start + length - 1, length)
    ensures code == SEARCH_FAIL ==> forall i :: 0 <= i <= skip ==> bm.bits[i] != v
  {
    length, start := 0, 0;
    if skip >= bm.length {
      return WRONG_INPUT, 0, 0;
    }
    var cur, passed, buf := LocateBackward(bm, v, skip);
    assert forall i :: 0 <= i < bm.length ==> At(bm.bits, i) == bm.bits[i];
    if passed == 64 {
      return SEARCH_FAIL, 0, 0;
    }
    var last := cur * 64 + (63 - passed);
    code := OK;
    length := ExtendLeft(bm, v, cur, passed, buf);
    start := last - length + 1;
  }

  // The counting loop of the backward group searches
  method ExtendLeft(bm: SimpleBitmap, v: bool, from: nat, place: nat, content: Block) returns (length: nat)
    requires bm.Valid() && from <= bm.end && place < 64 && content == Shr(bm.base[from], place)
    ensures RunLeft(bm.bits, v, 64 * from + 63 - place, length)
  {
    var last := 64 * from + (63 - place);
    var cur: int, passed, buf := from, place, content;
    length := 0;
    while cur >= 0
      invariant 0 <= passed < 64 && -1 <= cur <= bm.end
      invariant last - length == 64 * cur + 63 - passed
      invariant passed > 0 ==> cur >= 0 && buf == Shr(bm.base[cur], passed)
      invariant forall i :: last - length < i <= last ==> At(bm.bits, i) == v
    {
      if passed == 0 {
        buf := bm.base[cur];
      }
      var run, rest := CountTrailing(buf, !v, 64 - passed);
      RunInBack(bm.base[..bm.end + 1], bm.bits, v, cur, passed, run, buf);
      length := length + run;
      if run + passed != 64 {
        break;
      }
      passed := 0;
      cur := cur - 1;
    }
  }

  lemma RunInBack(blocks: seq<Block>, bits: seq<bool>, v: bool, b: nat, passed: nat, run: nat, buf: Block)
    requires Packed(blocks, bits) && b < |blocks| && passed + run <= 64
    requires forall j :: passed <= j < 64 ==> buf[j] == blocks[b][j - passed]
    requires forall j :: 64 - run <= j < 64 ==> buf[j] == v
    requires run < 64 - passed ==> buf[63 - run] != v
    ensures forall i :: 64 * b + 64 - passed - run <= i < 64 * b + 64 - passed ==> At(bits, i) == v
    ensures passed + run < 64 ==> At(bits, 64 * b + 63 - passed - run) != v
  {
    forall i | 64 * b + 64 - passed - run <= i < 64 * b + 64 - passed ensures At(bits, i) == v {
      var j := i - 64 * b + passed;
      assert buf[j] == blocks[b][j - passed];
      BlockAt(blocks, bits, b, j - passed);
    }
    if passed + run < 64 {
      assert buf[63 - run] == blocks[b][63 - run - passed];
      BlockAt(blocks, bits, b, 63 - run - passed);
    }
  }

  // ---------------------------------------------------------------------
  // What a forward group is inside the map

  /** A run of ones never reaches past the last bit, so the group of ones is maximal in the map. */
  lemma OneGroupIsMaximal(s: seq<bool>, start: int, n: nat)
    requires 0 <= start < |s| && RunRight(s, true, start, n)
    ensures MaximalRun(s, true, start, n)
  {
    assert !At(s, |s|);
    forall i | start <= i < start + n ensures s[i] {
      assert At(s, i);
    }
  }

  /** A group of zeros is the maximal run of the map unless the map is zero from there to its last bit and its last
      block is partial; then the cleared places past the end are counted too. */
  lemma ZeroGroupIsMaximal(s: seq<bool>, skip: int, start: int, n: nat)
    requires IsFirst(s, false, skip, start) && RunRight(s, false, start, n)
    ensures MaximalRun(s, false, start, n) <==> |s| % 64 == 0 || exists i, j :: skip <= i < j < |s| && !s[i] && s[j]
  {
    if exists i, j :: skip <= i < j < |s| && !s[i] && s[j] {
      var i, j :| skip <= i < j < |s| && !s[i] && s[j];
      assert At(s, j);
      assert start <= i;
      assert start + n <= j;
      forall k | start <= k < start + n ensures !s[k] {
        assert !At(s, k);
      }
      assert At(s, start + n);
    } else {
      assert forall k :: start <= k < |s| ==> !s[k];
      assert forall k {:trigger At(s, k)} :: start <= k ==> !At(s, k);
      assert start + n == 64 * BlockNumber(|s|);
    }
  }

  /** The miscount on a four-bit map of zeros: the group has 64 places. */
  lemma ZeroGroupOvercount(s: seq<bool>)
    requires s == [false, false, false, false]
    ensures IsFirst(s, false, 0, 0) && RunRight(s, false, 0, 64) && !MaximalRun(s, false, 0, 64)
    ensures forall n: nat :: RunRight(s, false, 0, n) ==> n == 64
  {
    assert forall k {:trigger At(s, k)} :: !At(s, k);
  }
}
