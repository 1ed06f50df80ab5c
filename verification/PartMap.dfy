/** The map phase of a partial lookup: `lookup_..._part_map_ranged`. */
module PartMap {
  import opened Util
  import opened Lists
  import opened Codes
  import opened Block
  import opened BitSeq
  import opened Bitmap
  import opened BitmapSearch
  import opened Strings
  import opened ExistMat
  import opened IndexSpec

  /** The bounds of the start position, as the lookups compute them. */
  function LowerBound(min: int): int { if min < 0 then 0 else min }

  function UpperBound(maxLength: int, n: int, max: int): int { if max < 0 then maxLength - n else max }

  /** `int16_t` */
  type Int16 = x: int | -0x8000 <= x < 0x8000

  /** The start positions asked for leave room for `n` characters before `maxLength`: what the argument check of the
      map phase and the filter phase is for. */
  predicate BoundsOk(maxLength: int, n: int, min: int, max: int) {
    var lo, hi := LowerBound(min), UpperBound(maxLength, n, max);
    lo <= hi && maxLength - lo >= n && maxLength - hi >= n
  }

  /** An `int` compared with a `str_len_int`: a negative one is taken for a huge number. */
  predicate UnsignedLess(d: int, n: nat) {
    (if d < 0 then d + 0x1_0000_0000_0000_0000 else d) < n
  }

  /** The bounds that the check refuses: crossed, or one of them among the last start positions without room. */
  predicate Refused(maxLength: int, n: int, min: int, max: int) {
    var lo, hi := LowerBound(min), UpperBound(maxLength, n, max);
    lo > hi || maxLength - n < lo <= maxLength || maxLength - n < hi <= maxLength
  }

  lemma RefusedAsCompared(maxLength: nat, n: nat, bound: nat)
    requires n <= maxLength <= COLUMNS_MAX && bound <= COLUMNS_MAX
    ensures UnsignedLess(maxLength - bound, n) <==> maxLength - n < bound <= maxLength
  {
  }

  /** The upper bound is past the longest string, and the lower one leaves room or is past it too. */
  predicate SlipsThrough(maxLength: int, n: int, min: int, max: int) {
    LowerBound(min) <= max && maxLength < max && (LowerBound(min) + n <= maxLength || maxLength < LowerBound(min))
  }

  /** Bounds without room are reported exactly when they do not slip through. */
  lemma RangeErrorIff(maxLength: nat, n: nat, min: int, max: int)
    requires n <= maxLength
    ensures !BoundsOk(maxLength, n, min, max) ==> (Refused(maxLength, n, min, max) <==> !SlipsThrough(maxLength, n, min, max))
    ensures BoundsOk(maxLength, n, min, max) ==> !Refused(maxLength, n, min, max) && !SlipsThrough(maxLength, n, min, max)
  {
  }

  /** The columns that the search for start positions looks at are there. */
  predicate InMatrix(columns: nat, maxLength: int, n: int, min: int, max: int) {
    n <= maxLength && !Refused(maxLength, n, min, max) ==> UpperBound(maxLength, n, max) + (if n == 0 then 0 else 1) <= columns
  }

  /** Every character of `part` occurs in its column when `part` starts at `s`. */
  ghost predicate Possible(views: Views, part: string, s: int) {
    0 <= s && s + |part| <= |views| && forall j :: 0 <= j < |part| ==> part[j] in views[s + j]
  }

  lemma MarkedIsPossible(views: Views, part: string, s: int, a: int)
    requires StartMarks(views, part, s, a) && part != ""
    ensures Possible(views, part, s)
  {
    assert Marks(views, s + 0, part[0], a);
    assert Marks(views, s + (|part| - 1), part[|part| - 1], a);
    forall j | 0 <= j < |part| ensures part[j] in views[s + j] {
      assert Marks(views, s + j, part[j], a);
    }
  }

  // Is there a column entry for `c` at position `i`? The source reads past the last column for an empty
  // needle on a full-length matrix; there the model sees an empty column.
  method Lookup(matrix: Matrix, i: nat, c: char) returns (node: UniqChar?)
    requires matrix.Valid() && (i < |matrix.columns| || c == '\0')
    ensures node == null <==> !(i < |matrix.columns| && c in matrix.views[i])
    ensures c == '\0' ==> node == null
    ensures node != null ==> node.l1Map in matrix.Repr && node.l1Map.base in matrix.Repr
    ensures node != null ==> node.l1Map.Valid() && node.l1Map.bits == matrix.views[i][c]
  {
    if i >= |matrix.columns| {
      return null;
    }
    assert Position(i);
    var column := matrix.columns[i];
    ghost var at;
    var last;
    node, last, at := column.Find(c);
    assert Place(at);
    if node != null {
      assert column.maps[at] in Footprint(column) && column.bases[at] in Footprint(column);
    }
  }

  // Do all characters of `part` occur in the columns from `i` on?
  method AllPresent(matrix: Matrix, part: string, i: nat) returns (present: bool)
    requires matrix.Valid() && '\0' !in part && Tidy(matrix.views, matrix.maxLength)
    requires i < |matrix.columns| || part == ""
    requires i + |part| <= |matrix.columns| || matrix.maxLength < |matrix.columns|
    ensures present <==> part != "" && Possible(matrix.views, part, i)
  {
    var first := Lookup(matrix, i, CharAt(part, 0));
    if first == null {
      assert part != "" ==> part[0] !in matrix.views[i + 0];
      return false;
    }
    var j := 1;
    while j < |part|
      invariant 1 <= j <= |part|
      invariant i + j <= |matrix.columns| && forall k :: 0 <= k < j ==> part[k] in matrix.views[i + k]
    {
      assert part[j - 1] in matrix.views[i + (j - 1)];
      var node := Lookup(matrix, i + j, part[j]);
      if node == null {
        break;
      }
      j := j + 1;
    }
    present := j == |part|;
  }

  // "mark down starting positions of all existence"
  method MarkStarts(matrix: Matrix, part: string, lo: nat, hi: int, starts: SimpleBitmap)
    requires matrix.Valid() && '\0' !in part && Tidy(matrix.views, matrix.maxLength)
    requires starts.Valid() && starts !in matrix.Repr && starts.base !in matrix.Repr
    requires starts.bits == seq(|matrix.columns|, _ => false)
    requires hi + (if part == "" then 0 else 1) <= |matrix.columns|
    requires hi + |part| <= |matrix.columns| || matrix.maxLength < |matrix.columns|
    modifies starts`zeros, starts`ones, starts`bits, starts.base
    ensures starts.Valid() && StartsExact(matrix.views, part, lo, hi, starts.bits)
  {
    hide Possible, Tidy;
    var i := lo;
    while i <= hi
      invariant lo <= i
      invariant matrix.Valid() && starts.Valid() && |starts.bits| == |matrix.columns|
      invariant forall s :: 0 <= s < |starts.bits| ==>
        (starts.bits[s] <==> lo <= s < i && s <= hi && part != "" && Possible(matrix.views, part, s))
    {
      var present := AllPresent(matrix, part, i);
      if present {
        var _ := starts.Write(i, true);
      }
      i := i + 1;
    }
  }

  // Intersects the column map of one more character into the map buffer.
  method IntersectMap(column: SimpleBitmap, buf: SimpleBitmap)
    requires column.Valid() && buf.Valid() && column != buf && column.base != buf.base
    modifies buf, buf.base
    ensures buf.Valid() && (buf.base == old(buf.base) || fresh(buf.base))
    ensures forall a :: At(buf.bits, a) <==> At(old(buf.bits), a) && At(column.bits, a)
  {
    var oldLength := buf.length;
    if column.length > buf.length {
      var _ := buf.FfpGrow(column.length);
    } else if column.length < buf.length {
      var _ := buf.Shrink(column.length);
    }
    ghost var level := buf.bits;
    var _ := Combine(OpAnd, column, buf, buf, false);
    assert forall a :: 0 <= a < |level| ==> buf.bits[a] == (At(column.bits, a) && At(level, a));
    if oldLength > buf.length {
      var _ := buf.Grow(null, oldLength, false);
    }
  }

  // "copy bitmap of first character to map buffer"
  method CopyMap(column: SimpleBitmap, buf: SimpleBitmap)
    requires column.Valid() && buf.Valid() && column != buf && column.base != buf.base
    modifies buf, buf.base
    ensures buf.Valid() && (buf.base == old(buf.base) || fresh(buf.base))
    ensures forall a :: At(buf.bits, a) <==> At(column.bits, a)
  {
    var _ := buf.FfpGrow(column.length);
    var _ := Copy(column, buf, false, false);
  }

  // One more character of `part`, from start position `s`
  method IntersectNext(matrix: Matrix, part: string, s: nat, j: nat, buf: SimpleBitmap) returns (ret: int)
    requires matrix.Valid() && j < |part| && Possible(matrix.views, part, s)
    requires buf.Valid() && buf !in matrix.Repr && buf.base !in matrix.Repr
    requires forall a :: At(buf.bits, a) <==> StartMarks(matrix.views, part[..j], s, a)
    modifies buf, buf.base
    ensures ret == OK && buf.Valid() && (buf.base == old(buf.base) || fresh(buf.base))
    ensures forall a :: At(buf.bits, a) <==> StartMarks(matrix.views, part[..j + 1], s, a)
  {
    var node := Lookup(matrix, s + j, part[j]);
    if node == null {
      return LOGIC_ERROR;
    }
    StartMarksStep(matrix.views, part, s, j);
    IntersectMap(node.l1Map, buf);
    ret := OK;
  }

  // The maps of all characters of `part` from start position `s`, intersected in the map buffer.
  method IntersectFrom(matrix: Matrix, part: string, s: nat, buf: SimpleBitmap) returns (ret: int)
    requires matrix.Valid() && part != "" && s + |part| <= |matrix.columns|
    requires buf.Valid() && buf !in matrix.Repr && buf.base !in matrix.Repr
    requires Possible(matrix.views, part, s)
    modifies buf, buf.base
    ensures ret == OK && buf.Valid() && (buf.base == old(buf.base) || fresh(buf.base))
    ensures forall a :: At(buf.bits, a) <==> StartMarks(matrix.views, part, s, a)
  {
    hide SimpleBitmap.Valid;
    assert part[0] in matrix.views[s + 0];
    var node := Lookup(matrix, s, part[0]);
    if node == null {
      return LOGIC_ERROR;
    }
    CopyMap(node.l1Map, buf);
    StartMarksStep(matrix.views, part, s, 0);
    for j := 1 to |part|
      invariant matrix.Valid() && buf.Valid() && (buf.base == old(buf.base) || fresh(buf.base))
      invariant forall a :: At(buf.bits, a) <==> StartMarks(matrix.views, part[..j], s, a)
    {
      ret := IntersectNext(matrix, part, s, j, buf);
    }
    assert part[..|part|] == part;
    ret := OK;
  }

  lemma StartMarksStep(views: Views, part: string, s: int, j: nat)
    requires j < |part|
    ensures forall a :: StartMarks(views, part[..j + 1], s, a) <==> StartMarks(views, part[..j], s, a) && Marks(views, s + j, part[j], a)
  {
    forall a ensures StartMarks(views, part[..j + 1], s, a) <==> StartMarks(views, part[..j], s, a) && Marks(views, s + j, part[j], a) {
      if StartMarks(views, part[..j + 1], s, a) {
        assert Marks(views, s + j, part[..j + 1][j], a);
        forall k | 0 <= k < j ensures Marks(views, s + k, part[..j][k], a) {
          assert Marks(views, s + k, part[..j + 1][k], a);
        }
      }
    }
  }

  lemma MatrixSizes(matrix: Matrix)
    requires matrix.Valid()
    ensures matrix in matrix.Repr && |matrix.views| == |matrix.columns| && matrix.maxLength <= |matrix.columns| <= COLUMNS_MAX
  {
  }

  // lookup_..._part_map_ranged
  method PartMapRanged(matrix: Matrix, part: string, min: Int16, max: Int16, buf: SimpleBitmap, result: SimpleBitmap) returns (ret: int)
    requires matrix.Valid() && 0 < |matrix.columns| && '\0' !in part && Tidy(matrix.views, matrix.maxLength)
    requires InMatrix(|matrix.columns|, matrix.maxLength, |part|, min, max)
    requires buf.Valid() && buf !in matrix.Repr && buf.base !in matrix.Repr
    requires result.Valid() && result !in matrix.Repr && result.base !in matrix.Repr
    requires buf != result && buf.base != result.base
    modifies buf, buf.base, result, result.base
    ensures buf.Valid() && (buf.base == old(buf.base) || fresh(buf.base))
    ensures result.Valid() && (result.base == old(result.base) || fresh(result.base)) && buf.base != result.base
    ensures |part| > |matrix.columns| ==> ret == VERIFY_FAIL && result.bits == old(result.bits)
    ensures |part| <= matrix.maxLength && Refused(matrix.maxLength, |part|, min, max) ==>
      ret == WRONG_ARGS && forall a :: !At(result.bits, a)
    ensures matrix.maxLength < |part| <= |matrix.columns| ==> ret == OK && forall a :: !At(result.bits, a)
    ensures |part| <= matrix.maxLength && !Refused(matrix.maxLength, |part|, min, max) ==>
      ret == OK && forall a :: At(result.bits, a) <==>
        Candidate(matrix.views, part, LowerBound(min), UpperBound(matrix.maxLength, |part|, max), a)
  {
    hide Candidate, Matrix.Valid, StartsExact, Tidy, UnsignedLess;
    MatrixSizes(matrix);
    if |part| > |matrix.columns| {
      return VERIFY_FAIL;
    }
    result.Zero();
    ghost var cleared := result.bits;
    assert cleared == seq(|cleared|, _ => false);
    if |part| > matrix.maxLength {
      return OK;
    }
    var lo, hi := LowerBound(min), UpperBound(matrix.maxLength, |part|, max);
    RefusedAsCompared(matrix.maxLength, |part|, lo);
    RefusedAsCompared(matrix.maxLength, |part|, hi);
    if lo > hi || UnsignedLess(matrix.maxLength - lo, |part|) || UnsignedLess(matrix.maxLength - hi, |part|) {
      return WRONG_ARGS;
    }
    var raw := new Block[BlockNumber(|matrix.columns|)];
    var starts := new SimpleBitmap(raw, None, |matrix.columns|, 0);
    MarkStarts(matrix, part, lo, hi, starts);
    assert result.bits == cleared;
    ret := UnionStarts(matrix, part, lo, hi, starts, buf, result);
  }

  // "for each starting position found, go through the matrix"
  method UnionStarts(matrix: Matrix, part: string, lo: nat, hi: int, starts: SimpleBitmap, buf: SimpleBitmap, result: SimpleBitmap)
    returns (ret: int)
    requires matrix.Valid()
    requires buf.Valid() && buf !in matrix.Repr && buf.base !in matrix.Repr
    requires result.Valid() && result !in matrix.Repr && result.base !in matrix.Repr
    requires buf != result && buf.base != result.base && starts.Valid()
    requires starts != buf && starts != result && starts.base != buf.base && starts.base != result.base
    requires result.bits == seq(|result.bits|, _ => false)
    requires lo <= hi && StartsExact(matrix.views, part, lo, hi, starts.bits)
    modifies buf, buf.base, result, result.base
    ensures buf.Valid() && (buf.base == old(buf.base) || fresh(buf.base))
    ensures result.Valid() && (result.base == old(result.base) || fresh(result.base)) && buf.base != result.base
    ensures ret == OK && forall a :: At(result.bits, a) <==> Candidate(matrix.views, part, lo, hi, a)
  {
    ghost var bits := starts.bits;
    var skip: nat := 0;
    starts.Facts();
    for i := 0 to starts.ones
      invariant matrix.Valid() && starts.Valid() && starts.bits == bits && starts.ones == Ones(bits)
      invariant buf.Valid() && (buf.base == old(buf.base) || fresh(buf.base))
      invariant result.Valid() && (result.base == old(result.base) || fresh(result.base)) && buf.base != result.base
      invariant skip <= |bits| && skip <= hi + 1 && Ones(bits[..skip]) == i
      invariant forall a :: At(result.bits, a) <==> Candidate(matrix.views, part, lo, skip - 1, a)
    {
      skip := UnionNext(matrix, part, lo, hi, starts, i, skip, buf, result);
    }
    NoMoreStarts(matrix.views, part, lo, hi, skip, bits);
    ret := OK;
  }

  // The next start position found, and the arrays that may hold `part` there
  method UnionNext(matrix: Matrix, part: string, ghost lo: nat, ghost hi: int, starts: SimpleBitmap, ghost i: nat, skip: nat, buf: SimpleBitmap, result: SimpleBitmap)
    returns (next: nat)
    requires matrix.Valid() && StartsExact(matrix.views, part, lo, hi, starts.bits)
    requires buf.Valid() && buf !in matrix.Repr && buf.base !in matrix.Repr
    requires result.Valid() && result !in matrix.Repr && result.base !in matrix.Repr
    requires buf != result && buf.base != result.base && starts.Valid()
    requires starts != buf && starts != result && starts.base != buf.base && starts.base != result.base
    requires skip <= |starts.bits| && Ones(starts.bits[..skip]) == i < Ones(starts.bits)
    requires forall a :: At(result.bits, a) <==> Candidate(matrix.views, part, lo, skip - 1, a)
    modifies buf, buf.base, result, result.base
    ensures buf.Valid() && (buf.base == old(buf.base) || fresh(buf.base))
    ensures result.Valid() && (result.base == old(result.base) || fresh(result.base)) && buf.base != result.base
    ensures next <= |starts.bits| && next <= hi + 1 && Ones(starts.bits[..next]) == i + 1
    ensures forall a :: At(result.bits, a) <==> Candidate(matrix.views, part, lo, next - 1, a)
  {
    var s := NextOne(starts, i, skip);
    CandidateStep(matrix.views, part, lo, hi, skip, s, starts.bits);
    var _ := UnionStart(matrix, part, s, buf, result);
    next := s + 1;
  }

  method UnionStart(matrix: Matrix, part: string, s: nat, buf: SimpleBitmap, result: SimpleBitmap) returns (ret: int)
    requires matrix.Valid() && part != "" && Possible(matrix.views, part, s)
    requires buf.Valid() && buf !in matrix.Repr && buf.base !in matrix.Repr
    requires result.Valid() && result !in matrix.Repr && result.base !in matrix.Repr
    requires buf != result && buf.base != result.base
    modifies buf, buf.base, result, result.base
    ensures buf.Valid() && (buf.base == old(buf.base) || fresh(buf.base))
    ensures result.Valid() && (result.base == old(result.base) || fresh(result.base)) && buf.base != result.base
    ensures ret == OK && forall a :: At(result.bits, a) <==> At(old(result.bits), a) || StartMarks(matrix.views, part, s, a)
  {
    ret := IntersectFrom(matrix, part, s, buf);
    Overlay(buf, result);
  }

  // "lay the map buffer over the result buffer"
  method Overlay(buf: SimpleBitmap, result: SimpleBitmap)
    requires buf.Valid() && result.Valid() && buf != result && buf.base != result.base
    modifies result, result.base
    ensures result.Valid() && (result.base == old(result.base) || fresh(result.base))
    ensures forall a :: At(result.bits, a) <==> At(old(result.bits), a) || At(buf.bits, a)
  {
    var _ := result.FfpGrow(buf.length);
    ghost var level := result.bits;
    var _ := Combine(OpOr, buf, result, result, false);
    assert forall a :: 0 <= a < |level| ==> result.bits[a] == (At(buf.bits, a) || At(level, a));
  }

  /** The start positions found are exactly the possible ones between the bounds. */
  ghost predicate StartsExact(views: Views, part: string, lo: int, hi: int, bits: seq<bool>) {
    |bits| == |views| && forall s :: 0 <= s < |bits| ==> (bits[s] <==> lo <= s <= hi && part != "" && Possible(views, part, s))
  }

  /** A start position without the bit adds no candidates; the next one found adds its own. */
  lemma CandidateStep(views: Views, part: string, lo: nat, hi: int, skip: nat, s: nat, bits: seq<bool>)
    requires StartsExact(views, part, lo, hi, bits) && IsFirst(bits, true, skip, s)
    ensures forall a :: Candidate(views, part, lo, s, a) <==> Candidate(views, part, lo, skip - 1, a) || StartMarks(views, part, s, a)
  {
    forall a | Candidate(views, part, lo, s, a)
      ensures Candidate(views, part, lo, skip - 1, a) || StartMarks(views, part, s, a)
    {
      var t :| lo <= t <= s && StartMarks(views, part, t, a);
      MarkedIsPossible(views, part, t, a);
      assert bits[t] <==> t <= hi;
    }
  }

  lemma NoMoreStarts(views: Views, part: string, lo: nat, hi: int, skip: nat, bits: seq<bool>)
    requires StartsExact(views, part, lo, hi, bits)
    requires skip <= |bits| && Ones(bits[..skip]) == Ones(bits) && skip <= hi + 1
    ensures forall a :: Candidate(views, part, lo, hi, a) <==> Candidate(views, part, lo, skip - 1, a)
  {
    OnesPositive(bits, skip);
    forall a | Candidate(views, part, lo, hi, a) ensures Candidate(views, part, lo, skip - 1, a) {
      var t :| lo <= t <= hi && StartMarks(views, part, t, a);
      MarkedIsPossible(views, part, t, a);
      assert bits[t];
    }
  }
}
