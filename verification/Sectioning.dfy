/** Sections and extracts of a fingerprinted file: the arithmetic of `fingerprint_file`. */
module Sectioning {
  import opened Util
  import opened Arith
  import opened Codes

  const SECT_SIZE_SMALL: nat := 100
  const FALLBACK_SECT_NUM: nat := 100
  const CLASS_NUM: nat := 9
  const EXTRACT_LEAK_MAX_PERCENT: nat := 5

  /** file_size_class_arr */
  function Classes(): (r: seq<nat>)
    ensures |r| == CLASS_NUM
  {
    [1024, 10240, 102400, 1048576, 10485760, 104857600, 1073741824, 10737418240, 107374182400]
  }

  /** sect_ideal_num_arr */
  function IdealNums(): (r: seq<nat>)
    ensures |r| == CLASS_NUM
  {
    [5, 10, 10, 10, 10, 10, 50, 100, 100]
  }

  /** The chosen sections: how many, the size of all but the last, and the size of the last. */
  datatype Plan = Plan(num: nat, norm: nat, last: nat)

  /** The lowest class that a size lies below, if any. */
  ghost predicate InClass(size: nat, i: nat) {
    i < CLASS_NUM && size < Classes()[i] && (i > 0 ==> Classes()[i - 1] <= size)
  }

  /** The number of sections for a size: one for a small file, the ideal number of its class, or the fallback. */
  ghost predicate Suited(size: nat, num: nat) {
    if size < SECT_SIZE_SMALL then num == 1
    else if size > Classes()[CLASS_NUM - 1] then num == FALLBACK_SECT_NUM
    else exists i: nat :: InClass(size, i) && num == IdealNums()[i]
  }

  /** Sections that cover a file: full ones, and a last one that is not empty. */
  predicate Covers(size: nat, p: Plan) {
    0 < p.num && 1 <= p.last <= p.norm && (p.num - 1) * p.norm + p.last == size
  }

  /** The ideal number of the first class from the `i`-th on that the size lies below; 0 if none. */
  function NumFrom(size: nat, i: nat): nat
    requires i <= CLASS_NUM
    decreases CLASS_NUM - i
  {
    if i == CLASS_NUM then 0 else if size < Classes()[i] then IdealNums()[i] else NumFrom(size, i + 1)
  }

  lemma {:induction false} NumFromClass(size: nat, i: nat)
    requires i <= CLASS_NUM && (i > 0 ==> Classes()[i - 1] <= size)
    ensures if size < Classes()[CLASS_NUM - 1] then exists k: nat :: InClass(size, k) && NumFrom(size, i) == IdealNums()[k] else NumFrom(size, i) == 0
    decreases CLASS_NUM - i
  {
    if i < CLASS_NUM {
      if size < Classes()[i] {
        assert InClass(size, i);
        assert forall k :: i <= k < CLASS_NUM ==> Classes()[i] <= Classes()[k];
      } else {
        NumFromClass(size, i + 1);
      }
    }
  }

  // The search for the class, backwards: the last class found is the lowest
  method IdealNum(size: nat) returns (num: nat)
    ensures num == NumFrom(size, 0)
  {
    num := 0;
    var i: nat := CLASS_NUM - 1;
    ghost var from: nat := CLASS_NUM;
    while true
      invariant i < CLASS_NUM && from == i + 1 && num == NumFrom(size, from)
      decreases i
    {
      if size < Classes()[i] {
        num := IdealNums()[i];
      }
      from := i;
      if i == 0 {
        break;
      }
      i := i - 1;
    }
  }

  lemma Ceiling(size: nat, num: nat)
    requires 0 < size && 0 < num
    ensures var norm := (size + num - 1) / num; 0 < norm && size <= num * norm <= size + num - 1
  {
    var norm, r := (size + num - 1) / num, (size + num - 1) % num;
    assert size + num - 1 == num * norm + r;
  }

  /** The plan made for a number of sections. */
  function PlanFor(size: nat, num: nat): Plan
    requires 0 < size && 0 < num
  {
    Ceiling(size, num);
    var norm := (size + num - 1) / num;
    Plan(num, norm, if size % norm == 0 then norm else size % norm)
  }

  /** The plan covers the file exactly when one section fewer would not do. */
  lemma PlanCovers(size: nat, num: nat)
    requires 0 < size && 0 < num
    ensures Covers(size, PlanFor(size, num)) <==> (num - 1) * PlanFor(size, num).norm < size
  {
    Ceiling(size, num);
    var norm := (size + num - 1) / num;
    if (num - 1) * norm < size {
      var r := size - (num - 1) * norm;
      assert num * norm == (num - 1) * norm + norm;
      if r == norm {
        DivMod(num, norm, 0);
      } else {
        DivMod(num - 1, norm, r);
      }
    }
  }

  lemma FewArith(size: nat, num: nat, norm: nat)
    requires 0 < num && num * norm <= size + num - 1 && (num - 1) * (num - 1) < size
    ensures (num - 1) * norm < size
  {
    var k := num - 1;
    assert (k + 1) * norm == k * norm + norm;
    if norm <= k {
      Monotone(k, norm, k);
    }
  }

  /** Few sections for the size: none is left over. */
  lemma FewCover(size: nat, num: nat)
    requires 0 < num && (num - 1) * (num - 1) < size
    ensures Covers(size, PlanFor(size, num))
  {
    Ceiling(size, num);
    FewArith(size, num, PlanFor(size, num).norm);
    PlanCovers(size, num);
  }

  /** The right number of sections, with the sizes planned for it, which cover the file and which verify_entry accepts
      unless the file has a single byte. */
  ghost predicate Chosen(size: nat, p: Plan) {
    0 < size && 0 < p.num && Suited(size, p.num) && p == PlanFor(size, p.num) && Covers(size, p)
    && (p.num == 1 ==> p.last == p.norm) && VerifySections(size, p) == (2 <= size)
  }

  lemma SmallChosen(size: nat)
    requires 0 < size < SECT_SIZE_SMALL
    ensures Chosen(size, Plan(1, size, size))
  {
    DivMod(1, size, 0);
    assert PlanFor(size, 1) == Plan(1, size, size);
    VerifiedIff(size, Plan(1, size, size));
  }

  lemma LargeChosen(size: nat, num: nat)
    requires SECT_SIZE_SMALL <= size && Suited(size, num)
    ensures 0 < num && Chosen(size, PlanFor(size, num))
  {
    hide Suited, PlanFor, VerifySections;
    SuitedIsFew(size, num);
    FewCover(size, num);
    LastIsLarge(size, num);
    PlanNum(size, num);
    VerifiedIff(size, PlanFor(size, num));
  }

  lemma PlanNum(size: nat, num: nat)
    requires SECT_SIZE_SMALL <= size && Suited(size, num) && 0 < num
    ensures PlanFor(size, num).num == num != 1
  {
    if size <= Classes()[CLASS_NUM - 1] {
      var i: nat :| InClass(size, i) && num == IdealNums()[i];
      assert forall k :: 0 <= k < CLASS_NUM ==> IdealNums()[k] >= 5;
    }
  }

  /** The number found for a size is suited to it; none is found for the largest class size. */
  lemma FoundIsSuited(size: nat)
    requires SECT_SIZE_SMALL <= size <= Classes()[CLASS_NUM - 1]
    ensures if size == Classes()[CLASS_NUM - 1] then NumFrom(size, 0) == 0 else NumFrom(size, 0) > 0 && Suited(size, NumFrom(size, 0))
  {
    NumFromClass(size, 0);
    assert forall k :: 0 <= k < CLASS_NUM ==> IdealNums()[k] >= 5;
  }

  // The choice of sections in fingerprint_file
  method ChooseSections(size: nat) returns (ret: int, p: Plan)
    requires 0 < size
    ensures ret == if size == Classes()[CLASS_NUM - 1] then LOGIC_ERROR else OK
    ensures ret == OK ==> Chosen(size, p) && (p.norm - 1) * p.num < size <= p.norm * p.num
  {
    hide Chosen, InClass, NumFrom, IdealNums;
    ret := OK;
    if size < SECT_SIZE_SMALL {
      SmallChosen(size);
      return OK, Plan(1, size, size);
    }
    var num: nat;
    if size > Classes()[CLASS_NUM - 1] {
      num := FALLBACK_SECT_NUM;
    } else {
      num := IdealNum(size);
      FoundIsSuited(size);
      if num == 0 {
        return LOGIC_ERROR, Plan(0, 0, 0);
      }
    }
    LargeChosen(size, num);
    Ceiling(size, num);
    var norm := (size + num - 1) / num;
    var last := size % norm;
    if last == 0 {
      last := norm;
    }
    p := Plan(num, norm, last);
  }

  /** In every class the square of the number of sections stays far below the size. */
  lemma SuitedIsFew(size: nat, num: nat)
    requires SECT_SIZE_SMALL <= size && Suited(size, num)
    ensures 0 < num && (num - 1) * (num - 1) + 2 * num < size
  {
    if size <= Classes()[CLASS_NUM - 1] {
      var i: nat :| InClass(size, i) && num == IdealNums()[i];
      assert i == 0 || i == 1 || i == 2 || i == 3 || i == 4 || i == 5 || i == 6 || i == 7 || i == 8;
    }
  }

  /** The last section has two bytes at least. */
  lemma LastIsLarge(size: nat, num: nat)
    requires 0 < num && (num - 1) * (num - 1) + 2 * num < size
    ensures 2 <= PlanFor(size, num).last
  {
    FewCover(size, num);
    Ceiling(size, num);
    LargeArith(size, num, PlanFor(size, num).norm, PlanFor(size, num).last);
  }

  lemma LargeArith(size: nat, num: nat, norm: nat, last: nat)
    requires 0 < num && num * norm <= size + num - 1 && (num - 1) * norm + last == size && (num - 1) * (num - 1) + 2 * num < size
    ensures 2 <= last
  {
    var k := num - 1;
    assert (k + 1) * norm == k * norm + norm;
    if norm <= k + 1 {
      Monotone(k, norm, k + 1);
      assert k * (k + 1) == k * k + k;
    }
  }

  // ---------------------------------------------------------------------
  // Positions

  /** First and last byte of a section. */
  function StartPos(p: Plan, i: nat): nat {
    i * p.norm
  }

  function EndPos(p: Plan, i: nat): int {
    StartPos(p, i) + (if i + 1 < p.num then p.norm else p.last) - 1
  }

  lemma NextStart(p: Plan, i: nat)
    ensures StartPos(p, i + 1) == StartPos(p, i) + p.norm
  {
  }

  lemma {:induction false} StartsGrow(p: Plan, i: nat, j: nat)
    requires i <= j
    ensures StartPos(p, i) <= StartPos(p, j)
    decreases j - i
  {
    if i < j {
      NextStart(p, j - 1);
      StartsGrow(p, i, j - 1);
    }
  }

  /** Is byte `x` in section `i`? */
  predicate InSection(p: Plan, i: nat, x: nat) {
    i < p.num && StartPos(p, i) <= x <= EndPos(p, i)
  }

  /** The sections follow each other without a gap, from the first byte of the file to its last. */
  lemma SectionsFollow(size: nat, p: Plan)
    requires Covers(size, p)
    ensures StartPos(p, 0) == 0 && EndPos(p, p.num - 1) == size - 1
    ensures forall i :: 0 <= i < p.num - 1 ==> StartPos(p, i + 1) == EndPos(p, i) + 1
    ensures forall i :: 0 <= i < p.num ==> StartPos(p, i) <= EndPos(p, i) < size
  {
    forall i | 0 <= i < p.num - 1 ensures StartPos(p, i + 1) == EndPos(p, i) + 1 {
      NextStart(p, i);
    }
    forall i | 0 <= i < p.num ensures StartPos(p, i) <= EndPos(p, i) < size {
      if i < p.num - 1 {
        NextStart(p, i);
        StartsGrow(p, i + 1, p.num - 1);
      }
    }
  }

  /** Every byte of the file is in exactly one section. */
  lemma Tiling(size: nat, p: Plan, x: nat)
    requires Covers(size, p) && x < size
    ensures exists i: nat :: InSection(p, i, x)
    ensures forall i: nat, j: nat :: InSection(p, i, x) && InSection(p, j, x) ==> i == j
  {
    var i := x / p.norm;
    DivMod(i, p.norm, x % p.norm);
    assert x == i * p.norm + x % p.norm;
    SectionsFollow(size, p);
    AtMostLast(size, p, i, x);
    assert InSection(p, i, x);
    forall i: nat, j: nat | InSection(p, i, x) && InSection(p, j, x) ensures i == j {
      OneSection(p, i, j, x);
      OneSection(p, j, i, x);
    }
  }

  lemma AtMostLast(size: nat, p: Plan, i: nat, x: nat)
    requires Covers(size, p) && x < size && i * p.norm <= x
    ensures i < p.num
  {
    if i >= p.num {
      StartsGrow(p, p.num, i);
      NextStart(p, p.num - 1);
    }
  }

  lemma OneSection(p: Plan, i: nat, j: nat, x: nat)
    requires p.last <= p.norm && InSection(p, i, x) && InSection(p, j, x)
    ensures i <= j
  {
    if j < i {
      NextStart(p, j);
      StartsGrow(p, j + 1, i);
    }
  }

  /** What verify_entry demands of the sections of a file. */
  predicate VerifySections(size: nat, p: Plan) {
    p.norm <= size && p.last <= p.norm && (p.num == 1 ==> p.last == p.norm) && (p.norm == 0 ==> p.last == 0)
    && forall i :: 0 <= i < p.num ==>
         StartPos(p, i) < EndPos(p, i) && StartPos(p, i) < size && EndPos(p, i) < size && (i > 0 ==> StartPos(p, i) > EndPos(p, i - 1))
  }

  /** A plan passes exactly when no section has a single byte. */
  lemma VerifiedIff(size: nat, p: Plan)
    requires Covers(size, p) && (p.num == 1 ==> p.last == p.norm)
    ensures VerifySections(size, p) <==> 2 <= p.last
  {
    SectionsFollow(size, p);
    assert p.num > 1 ==> EndPos(p, 0) == p.norm - 1;
    assert EndPos(p, p.num - 1) == StartPos(p, p.num - 1) + p.last - 1;
    forall i | 0 < i < p.num ensures StartPos(p, i) > EndPos(p, i - 1) {
      assert StartPos(p, (i - 1) + 1) == EndPos(p, i - 1) + 1;
    }
    if p.num > 1 {
      StartsGrow(p, 1, p.num - 1);
      NextStart(p, 0);
    }
  }

  // ---------------------------------------------------------------------
  // Extracts

  /** How many extracts are taken of `size` bytes, and how long each is. */
  datatype Sample = Sample(num: nat, len: nat)

  /** Where the `i`-th extract starts, from the start of the file or section. */
  function ExtractPos(size: nat, s: Sample, i: nat): nat
    requires 0 < s.num
  {
    i * (size / s.num)
  }

  /** Five extracts of four bytes; of up to 333 bytes only single ones, one in twenty. */
  function SampleFor(size: nat): Sample {
    if size > 333 then Sample(EXTRACT_MAX_NUM, EXTRACT_SIZE_MAX)
    else Sample(if size / 20 < EXTRACT_MAX_NUM then size / 20 else EXTRACT_MAX_NUM, 1)
  }

  // The calculation for extract sampling, of a file or of a section
  method ChooseExtracts(size: nat) returns (s: Sample)
    requires 0 < size
    ensures s == SampleFor(size)
    ensures if size > 333 then s == Sample(5, 4)
            else s.len == 1 && s.num <= 5 && 100 * s.num <= 5 * size && (s.num < 5 ==> 100 * (s.num + 1) > 5 * size)
  {
    var num, len: nat;
    if size < EXTRACT_SIZE_MAX {
      num, len := 1, size;
    } else if size < EXTRACT_MAX_NUM * EXTRACT_SIZE_MAX {
      num, len := size / EXTRACT_SIZE_MAX, EXTRACT_SIZE_MAX;
    } else {
      num, len := EXTRACT_MAX_NUM, EXTRACT_SIZE_MAX;
    }
    FirstTry(size, num, len);
    if 100 * num * len / size > EXTRACT_LEAK_MAX_PERCENT {
      len := 1;
      num := size * EXTRACT_LEAK_MAX_PERCENT / 100;
      if num > EXTRACT_MAX_NUM {
        num := EXTRACT_MAX_NUM;
      }
    }
    s := Sample(num, len);
  }

  /** The first try leaks too much exactly for sizes up to 333. */
  lemma FirstTry(size: nat, num: nat, len: nat)
    requires 0 < size
    requires if size < EXTRACT_SIZE_MAX then num == 1 && len == size
             else if size < EXTRACT_MAX_NUM * EXTRACT_SIZE_MAX then num == size / EXTRACT_SIZE_MAX && len == EXTRACT_SIZE_MAX
             else num == EXTRACT_MAX_NUM && len == EXTRACT_SIZE_MAX
    ensures 100 * num * len / size > EXTRACT_LEAK_MAX_PERCENT <==> size <= 333
  {
    QuotientAtLeast(100 * num * len, size, EXTRACT_LEAK_MAX_PERCENT + 1);
  }

  /** The sample keeps within its limits, takes at most five percent, and leaves room between its extracts. */
  ghost predicate Modest(size: nat, s: Sample) {
    0 < size && s.num <= EXTRACT_MAX_NUM && 1 <= s.len <= EXTRACT_SIZE_MAX
    && 100 * (s.num * s.len) / size <= EXTRACT_LEAK_MAX_PERCENT
    && s.num * (s.len + 1) <= size && (s.num == 0 <==> size < 20)
  }

  lemma SampleIsModest(size: nat)
    requires 0 < size
    ensures Modest(size, SampleFor(size))
  {
    var s := SampleFor(size);
    QuotientAtLeast(100 * (s.num * s.len), size, EXTRACT_LEAK_MAX_PERCENT + 1);
  }

  lemma Spacing(size: nat, s: Sample)
    requires Modest(size, s) && 0 < s.num
    ensures s.len < size / s.num && s.num * (size / s.num) <= size
  {
    QuotientAtLeast(size, s.num, s.len + 1);
    QuotientAtLeast(size, s.num, size / s.num);
    assert (s.len + 1) * s.num == s.num * (s.len + 1);
  }

  /** Extracts lie apart from each other, and all end before the last byte's end. */
  lemma {:induction false} ExtractsApart(size: nat, s: Sample, i: nat, j: nat)
    requires Modest(size, s) && i < s.num && i <= j < s.num
    ensures i < j ==> ExtractPos(size, s, i) + s.len < ExtractPos(size, s, j)
    ensures ExtractPos(size, s, j) + s.len < size
  {
    Spacing(size, s);
    var step := size / s.num;
    Products(i, j, step);
    Products(j, s.num, step);
  }

  lemma {:induction false} Products(i: nat, j: nat, step: nat)
    ensures i < j ==> i * step + step <= j * step
  {
    if i < j {
      assert j * step == (j - 1) * step + step;
      Products(i, j - 1, step);
    }
  }
}
