/** C strings (without their terminator) and substring search. */
module Strings {

  /** The character at `i`, the terminating null included. */
  function CharAt(s: string, i: nat): char
    requires i <= |s|
  {
    if i < |s| then s[i] else '\0'
  }

  predicate OccursAt(haystack: string, needle: string, p: int) {
    0 <= p && p + |needle| <= |haystack| && haystack[p..p + |needle|] == needle
  }

  /** strstr */
  predicate Contains(haystack: string, needle: string) {
    exists p :: 0 <= p <= |haystack| && OccursAt(haystack, needle, p)
  }

  /** The last start position match_sub_min_max tries. */
  function LastStart(haystack: string, max: int): int {
    if max < 0 || max > |haystack| then |haystack| - 1 else max
  }

  /** `needle` occurs with its start between `min` and `max`, a negative bound meaning none. */
  predicate ContainsBetween(haystack: string, needle: string, min: int, max: int) {
    exists p :: 0 <= p <= |haystack| && min <= p && (max < 0 || p <= max) && OccursAt(haystack, needle, p)
  }

  // match_sub_min_max
  method MatchSubMinMax(haystack: string, needle: string, min: int, max: int) returns (found: bool)
    ensures found <==> exists p :: 0 <= p <= |haystack| && min <= p <= LastStart(haystack, max) && OccursAt(haystack, needle, p)
    ensures needle != "" ==> found == ContainsBetween(haystack, needle, min, max)
  {
    var lo := if min < 0 then 0 else min;
    if |haystack| - lo < |needle| {
      return false;
    }
    var hi := LastStart(haystack, max);
    if hi < lo {
      return false;
    }
    for i := lo to hi + 1
      invariant forall p :: lo <= p < i ==> !OccursAt(haystack, needle, p)
    {
      var k := 0;
      while i + k < |haystack| && k < |needle|
        invariant 0 <= k <= |needle| && i + k <= |haystack|
        invariant forall m :: 0 <= m < k ==> haystack[i + m] == needle[m]
      {
        if haystack[i + k] != needle[k] {
          break;
        }
        k := k + 1;
      }
      if k == |needle| {
        assert OccursAt(haystack, needle, i);
        return true;
      }
      if i + |needle| <= |haystack| {
        assert haystack[i..i + |needle|][k] == haystack[i + k];
      }
    }
    found := false;
  }

  /** Without bounds, the ranged match of a non-empty needle is strstr. */
  lemma UnboundedIsContains(haystack: string, needle: string)
    ensures ContainsBetween(haystack, needle, -1, -1) == Contains(haystack, needle)
  {
    if Contains(haystack, needle) {
      var p :| 0 <= p <= |haystack| && OccursAt(haystack, needle, p);
    }
  }
}
