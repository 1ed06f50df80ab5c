/** Facts about lists without repetition. */
module Lists {
  /** Names a list place, so that list facts are used only where a proof asks for one. */
  ghost predicate Place(k: int) { true }

  ghost predicate Distinct<X>(s: seq<X>) {
    forall i, j {:trigger Place(i), Place(j)} :: Place(i) && Place(j) && 0 <= i < j < |s| ==> s[i] != s[j]
  }

  lemma OthersDiffer<X>(s: seq<X>, k: nat)
    requires Distinct(s) && k < |s|
    ensures forall j :: 0 <= j < |s| && j != k ==> s[j] != s[k]
  {
    forall j | 0 <= j < |s| && j != k ensures s[j] != s[k] {
      assert Place(j) && Place(k);
    }
  }

  lemma SliceDistinct<X>(s: seq<X>, from: nat, to: nat)
    requires Distinct(s) && from <= to <= |s|
    ensures Distinct(s[from..to])
  {
    forall i, j {:trigger Place(i), Place(j)} | Place(i) && Place(j) && 0 <= i < j < to - from ensures s[from + i] != s[from + j] {
      assert Place(from + i) && Place(from + j);
    }
  }

  lemma AppendDistinct<X>(s: seq<X>, t: seq<X>)
    requires Distinct(s) && Distinct(t) && forall x :: x in s ==> x !in t
    ensures Distinct(s + t)
  {
    forall i, j {:trigger Place(i), Place(j)} | Place(i) && Place(j) && 0 <= i < j < |s + t| ensures (s + t)[i] != (s + t)[j] {
      assert Place(i - |s|) && Place(j - |s|);
      if i < |s| <= j {
        assert s[i] in s && t[j - |s|] in t;
      }
    }
  }

  /** An element and the rest of its list. */
  lemma FoundOnce<X>(s: seq<X>, k: nat)
    requires Distinct(s) && k < |s|
    ensures s[k] !in s[..k] && s[k] !in s[k + 1..]
  {
    OthersDiffer(s, k);
  }
}
