/** The tree in memory and the id pairs that a list of its entries is written with. */
module TreePairs {
  import opened Entries
  import opened Threading
  import opened TreeLoad

  function IdOf(ids: map<Entry, Id>, x: Entry): Id {
    if x in ids then ids[x] else []
  }

  /** The tree with ids for entries. */
  function BranchOf(t: Tree, ids: map<Entry, Id>): Branch {
    Branch(IdOf(ids, t.node), BranchesOf(t.kids, ids))
  }

  function BranchesOf(kids: seq<Tree>, ids: map<Entry, Id>): (r: seq<Branch>)
    ensures |r| == |kids|
  {
    if kids == [] then [] else BranchesOf(kids[..|kids| - 1], ids) + [BranchOf(kids[|kids| - 1], ids)]
  }

  /** `parentOf` leads from every child to its parent. */
  ghost predicate Upward(t: Tree, parentOf: map<Entry, Entry>) {
    forall i :: 0 <= i < |t.kids| ==> t.kids[i].node in parentOf && parentOf[t.kids[i].node] == t.node && Upward(t.kids[i], parentOf)
  }

  function PairOf(x: Entry, parentOf: map<Entry, Entry>, ids: map<Entry, Id>): (Id, Id) {
    (IdOf(ids, x), if x in parentOf then IdOf(ids, parentOf[x]) else [])
  }

  function PairsFor(s: seq<Entry>, parentOf: map<Entry, Entry>, ids: map<Entry, Id>): seq<(Id, Id)> {
    seq(|s|, i requires 0 <= i < |s| => PairOf(s[i], parentOf, ids))
  }

  lemma PairsForConcat(a: seq<Entry>, b: seq<Entry>, parentOf: map<Entry, Entry>, ids: map<Entry, Id>)
    ensures PairsFor(a + b, parentOf, ids) == PairsFor(a, parentOf, ids) + PairsFor(b, parentOf, ids)
  {
  }

  lemma {:induction false} PreorderPairs(t: Tree, parentOf: map<Entry, Entry>, ids: map<Entry, Id>)
    requires Upward(t, parentOf) && t.node in parentOf
    ensures PairsFor(Preorder(t), parentOf, ids) == Pairs(BranchOf(t, ids), IdOf(ids, parentOf[t.node]))
    decreases t, 0
  {
    PairsForConcat([t.node], PreorderAll(t.kids), parentOf, ids);
    PreorderAllPairs(t.kids, t.node, parentOf, ids);
  }

  /** The list that the linking pass leaves has the id pairs of the tree. */
  lemma {:induction false} PreorderAllPairs(kids: seq<Tree>, parent: Entry, parentOf: map<Entry, Entry>, ids: map<Entry, Id>)
    requires forall i :: 0 <= i < |kids| ==> kids[i].node in parentOf && parentOf[kids[i].node] == parent && Upward(kids[i], parentOf)
    ensures PairsFor(PreorderAll(kids), parentOf, ids) == PairsAll(BranchesOf(kids, ids), IdOf(ids, parent))
    decreases kids, 1
  {
    if kids != [] {
      var init, last := kids[..|kids| - 1], kids[|kids| - 1];
      PairsForConcat(PreorderAll(init), Preorder(last), parentOf, ids);
      PreorderAllPairs(init, parent, parentOf, ids);
      PreorderPairs(last, parentOf, ids);
      assert BranchesOf(kids, ids)[..|kids| - 1] == BranchesOf(init, ids);
    }
  }
}
