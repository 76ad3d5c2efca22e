// The leaf list against the tree: the leaves met from left to right, and how many there must be.
module BTreeShape {
  import opened KeyOrder
  import opened IxDefs
  import opened BTree
  import opened BTreeOrder

  /** The leaves under page p, found by descending through every child from left to right. */
  ghost function LeavesUnder(st: Store, sh: Shape, m: nat, p: PageId): seq<PageId>
    requires IndexInv(st, sh, m) && p in sh.info
    decreases sh.info[p].height, |st.pages[p].kids| + 1
  {
    assert PageInv(st, sh.info, m, Settled, p);
    if st.pages[p].isLeaf then [p] else LeavesOfKids(st, sh, m, p, |st.pages[p].kids|)
  }

  /** The leaves under the first i children of p. */
  ghost function LeavesOfKids(st: Store, sh: Shape, m: nat, p: PageId, i: nat): seq<PageId>
    requires IndexInv(st, sh, m) && p in sh.info && i <= |st.pages[p].kids|
    decreases sh.info[p].height, i
  {
    if i == 0 then [] else
      assert PageInv(st, sh.info, m, Settled, p);
      assert ChildOk(st.pages, sh.info, Settled, p, i - 1);
      LeavesOfKids(st, sh, m, p, i - 1) + LeavesUnder(st, sh, m, st.pages[p].kids[i - 1])
  }

  /** ls is the part of the leaf list from a to b, and its intervals run from lo to hi. */
  ghost predicate IsRun(sh: Shape, ls: seq<PageId>, a: nat, b: nat, lo: Option<Key>, hi: Option<Key>) {
    && a < b <= |sh.leaves| && ls == sh.leaves[a..b]
    && sh.leaves[a] in sh.info && sh.leaves[b - 1] in sh.info
    && sh.info[sh.leaves[a]].lo == lo && sh.info[sh.leaves[b - 1]].hi == hi
  }

  /** Two runs that meet at a key are next to each other. */
  lemma RunsMeet(st: Store, sh: Shape, m: nat, ls: seq<PageId>, a: nat, b: nat, lo: Option<Key>, mid: Key,
                 ls': seq<PageId>, a': nat, b': nat, hi: Option<Key>)
    requires IndexInv(st, sh, m)
    requires IsRun(sh, ls, a, b, lo, Some(mid)) && IsRun(sh, ls', a', b', Some(mid), hi)
    ensures IsRun(sh, ls + ls', a, b', lo, hi)
  {
    LeafFacts(st, sh, m, b - 1);
    assert b < |sh.leaves|;
    LeafFacts(st, sh, m, b);
    LeafFacts(st, sh, m, a');
    LessOrder(mid, mid, mid);
    if b < a' { LeafLoIncreases(st, sh, m, b, a'); }
    if 0 < a' < b { LeafLoIncreases(st, sh, m, a', b); }
  }

  /** The leaves under a page are the part of the leaf list that covers its interval. */
  lemma {:induction false} UnderIsRun(st: Store, sh: Shape, m: nat, p: PageId) returns (a: nat, b: nat)
    requires IndexInv(st, sh, m) && p in sh.info
    ensures IsRun(sh, LeavesUnder(st, sh, m, p), a, b, sh.info[p].lo, sh.info[p].hi)
    decreases sh.info[p].height, |st.pages[p].kids| + 1
  {
    assert PageInv(st, sh.info, m, Settled, p);
    if st.pages[p].isLeaf {
      a :| 0 <= a < |sh.leaves| && sh.leaves[a] == p;
      b := a + 1;
    } else {
      a, b := KidsAreRun(st, sh, m, p, |st.pages[p].kids|);
    }
  }

  lemma {:induction false} KidsAreRun(st: Store, sh: Shape, m: nat, p: PageId, i: nat) returns (a: nat, b: nat)
    requires IndexInv(st, sh, m) && p in sh.info && 1 <= i <= |st.pages[p].kids|
    ensures i - 1 <= |st.pages[p].keys|
    ensures IsRun(sh, LeavesOfKids(st, sh, m, p, i), a, b, sh.info[p].lo, SlotHi(st.pages[p], sh.info[p], i - 1))
    decreases sh.info[p].height, i
  {
    assert PageInv(st, sh.info, m, Settled, p);
    var c := st.pages[p].kids[i - 1];
    assert ChildOk(st.pages, sh.info, Settled, p, i - 1);
    var a', b' := UnderIsRun(st, sh, m, c);
    if i == 1 {
      a, b := a', b';
      assert LeavesOfKids(st, sh, m, p, 1) == [] + LeavesUnder(st, sh, m, c);
    } else {
      a, b := KidsAreRun(st, sh, m, p, i - 1);
      RunsMeet(st, sh, m, LeavesOfKids(st, sh, m, p, i - 1), a, b, sh.info[p].lo, st.pages[p].keys[i - 2],
               LeavesUnder(st, sh, m, c), a', b', sh.info[c].hi);
      b := b';
    }
  }

  /** The leaf list is exactly the leaves of the tree, left to right. */
  lemma LeafListIsTree(st: Store, sh: Shape, m: nat)
    requires IndexInv(st, sh, m)
    ensures LeavesUnder(st, sh, m, st.root) == sh.leaves
  {
    var a, b := UnderIsRun(st, sh, m, st.root);
    LeafFacts(st, sh, m, a);
    LeafFacts(st, sh, m, b - 1);
  }

  /** Key i of an internal node is the first key of the leftmost leaf under its child i + 1. */
  lemma SeparatorIsFirstKey(st: Store, sh: Shape, m: nat, p: PageId, i: nat)
    requires IndexInv(st, sh, m) && p in sh.info && !st.pages[p].isLeaf && i < |st.pages[p].keys|
    ensures |st.pages[p].kids| == |st.pages[p].keys| + 1
    ensures var c := st.pages[p].kids[i + 1];
      && c in sh.info && LeavesUnder(st, sh, m, c) != [] && LeavesUnder(st, sh, m, c)[0] in st.pages
      && st.pages[LeavesUnder(st, sh, m, c)[0]].keys != []
      && st.pages[LeavesUnder(st, sh, m, c)[0]].keys[0] == st.pages[p].keys[i]
  {
    assert PageInv(st, sh.info, m, Settled, p);
    assert ChildOk(st.pages, sh.info, Settled, p, i + 1);
    var c := st.pages[p].kids[i + 1];
    var a, b := UnderIsRun(st, sh, m, c);
    LeafFacts(st, sh, m, a);
    assert LeavesUnder(st, sh, m, c)[0] == sh.leaves[a];
  }

  function Pow(b: nat, e: nat): nat {
    if e == 0 then 1 else b * Pow(b, e - 1)
  }

  lemma MulLe(a: nat, b: nat, c: nat)
    requires a <= b
    ensures a * c <= b * c
  {
  }

  lemma MulStep(a: nat, b: nat)
    requires a > 0
    ensures a * b == (a - 1) * b + b
  {
  }

  /** Every page but the root is at least half full, rounded down, and none is full. */
  lemma HalfFull(st: Store, sh: Shape, m: nat, p: PageId)
    requires IndexInv(st, sh, m) && p in sh.info
    ensures |st.pages[p].keys| < m
    ensures p != st.root ==> m <= 2 * (if st.pages[p].isLeaf then |st.pages[p].keys| else |st.pages[p].kids|) + 1
  {
    assert PageInv(st, sh.info, m, Settled, p);
  }

  /** The least number of keys of a leaf and of children of an internal node. */
  ghost predicate MinSize(m: nat, s: nat) { s == m / 2 }

  lemma Filled(st: Store, sh: Shape, m: nat, s: nat, p: PageId)
    requires IndexInv(st, sh, m) && MinSize(m, s) && p in sh.info
    requires p != st.root
    ensures st.pages[p].isLeaf ==> |st.pages[p].keys| >= s
    ensures !st.pages[p].isLeaf ==> |st.pages[p].kids| >= s && sh.info[p].height > 0
    ensures st.pages[p].isLeaf ==> sh.info[p].height == 0
  {
    assert PageInv(st, sh.info, m, Settled, p);
  }

  /** A page other than the root, h levels above the leaves, has at least min_size^h leaves under it. */
  lemma {:induction false} ManyLeaves(st: Store, sh: Shape, m: nat, s: nat, p: PageId)
    requires IndexInv(st, sh, m) && MinSize(m, s) && p in sh.info && p != st.root
    ensures |LeavesUnder(st, sh, m, p)| >= Pow(s, sh.info[p].height)
    decreases sh.info[p].height, |st.pages[p].kids| + 1
  {
    Filled(st, sh, m, s, p);
    if !st.pages[p].isLeaf {
      ManyLeavesOfKids(st, sh, m, s, p, |st.pages[p].kids|);
      MulLe(s, |st.pages[p].kids|, Pow(s, sh.info[p].height - 1));
    }
  }

  lemma {:induction false} ManyLeavesOfKids(st: Store, sh: Shape, m: nat, s: nat, p: PageId, i: nat)
    requires IndexInv(st, sh, m) && MinSize(m, s) && p in sh.info && i <= |st.pages[p].kids| && sh.info[p].height > 0
    ensures |LeavesOfKids(st, sh, m, p, i)| >= i * Pow(s, sh.info[p].height - 1)
    decreases sh.info[p].height, i
  {
    if i > 0 {
      var c := st.pages[p].kids[i - 1];
      assert sh.info[p].height == sh.info[c].height + 1 && c in sh.info && c != st.root by {
        assert PageInv(st, sh.info, m, Settled, p);
        assert ChildOk(st.pages, sh.info, Settled, p, i - 1);
        KidFacts(st, sh.info, m, Settled, p, c);
      }
      ManyLeaves(st, sh, m, s, c);
      ManyLeavesOfKids(st, sh, m, s, p, i - 1);
      MulStep(i, Pow(s, sh.info[p].height - 1));
    }
  }

  /** Every leaf but a lone root holds at least min_size entries. */
  lemma {:induction false} LeavesAreFilled(st: Store, sh: Shape, m: nat, s: nat, j: nat)
    requires IndexInv(st, sh, m) && MinSize(m, s) && j <= |sh.leaves| && st.root !in sh.leaves
    ensures Offset(st, sh, j) >= j * s
  {
    if j == 0 {
      assert sh.leaves[..0] == [];
    } else {
      LeavesAreFilled(st, sh, m, s, j - 1);
      OffsetStep(st, sh, m, j - 1);
      LeafFacts(st, sh, m, j - 1);
      assert sh.leaves[j - 1] in sh.leaves;
      Filled(st, sh, m, s, sh.leaves[j - 1]);
      MulStep(j, s);
    }
  }

  /** A tree with h >= 1 internal levels holds at least 2 * min_size^h entries. */
  lemma ManyEntries(st: Store, sh: Shape, m: nat, s: nat)
    requires IndexInv(st, sh, m) && MinSize(m, s) && sh.info[st.root].height >= 1
    ensures |Contents(st, sh)| >= 2 * Pow(s, sh.info[st.root].height)
  {
    var h := sh.info[st.root].height;
    var ls, half := |sh.leaves|, Pow(s, h - 1);
    assert |st.pages[st.root].kids| >= 2 && !st.pages[st.root].isLeaf by {
      assert PageInv(st, sh.info, m, Settled, st.root);
    }
    ManyLeavesOfKids(st, sh, m, s, st.root, |st.pages[st.root].kids|);
    LeafListIsTree(st, sh, m);
    forall j | 0 <= j < ls ensures sh.leaves[j] != st.root { LeafFacts(st, sh, m, j); }
    LeavesAreFilled(st, sh, m, s, ls);
    OffsetEnd(st, sh);
    TwiceAsMany(|st.pages[st.root].kids|, half, ls, s, |Contents(st, sh)|);
  }

  lemma TwiceAsMany(kids: nat, half: nat, leaves: nat, s: nat, entries: nat)
    requires kids >= 2 && leaves >= kids * half && entries >= leaves * s
    ensures entries >= 2 * (s * half)
  {
    MulLe(2, kids, half);
    MulLe(2 * half, leaves, s);
    assert 2 * half * s == 2 * (s * half);
  }
}
