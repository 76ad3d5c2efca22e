// One insertion, from the routed leaf to the settled tree, as steps on the store.
module BTreeInsert {
  import opened KeyOrder
  import opened IxDefs
  import opened BTree
  import opened BTreeOrder

  /** Searching goes one level down, and the child it goes to still serves the key. */
  lemma DescendStep(st: Store, info: map<PageId, Info>, m: nat, p: PageId, k: Key)
    requires TreeInv(st, info, m, Settled) && p in info && !st.pages[p].isLeaf && Routed(info[p], k)
    ensures var pg := st.pages[p]; Sorted(pg.keys) && LowerPos(pg.keys, k) < |pg.kids|
    ensures var c := st.pages[p].kids[LowerPos(st.pages[p].keys, k)];
      c in info && c in st.pages && info[p].height == info[c].height + 1 && Routed(info[c], k)
  {
    assert PageInv(st, info, m, Settled, p);
    var i := LowerPos(st.pages[p].keys, k);
    assert ChildOk(st.pages, info, Settled, p, i);
  }

  /** Every leaf page is in the leaf list. */
  lemma LeafIndex(st: Store, sh: Shape, m: nat, p: PageId) returns (j: nat)
    requires IndexInv(st, sh, m) && p in sh.info && st.pages[p].isLeaf
    ensures j < |sh.leaves| && sh.leaves[j] == p
  {
    assert p in sh.leaves;
    j :| 0 <= j < |sh.leaves| && sh.leaves[j] == p;
  }

  /** A leaf may get other pairs without the leaf list noticing. */
  lemma NewPairsKeepChain(pages: map<PageId, Page>, info: map<PageId, Info>, leaves: seq<PageId>, p: PageId, pg': Page)
    requires ChainInv(pages, info, leaves) && p in info && p in pages && pages[p].isLeaf
    requires pg' == pages[p].(keys := pg'.keys, rids := pg'.rids)
    ensures ChainInv(pages[p := pg'], info, leaves)
  {
    var pages' := pages[p := pg'];
    forall j | 0 <= j < |leaves| ensures LinkOk(pages', info, leaves, j) { assert LinkOk(pages, info, leaves, j); }
  }

  /** The pair goes into the leaf the search ended in: the leaf may now be full, the entries have it in its place. */
  lemma LeafStep(st: Store, sh: Shape, m: nat, p: PageId, k: Key, r: Rid)
    requires IndexInv(st, sh, m) && p in sh.info && st.pages[p].isLeaf && Routed(sh.info[p], k)
    requires k !in st.pages[p].keys
    ensures |st.pages[p].rids| == |st.pages[p].keys|
    ensures var st' := st.(pages := st.pages[p := LeafInserted(st.pages[p], k, r)]);
      && TreeInv(st', sh.info, m, Over(p)) && ChainInv(st'.pages, sh.info, sh.leaves)
      && Contents(st', sh) == InsertAt(Contents(st, sh), LowerEntry(Contents(st, sh), k), Entry(k, r))
  {
    LeafInsertKeeps(st, sh.info, m, p, k, r);
    NewPairsKeepChain(st.pages, sh.info, sh.leaves, p, LeafInserted(st.pages[p], k, r));
    var j := LeafIndex(st, sh, m, p);
    InsertedContents(st, sh, m, j, k, r);
  }

  /** What a leaf split does to the tree seen from above. */
  function SplitShape(sh: Shape, p: PageId, key: Key, q: PageId, j: nat): Shape
    requires p in sh.info && j < |sh.leaves|
  {
    Shape(SplitInfo(sh.info, p, key, q), InsertAt(sh.leaves, j + 1, q))
  }

  /** A full leaf is split: its right half waits for a parent slot, the entries stay as they are. */
  lemma SplitStep(st: Store, sh: Shape, m: nat, p: PageId, j: nat)
    requires m >= 4 && FullLeaf(st, sh.info, m, p, sh.leaves, j)
    ensures var key, st' := st.pages[p].keys[(m + 1) / 2], SplitLeaf(st, p);
      var sh' := SplitShape(sh, p, key, st.numPages, j);
      && st.numPages in st'.pages && st'.pages[st.numPages].keys != [] && st'.pages[st.numPages].keys[0] == key
      && st'.firstLeaf == st.firstLeaf && st'.lastLeaf == st.lastLeaf
      && TreeInv(st', sh'.info, m, Orphan(p, key, st.numPages)) && ChainInv(st'.pages, sh'.info, sh'.leaves)
      && Contents(st', sh') == Contents(st, sh)
  {
    var mid, st' := (m + 1) / 2, SplitLeaf(st, p);
    SplitLeafCuts(st, sh.info, m, p, sh.leaves, j);
    SplitLeafTree(st, st', sh.info, m, p, mid);
    SplitLeafChain(st, st', sh.info, p, mid, sh.leaves, j);
    SplitLeafEntries(st, st', sh.info, p, mid, sh.leaves, j);
  }

  lemma FindFullLeaf(st: Store, info: map<PageId, Info>, m: nat, p: PageId, leaves: seq<PageId>) returns (j: nat)
    requires TreeInv(st, info, m, Over(p)) && p in info && st.pages[p].isLeaf && |st.pages[p].keys| == m
    requires ChainInv(st.pages, info, leaves)
    ensures FullLeaf(st, info, m, p, leaves, j)
  {
    assert PageInv(st, info, m, Over(p), p);
    assert p in leaves;
    j :| 0 <= j < |leaves| && leaves[j] == p;
  }

  /** What split reads off a full leaf. */
  lemma FullLeafFacts(st: Store, info: map<PageId, Info>, m: nat, p: PageId, leaves: seq<PageId>, j: nat)
    requires FullLeaf(st, info, m, p, leaves, j)
    ensures st.pages[p].kids == [] && st.pages[p].next in st.pages && st.pages[p].next != p && st.numPages !in st.pages
  {
    assert PageInv(st, info, m, Over(p), p);
    assert LinkOk(st.pages, info, leaves, j);
    if j + 1 < |leaves| { assert LinkOk(st.pages, info, leaves, j + 1); }
  }

  /** The tree does not depend on the last leaf recorded in the file header. */
  lemma LastLeafKeeps(st: Store, info: map<PageId, Info>, m: nat, l: PageId)
    requires TreeInv(st, info, m, Settled)
    ensures TreeInv(st.(lastLeaf := l), info, m, Settled)
  {
    forall p | p in info ensures PageInv(st.(lastLeaf := l), info, m, Settled, p) {
      assert PageInv(st, info, m, Settled, p);
    }
  }

  /** The pages create_index writes: the closing page of the leaf list, and an empty leaf as the root. */
  function CreatedStore(): Store {
    Store(map[IX_LEAF_HEADER_PAGE := Page(IX_NO_PAGE, true, IX_INIT_ROOT_PAGE, IX_INIT_ROOT_PAGE, [], [], []),
              IX_INIT_ROOT_PAGE := Page(IX_NO_PAGE, true, IX_LEAF_HEADER_PAGE, IX_LEAF_HEADER_PAGE, [], [], [])],
          IX_INIT_ROOT_PAGE, IX_INIT_ROOT_PAGE, IX_INIT_ROOT_PAGE, IX_INIT_NUM_PAGES)
  }

  function CreatedShape(): Shape {
    Shape(map[IX_INIT_ROOT_PAGE := Info(0, None, None)], [IX_INIT_ROOT_PAGE])
  }

  /** They are a B+ tree without entries. */
  lemma CreatedIndex(m: nat)
    requires m >= 4
    ensures IndexInv(CreatedStore(), CreatedShape(), m) && Contents(CreatedStore(), CreatedShape()) == []
  {
    var st, sh := CreatedStore(), CreatedShape();
    assert PageInv(st, sh.info, m, Settled, IX_INIT_ROOT_PAGE);
    assert LinkOk(st.pages, sh.info, sh.leaves, 0);
    assert Entries(st.pages, sh.leaves[1..]) == [];
  }
}
