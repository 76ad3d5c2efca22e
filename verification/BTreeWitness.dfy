// A small index in which a stored key cannot be found: what routing equal keys to the left costs. It is the index on
// one CHAR(512) column, for which a node has room for seven keys, after the keys "a" to "g" have been inserted.
module BTreeWitness {
  import opened KeyOrder
  import opened IxDefs
  import opened BTree
  import opened BTreeOrder
  import opened BTreeSearch
  import opened BTreeInsert
  import Hdr = IxFileHdr

  const M := 7

  function K(n: nat): Key { [StrVal([96 + n])] }
  function R(n: nat): Rid { Rid(1, n) }

  /** The keys and rids 1 to n. */
  function Ks(n: nat): (s: seq<Key>)
    ensures |s| == n && forall i | 0 <= i < n :: s[i] == K(i + 1)
  {
    if n == 0 then [] else Ks(n - 1) + [K(n)]
  }

  function Rs(n: nat): (s: seq<Rid>)
    ensures |s| == n && forall i | 0 <= i < n :: s[i] == R(i + 1)
  {
    if n == 0 then [] else Rs(n - 1) + [R(n)]
  }

  /** That node size is the one create_index computes for a key of that length, the smallest there is. */
  lemma NodeSize()
    ensures Hdr.MaxSize(Hdr.IX_MAX_COL_LEN) == M
    ensures forall len | 0 < len <= Hdr.IX_MAX_COL_LEN :: Hdr.MaxSize(len) >= M
  {
    forall len | 0 < len <= Hdr.IX_MAX_COL_LEN ensures Hdr.MaxSize(len) >= M {
      Hdr.MaxSizeFalls(len, Hdr.IX_MAX_COL_LEN);
    }
  }

  lemma KeysRise(a: nat, b: nat)
    requires a < b
    ensures Less(K(a), K(b))
  {
    assert StrLess([96 + a], [96 + b]);
  }

  /** n insertions into a leaf, one after the other. */
  function FillLeaf(pg: Page, n: nat): (r: Page)
    requires |pg.rids| == |pg.keys|
    ensures |r.rids| == |r.keys|
  {
    if n == 0 then pg else LeafInserted(FillLeaf(pg, n - 1), K(n), R(n))
  }

  /** Into an empty leaf they put the keys in their order. */
  lemma {:induction false} FilledLeaf(pg: Page, n: nat)
    requires pg.keys == [] && pg.rids == []
    ensures FillLeaf(pg, n) == pg.(keys := Ks(n), rids := Rs(n))
  {
    if n > 0 {
      FilledLeaf(pg, n - 1);
      FillNext(pg.(keys := Ks(n - 1), rids := Rs(n - 1)), n - 1, n);
    }
  }

  lemma FillNext(pg: Page, m: nat, n: nat)
    requires n == m + 1 && pg.keys == Ks(m) && pg.rids == Rs(m)
    ensures LeafInserted(pg, K(n), R(n)) == pg.(keys := Ks(n), rids := Rs(n))
  {
    forall i | 0 <= i < m ensures Less(pg.keys[i], K(n)) { KeysRise(i + 1, n); }
    LowerPosUnique(pg.keys, K(n), m);
    assert pg.keys[..m] == pg.keys && pg.rids[..m] == pg.rids;
  }

  /** What insert_entry leaves behind after seven keys: two leaves under a root whose one separator is the fifth. */
  function SevenKeys(): Store {
    Store(map[IX_LEAF_HEADER_PAGE := Page(IX_NO_PAGE, true, 3, 2, [], [], []),
              2 := Page(4, true, 1, 3, [K(1), K(2), K(3), K(4)], [R(1), R(2), R(3), R(4)], []),
              3 := Page(4, true, 2, 1, [K(5), K(6), K(7)], [R(5), R(6), R(7)], []),
              4 := Page(IX_NO_PAGE, false, IX_NO_PAGE, IX_NO_PAGE, [K(5)], [], [2, 3])],
          4, 2, 3, 5)
  }

  function SevenKeysShape(): Shape {
    Shape(map[2 := Info(0, None, Some(K(5))), 3 := Info(0, Some(K(5)), None), 4 := Info(1, None, None)], [2, 3])
  }

  /** A leaf with the first seven keys, split in the middle, under a new root. */
  lemma SplitSeven(full: Page)
    requires full == CreatedStore().pages[2].(keys := full.keys, rids := full.rids) && |full.rids| == |full.keys| == M
    requires forall i | 0 <= i < M :: full.keys[i] == K(i + 1) && full.rids[i] == R(i + 1)
    ensures var st := CreatedStore();
      NewRoot(SplitLeaf(st.(pages := st.pages[2 := full]), 2), 2, K(5), 3).(lastLeaf := 3) == SevenKeys()
  {
    var st := CreatedStore();
    assert full.keys[..4] == [K(1), K(2), K(3), K(4)] && full.keys[4..] == [K(5), K(6), K(7)];
    assert full.rids[..4] == [R(1), R(2), R(3), R(4)] && full.rids[4..] == [R(5), R(6), R(7)];
    var split := SplitLeaf(st.(pages := st.pages[2 := full]), 2);
    assert split.pages[3] == Page(IX_NO_PAGE, true, 2, 1, [K(5), K(6), K(7)], [R(5), R(6), R(7)], []);
    assert NewRoot(split, 2, K(5), 3).(lastLeaf := 3).pages == SevenKeys().pages;
  }

  /** The leaf is filled by seven insertions, then come a split, a new root, and the last leaf in the header. */
  lemma SevenKeysReached(n: nat)
    requires n == M
    ensures var st := CreatedStore();
      var full := FillLeaf(st.pages[2], n);
      NewRoot(SplitLeaf(st.(pages := st.pages[2 := full]), 2), 2, K(5), 3).(lastLeaf := 3) == SevenKeys()
  {
    FilledLeaf(CreatedStore().pages[2], n);
    SplitSeven(FillLeaf(CreatedStore().pages[2], n));
  }

  lemma SevenKeysPage(p: PageId)
    requires p in SevenKeysShape().info
    ensures p in SevenKeys().pages && PageInv(SevenKeys(), SevenKeysShape().info, M, Settled, p)
  {
    var st, sh := SevenKeys(), SevenKeysShape();
    assert p == 2 || p == 3 || p == 4;
    SortedLeaf(st.pages[p], p);
    if p == 4 {
      assert ChildOk(st.pages, sh.info, Settled, 4, 0) && ChildOk(st.pages, sh.info, Settled, 4, 1);
    } else {
      assert IsKid(st.pages, sh.info, 4, p) by { assert st.pages[4].kids[p - 2] == p; }
    }
  }

  lemma SortedLeaf(pg: Page, p: PageId)
    requires p in SevenKeysShape().info && pg == SevenKeys().pages[p]
    ensures NodeOk(pg, SevenKeysShape().info[p])
  {
    var first := if p == 2 then 1 else 5;
    forall i | 0 <= i < |pg.keys| ensures pg.keys[i] == K(first + i) {}
    forall i, j | 0 <= i < j < |pg.keys| ensures Less(pg.keys[i], pg.keys[j]) { KeysRise(first + i, first + j); }
    forall i | 0 <= i < |pg.keys| && p != 4
      ensures if p == 2 then !Less(K(5), pg.keys[i]) else !Less(pg.keys[i], K(5))
    {
      if p == 2 { KeysRise(1 + i, 5); } else if i > 0 { KeysRise(5, 5 + i); }
      LessOrder(K(5), pg.keys[i], K(5));
    }
  }

  lemma SevenKeysIsIndex()
    ensures IndexInv(SevenKeys(), SevenKeysShape(), M)
  {
    var st, sh := SevenKeys(), SevenKeysShape();
    forall p | p in sh.info ensures p in st.pages && PageInv(st, sh.info, M, Settled, p) { SevenKeysPage(p); }
    assert LinkOk(st.pages, sh.info, sh.leaves, 0) && LinkOk(st.pages, sh.info, sh.leaves, 1);
  }

  /** Entry n of the index. */
  function E(n: nat): Entry { Entry(K(n), R(n)) }

  lemma SevenKeysContents()
    ensures Contents(SevenKeys(), SevenKeysShape()) == [E(1), E(2), E(3), E(4), E(5), E(6), E(7)]
  {
    var st, sh := SevenKeys(), SevenKeysShape();
    assert sh.leaves[1..] == [3] && sh.leaves[1..][1..] == [];
    assert Entries(st.pages, [3]) == PageEntries(st.pages[3]) by { assert [3][1..] == []; }
    assert PageEntries(st.pages[2]) == [E(1), E(2), E(3), E(4)];
    assert PageEntries(st.pages[3]) == [E(5), E(6), E(7)];
  }

  /** The entries one by one. */
  predicate Rising(es: seq<Entry>) {
    |es| == M && forall i | 0 <= i < M :: es[i] == E(i + 1)
  }

  lemma SevenKeysRise()
    ensures Rising(Contents(SevenKeys(), SevenKeysShape())) && EntriesStrict(Contents(SevenKeys(), SevenKeysShape()))
  {
    SevenKeysContents();
    RisingIsStrict(Contents(SevenKeys(), SevenKeysShape()));
  }

  lemma RisingIsStrict(es: seq<Entry>)
    requires Rising(es)
    ensures EntriesStrict(es)
  {
    forall i, j | 0 <= i < j < |es| ensures Less(es[i].key, es[j].key) {
      assert es[i] == E(i + 1) && es[j] == E(j + 1);
      KeysRise(i + 1, j + 1);
    }
  }

  /** Where a second copy of the fifth key goes, and where a search above the fourth key should stop. */
  lemma RisingPositions(es: seq<Entry>)
    requires Rising(es)
    ensures LowerEntry(es, K(5)) == 4 && UpperEntry(es, K(4)) == 4
  {
    RisingIsStrict(es);
    LessOrder(K(5), K(5), K(5));
    LowerEntryUnique(es, K(5), 4);
    forall i | 0 <= i < 4 ensures !Less(K(4), es[i].key) {
      if i < 3 { assert Less(es[i].key, es[3].key); }
      LessOrder(K(4), es[i].key, K(4));
      LessOrder(K(4), K(4), K(4));
    }
    UpperEntryUnique(es, K(4), 4);
  }

  lemma FifthIsSeparator()
    ensures IsSeparator(SevenKeys(), SevenKeysShape(), K(5))
  {
    assert 4 in SevenKeysShape().info && K(5) in SevenKeys().pages[4].keys;
  }

  /** The fifth key is stored, once, and get_value does not find it: so a unique index accepts it a second time. */
  lemma SeparatorNotFound()
    ensures var st, sh := SevenKeys(), SevenKeysShape(); var es := Contents(st, sh);
      && IndexInv(st, sh, M) && EntriesStrict(es) && |es| == M
      && es[4].key == K(5) && !Found(es, K(5), IsSeparator(st, sh, K(5)))
      && InsertAt(es, LowerEntry(es, K(5)), Entry(K(5), R(9)))[4..6] == [Entry(K(5), R(9)), E(5)]
  {
    var st, sh := SevenKeys(), SevenKeysShape();
    FifthLost();
    SevenKeysRise();
    SecondFifth(Contents(st, sh));
  }

  lemma FifthLost()
    ensures IndexInv(SevenKeys(), SevenKeysShape(), M)
    ensures !Found(Contents(SevenKeys(), SevenKeysShape()), K(5), IsSeparator(SevenKeys(), SevenKeysShape(), K(5)))
  {
    SevenKeysIsIndex();
    SevenKeysRise();
    FifthIsSeparator();
    var n := SeparatorLost(SevenKeys(), SevenKeysShape(), M, K(5));
  }

  lemma SecondFifth(es: seq<Entry>)
    requires Rising(es)
    ensures InsertAt(es, LowerEntry(es, K(5)), Entry(K(5), R(9)))[4..6] == [Entry(K(5), R(9)), E(5)]
  {
    RisingPositions(es);
  }

  /** The upper bound of the fourth key should be entry 4, the first of the second leaf. It is one too far. */
  lemma UpperBoundTooFar()
    ensures var st, sh := SevenKeys(), SevenKeysShape();
      && IndexInv(st, sh, M) && UpperEntry(Contents(st, sh), K(4)) == 4 && StartsLeaf(st, sh, 4)
  {
    var st, sh := SevenKeys(), SevenKeysShape();
    SevenKeysIsIndex();
    SevenKeysRise();
    RisingPositions(Contents(st, sh));
    FirstLeafEnds();
  }

  lemma FirstLeafEnds()
    ensures Offset(SevenKeys(), SevenKeysShape(), 1) == 4
  {
    var st, sh := SevenKeys(), SevenKeysShape();
    SevenKeysIsIndex();
    assert sh.leaves[..0] == [];
    OffsetStep(st, sh, M, 0);
  }
}
