// What the B+ tree invariant says about the whole index: one ordered sequence of entries.
module BTreeOrder {
  import opened KeyOrder
  import opened IxDefs
  import opened BTree

  ghost predicate EntriesSorted(es: seq<Entry>) {
    forall i, j | 0 <= i < j < |es| :: !Less(es[j].key, es[i].key)
  }

  /** No key twice. */
  ghost predicate EntriesStrict(es: seq<Entry>) {
    forall i, j | 0 <= i < j < |es| :: Less(es[i].key, es[j].key)
  }

  /** The number of leading entries below k. */
  function LowerEntry(es: seq<Entry>, k: Key): (r: nat)
    ensures r <= |es|
    ensures forall i | 0 <= i < r :: Less(es[i].key, k)
    ensures r < |es| ==> !Less(es[r].key, k)
  {
    LowerEntryFrom(es, k, 0)
  }

  function LowerEntryFrom(es: seq<Entry>, k: Key, i: nat): (r: nat)
    requires i <= |es|
    ensures i <= r <= |es|
    ensures forall j | i <= j < r :: Less(es[j].key, k)
    ensures r < |es| ==> !Less(es[r].key, k)
    decreases |es| - i
  {
    if i == |es| || !Less(es[i].key, k) then i else LowerEntryFrom(es, k, i + 1)
  }

  lemma LowerEntryUnique(es: seq<Entry>, k: Key, p: nat)
    requires p <= |es|
    requires forall i | 0 <= i < p :: Less(es[i].key, k)
    requires p < |es| ==> !Less(es[p].key, k)
    ensures p == LowerEntry(es, k)
  {
  }

  /** A settled tree together with its leaf list. */
  ghost predicate IndexInv(st: Store, sh: Shape, m: nat) {
    && m >= 4
    && TreeInv(st, sh.info, m, Settled)
    && ChainInv(st.pages, sh.info, sh.leaves)
    && st.firstLeaf == sh.leaves[0]
    && st.lastLeaf == sh.leaves[|sh.leaves| - 1]
  }

  ghost function Contents(st: Store, sh: Shape): seq<Entry> {
    Entries(st.pages, sh.leaves)
  }

  /** How many entries the leaves before the j-th hold. */
  ghost function Offset(st: Store, sh: Shape, j: nat): nat
    requires j <= |sh.leaves|
  {
    |Entries(st.pages, sh.leaves[..j])|
  }

  // ----- the leaves one by one -----

  lemma LeafFacts(st: Store, sh: Shape, m: nat, j: nat)
    requires IndexInv(st, sh, m) && j < |sh.leaves|
    ensures var p := sh.leaves[j];
      && p in sh.info && p in st.pages && p != IX_LEAF_HEADER_PAGE && st.pages[p].isLeaf
      && Sorted(st.pages[p].keys) && LeafOk(st.pages[p], sh.info[p])
      && LinkOk(st.pages, sh.info, sh.leaves, j)
      && (j > 0 ==> sh.info[p].lo.Some?) && (j + 1 < |sh.leaves| ==> sh.info[p].hi.Some?)
  {
    assert LinkOk(st.pages, sh.info, sh.leaves, j);
    assert PageInv(st, sh.info, m, Settled, sh.leaves[j]);
    if j > 0 { assert LinkOk(st.pages, sh.info, sh.leaves, j - 1); }
  }

  /** Splitting off the j-th leaf from the entries. */
  lemma EntriesStep(st: Store, sh: Shape, m: nat, j: nat)
    requires IndexInv(st, sh, m) && j < |sh.leaves|
    ensures sh.leaves[j] in st.pages
    ensures Entries(st.pages, sh.leaves[..j + 1])
         == Entries(st.pages, sh.leaves[..j]) + PageEntries(st.pages[sh.leaves[j]])
    ensures Entries(st.pages, sh.leaves[j..])
         == PageEntries(st.pages[sh.leaves[j]]) + Entries(st.pages, sh.leaves[j + 1..])
  {
    LeafFacts(st, sh, m, j);
    var p := sh.leaves[j];
    assert sh.leaves[..j + 1] == sh.leaves[..j] + [p];
    EntriesConcat(st.pages, sh.leaves[..j], [p]);
    assert Entries(st.pages, [p]) == PageEntries(st.pages[p]) by { assert [p][1..] == []; }
  }

  lemma OffsetStep(st: Store, sh: Shape, m: nat, j: nat)
    requires IndexInv(st, sh, m) && j < |sh.leaves|
    ensures sh.leaves[j] in st.pages
    ensures Offset(st, sh, j + 1) == Offset(st, sh, j) + |st.pages[sh.leaves[j]].keys|
  {
    EntriesStep(st, sh, m, j);
    LeafFacts(st, sh, m, j);
  }

  /** The leaves together hold all entries. */
  lemma OffsetEnd(st: Store, sh: Shape)
    ensures Offset(st, sh, |sh.leaves|) == |Contents(st, sh)|
  {
    assert sh.leaves[..|sh.leaves|] == sh.leaves;
  }

  lemma ContentsSplit(st: Store, sh: Shape, j: nat)
    requires j <= |sh.leaves|
    ensures Contents(st, sh) == Entries(st.pages, sh.leaves[..j]) + Entries(st.pages, sh.leaves[j..])
  {
    assert sh.leaves == sh.leaves[..j] + sh.leaves[j..];
    EntriesConcat(st.pages, sh.leaves[..j], sh.leaves[j..]);
  }

  lemma OffsetWithin(st: Store, sh: Shape, j: nat)
    requires j <= |sh.leaves|
    ensures Offset(st, sh, j) <= |Contents(st, sh)|
  {
    ContentsSplit(st, sh, j);
  }

  /** Slot s of leaf j is entry Offset(j) + s. */
  lemma EntryAt(st: Store, sh: Shape, m: nat, j: nat, s: nat)
    requires IndexInv(st, sh, m) && j < |sh.leaves|
    requires sh.leaves[j] in st.pages && s < |st.pages[sh.leaves[j]].keys|
    ensures |st.pages[sh.leaves[j]].rids| == |st.pages[sh.leaves[j]].keys|
    ensures Offset(st, sh, j) + s < |Contents(st, sh)|
    ensures Contents(st, sh)[Offset(st, sh, j) + s]
         == Entry(st.pages[sh.leaves[j]].keys[s], st.pages[sh.leaves[j]].rids[s])
  {
    LeafFacts(st, sh, m, j);
    EntriesStep(st, sh, m, j);
    ContentsSplit(st, sh, j);
  }

  ghost predicate AllAtMost(es: seq<Entry>, hi: Option<Key>) { forall i | 0 <= i < |es| :: AtMost(es[i].key, hi) }
  ghost predicate AllAtLeast(es: seq<Entry>, lo: Option<Key>) { forall i | 0 <= i < |es| :: AtLeast(es[i].key, lo) }

  ghost predicate AllBelow(es: seq<Entry>, k: Key) { forall i | 0 <= i < |es| :: Less(es[i].key, k) }
  ghost predicate AllNotBelow(es: seq<Entry>, k: Key) { forall i | 0 <= i < |es| :: !Less(es[i].key, k) }

  /** Everything up to leaf j stays at or below that leaf's upper end. */
  lemma {:induction false} PrefixAtMost(st: Store, sh: Shape, m: nat, j: nat)
    requires IndexInv(st, sh, m) && j < |sh.leaves|
    ensures sh.leaves[j] in sh.info
    ensures AllAtMost(Entries(st.pages, sh.leaves[..j + 1]), sh.info[sh.leaves[j]].hi)
  {
    LeafFacts(st, sh, m, j);
    EntriesStep(st, sh, m, j);
    var inf := sh.info[sh.leaves[j]];
    if j == 0 {
      assert sh.leaves[..0] == [];
    } else {
      PrefixAtMost(st, sh, m, j - 1);
      LeafFacts(st, sh, m, j - 1);
      var es := Entries(st.pages, sh.leaves[..j]);
      forall i | 0 <= i < |es| ensures AtMost(es[i].key, inf.hi) {
        if inf.hi.Some? {
          assert AtMost(es[i].key, inf.lo) && AtMost(inf.lo.value, inf.hi);
          LessOrder(es[i].key, inf.lo.value, inf.hi.value);
          LessOrder(inf.hi.value, es[i].key, inf.lo.value);
        }
      }
    }
  }

  /** Everything from leaf j on stays at or above that leaf's lower end. */
  lemma {:induction false} SuffixAtLeast(st: Store, sh: Shape, m: nat, j: nat)
    requires IndexInv(st, sh, m) && j < |sh.leaves|
    ensures sh.leaves[j] in sh.info
    ensures AllAtLeast(Entries(st.pages, sh.leaves[j..]), sh.info[sh.leaves[j]].lo)
    decreases |sh.leaves| - j
  {
    LeafFacts(st, sh, m, j);
    EntriesStep(st, sh, m, j);
    var inf := sh.info[sh.leaves[j]];
    if j + 1 == |sh.leaves| {
      assert sh.leaves[j + 1..] == [];
    } else {
      SuffixAtLeast(st, sh, m, j + 1);
      LeafFacts(st, sh, m, j + 1);
      var es := Entries(st.pages, sh.leaves[j + 1..]);
      forall i | 0 <= i < |es| ensures AtLeast(es[i].key, inf.lo) {
        if inf.lo.Some? {
          assert AtLeast(es[i].key, inf.hi) && AtMost(inf.lo.value, inf.hi);
          LessOrder(es[i].key, inf.lo.value, inf.hi.value);
          LessOrder(inf.hi.value, es[i].key, inf.lo.value);
        }
      }
    }
  }

  // ----- where a key is -----

  /** A search for k that ends in leaf j leaves only smaller entries to the left, and no smaller one to the right. */
  lemma RoutedAround(st: Store, sh: Shape, m: nat, j: nat, k: Key)
    requires IndexInv(st, sh, m) && j < |sh.leaves|
    requires sh.leaves[j] in sh.info && Routed(sh.info[sh.leaves[j]], k)
    ensures AllBelow(Entries(st.pages, sh.leaves[..j]), k)
    ensures AllNotBelow(Entries(st.pages, sh.leaves[j + 1..]), k)
  {
    LeafFacts(st, sh, m, j);
    var inf := sh.info[sh.leaves[j]];
    var before, after := Entries(st.pages, sh.leaves[..j]), Entries(st.pages, sh.leaves[j + 1..]);
    if j > 0 {
      PrefixAtMost(st, sh, m, j - 1);
      LeafFacts(st, sh, m, j - 1);
      forall i | 0 <= i < |before| ensures Less(before[i].key, k) {
        assert AtMost(before[i].key, inf.lo);
        LessOrder(before[i].key, inf.lo.value, k);
      }
    }
    if j + 1 < |sh.leaves| {
      SuffixAtLeast(st, sh, m, j + 1);
      forall i | 0 <= i < |after| ensures !Less(after[i].key, k) {
        assert AtLeast(after[i].key, inf.hi);
        LessOrder(after[i].key, k, inf.hi.value);
        LessOrder(k, inf.hi.value, k);
      }
    }
  }

  lemma SplitPosition(before: seq<Entry>, pg: Page, after: seq<Entry>, k: Key)
    requires |pg.keys| == |pg.rids|
    requires AllBelow(before, k) && AllNotBelow(after, k)
    ensures LowerEntry(before + PageEntries(pg) + after, k) == |before| + LowerPos(pg.keys, k)
  {
    var mine := PageEntries(pg);
    var es := before + mine + after;
    var p := |before| + LowerPos(pg.keys, k);
    forall i | 0 <= i < p ensures Less(es[i].key, k) {
      assert es[i] == if i < |before| then before[i] else mine[i - |before|];
    }
    if p < |es| {
      assert es[p] == if p < |before| + |mine| then mine[p - |before|] else after[p - |before| - |mine|];
    }
    LowerEntryUnique(es, k, p);
  }

  /** A search for k ends in leaf j: the first entry not below k is the first one in that leaf, or the one after it. */
  lemma RoutedPosition(st: Store, sh: Shape, m: nat, j: nat, k: Key)
    requires IndexInv(st, sh, m) && j < |sh.leaves|
    requires sh.leaves[j] in sh.info && sh.leaves[j] in st.pages && Routed(sh.info[sh.leaves[j]], k)
    ensures LowerEntry(Contents(st, sh), k) == Offset(st, sh, j) + LowerPos(st.pages[sh.leaves[j]].keys, k)
  {
    LeafFacts(st, sh, m, j);
    EntriesAround(st.pages, sh.leaves, j);
    RoutedAround(st, sh, m, j, k);
    SplitPosition(Entries(st.pages, sh.leaves[..j]), st.pages[sh.leaves[j]], Entries(st.pages, sh.leaves[j + 1..]), k);
  }

  /** The entries are in key order. */
  lemma {:induction false} SuffixSorted(st: Store, sh: Shape, m: nat, j: nat)
    requires IndexInv(st, sh, m) && j <= |sh.leaves|
    ensures EntriesSorted(Entries(st.pages, sh.leaves[j..]))
    decreases |sh.leaves| - j
  {
    if j < |sh.leaves| {
      SuffixSorted(st, sh, m, j + 1);
      LeafFacts(st, sh, m, j);
      EntriesStep(st, sh, m, j);
      var es, rest := PageEntries(st.pages[sh.leaves[j]]), Entries(st.pages, sh.leaves[j + 1..]);
      if j + 1 < |sh.leaves| {
        SuffixAtLeast(st, sh, m, j + 1);
        forall a, b | 0 <= a < |es| && 0 <= b < |rest| ensures !Less(rest[b].key, es[a].key) {
          var x := sh.info[sh.leaves[j]].hi.value;
          assert AtLeast(rest[b].key, Some(x)) && AtMost(es[a].key, Some(x));
          LessOrder(rest[b].key, es[a].key, x);
          LessOrder(es[a].key, x, rest[b].key);
          LessOrder(rest[b].key, es[a].key, rest[b].key);
        }
      } else {
        assert sh.leaves[j + 1..] == [];
      }
      forall a, b | 0 <= a < b < |es| ensures !Less(es[b].key, es[a].key) {
        LessOrder(es[a].key, es[b].key, es[a].key);
      }
    }
  }

  lemma ContentsSorted(st: Store, sh: Shape, m: nat)
    requires IndexInv(st, sh, m)
    ensures EntriesSorted(Contents(st, sh))
  {
    SuffixSorted(st, sh, m, 0);
    assert sh.leaves[0..] == sh.leaves;
  }

  /** The entries after a change of leaf j: only that leaf's part is different. */
  lemma ChangedLeaf(st: Store, sh: Shape, m: nat, j: nat, pg': Page)
    requires IndexInv(st, sh, m) && j < |sh.leaves|
    ensures Entries(st.pages[sh.leaves[j] := pg'], sh.leaves)
         == Entries(st.pages, sh.leaves[..j]) + PageEntries(pg') + Entries(st.pages, sh.leaves[j + 1..])
  {
    var pages' := st.pages[sh.leaves[j] := pg'];
    forall i | 0 <= i < |sh.leaves| ensures sh.leaves[i] in st.pages { LeafFacts(st, sh, m, i); }
    EntriesFrame(st.pages, pages', sh.leaves[..j]);
    EntriesFrame(st.pages, pages', sh.leaves[j + 1..]);
    EntriesAround(pages', sh.leaves, j);
  }

  /** Inserting into the leaf a search for k ends in inserts k at its place among all entries. */
  lemma InsertedContents(st: Store, sh: Shape, m: nat, j: nat, k: Key, r: Rid)
    requires IndexInv(st, sh, m) && j < |sh.leaves|
    requires sh.leaves[j] in sh.info && sh.leaves[j] in st.pages && Routed(sh.info[sh.leaves[j]], k)
    ensures var p := sh.leaves[j];
      |st.pages[p].rids| == |st.pages[p].keys| &&
      Entries(st.pages[p := LeafInserted(st.pages[p], k, r)], sh.leaves)
      == InsertAt(Contents(st, sh), LowerEntry(Contents(st, sh), k), Entry(k, r))
  {
    var pg := st.pages[sh.leaves[j]];
    assert |pg.rids| == |pg.keys| by { LeafFacts(st, sh, m, j); }
    EntriesAround(st.pages, sh.leaves, j);
    RoutedPosition(st, sh, m, j, k);
    ChangedLeaf(st, sh, m, j, LeafInserted(pg, k, r));
    InsertedZip(Entries(st.pages, sh.leaves[..j]), pg, Entries(st.pages, sh.leaves[j + 1..]), k, r);
  }

  lemma InsertedZip(before: seq<Entry>, pg: Page, after: seq<Entry>, k: Key, r: Rid)
    requires |pg.keys| == |pg.rids|
    ensures before + PageEntries(LeafInserted(pg, k, r)) + after
         == InsertAt(before + PageEntries(pg) + after, |before| + LowerPos(pg.keys, k), Entry(k, r))
  {
    ZipInsert(pg.keys, pg.rids, LowerPos(pg.keys, k), k, r);
    InsertInMiddle(before, PageEntries(pg), after, LowerPos(pg.keys, k), Entry(k, r));
  }

  lemma {:induction false} ZipInsert(ks: seq<Key>, rs: seq<Rid>, i: nat, k: Key, r: Rid)
    requires |ks| == |rs| && i <= |ks|
    ensures Zip(InsertAt(ks, i, k), InsertAt(rs, i, r)) == InsertAt(Zip(ks, rs), i, Entry(k, r))
  {
  }

  lemma InsertInMiddle<T>(a: seq<T>, b: seq<T>, c: seq<T>, i: nat, x: T)
    requires i <= |b|
    ensures a + InsertAt(b, i, x) + c == InsertAt(a + b + c, |a| + i, x)
  {
    assert (a + b + c)[..|a| + i] == a + b[..i];
    assert (a + b + c)[|a| + i..] == b[i..] + c;
  }

  // ----- separators -----

  ghost predicate IsSeparator(st: Store, sh: Shape, k: Key) {
    exists p | p in sh.info && p in st.pages :: !st.pages[p].isLeaf && k in st.pages[p].keys
  }

  /** The lower end of a page's interval is a key of an ancestor. */
  lemma {:induction false} LoIsSeparator(st: Store, sh: Shape, m: nat, p: PageId)
    requires IndexInv(st, sh, m) && p in sh.info && sh.info[p].lo.Some?
    ensures IsSeparator(st, sh, sh.info[p].lo.value)
    decreases sh.info[st.root].height - sh.info[p].height
  {
    assert PageInv(st, sh.info, m, Settled, p);
    var y := st.pages[p].parent;
    assert IsKid(st.pages, sh.info, y, p);
    assert PageInv(st, sh.info, m, Settled, y);
    var i :| 0 <= i < |st.pages[y].kids| && st.pages[y].kids[i] == p;
    assert ChildOk(st.pages, sh.info, Settled, y, i);
    if i == 0 { LoIsSeparator(st, sh, m, y); }
  }

  /** Following first children from p ends in a leaf whose interval starts where p's does. */
  lemma {:induction false} FirstLeafUnder(st: Store, sh: Shape, m: nat, p: PageId) returns (j: nat)
    requires IndexInv(st, sh, m) && p in sh.info
    ensures j < |sh.leaves| && sh.leaves[j] in sh.info && sh.info[sh.leaves[j]].lo == sh.info[p].lo
    decreases sh.info[p].height
  {
    assert PageInv(st, sh.info, m, Settled, p);
    if st.pages[p].isLeaf {
      j :| 0 <= j < |sh.leaves| && sh.leaves[j] == p;
    } else {
      assert ChildOk(st.pages, sh.info, Settled, p, 0);
      j := FirstLeafUnder(st, sh, m, st.pages[p].kids[0]);
    }
  }

  /** The separators are exactly the first keys of the leaves after the first one. */
  lemma SeparatorsAreFirstKeys(st: Store, sh: Shape, m: nat, k: Key)
    requires IndexInv(st, sh, m)
    ensures IsSeparator(st, sh, k) <==>
      exists j | 1 <= j < |sh.leaves| ::
        sh.leaves[j] in st.pages && st.pages[sh.leaves[j]].keys != [] && st.pages[sh.leaves[j]].keys[0] == k
  {
    if IsSeparator(st, sh, k) {
      var p :| p in sh.info && p in st.pages && !st.pages[p].isLeaf && k in st.pages[p].keys;
      assert PageInv(st, sh.info, m, Settled, p);
      var i :| 0 <= i < |st.pages[p].keys| && st.pages[p].keys[i] == k;
      assert ChildOk(st.pages, sh.info, Settled, p, i + 1);
      var j := FirstLeafUnder(st, sh, m, st.pages[p].kids[i + 1]);
      LeafFacts(st, sh, m, j);
    }
    if j :| 1 <= j < |sh.leaves| && sh.leaves[j] in st.pages && st.pages[sh.leaves[j]].keys != []
            && st.pages[sh.leaves[j]].keys[0] == k {
      LeafFacts(st, sh, m, j);
      LoIsSeparator(st, sh, m, sh.leaves[j]);
    }
  }

  /** Leaf intervals start at ever larger keys. */
  lemma {:induction false} LeafLoIncreases(st: Store, sh: Shape, m: nat, i: nat, j: nat)
    requires IndexInv(st, sh, m) && 1 <= i < j < |sh.leaves|
    ensures sh.leaves[i] in sh.info && sh.leaves[j] in sh.info
    ensures sh.info[sh.leaves[i]].lo.Some? && sh.info[sh.leaves[j]].lo.Some?
    ensures Less(sh.info[sh.leaves[i]].lo.value, sh.info[sh.leaves[j]].lo.value)
    decreases j - i
  {
    LeafFacts(st, sh, m, i);
    LeafFacts(st, sh, m, i + 1);
    var pg, inf := st.pages[sh.leaves[i]], sh.info[sh.leaves[i]];
    assert PageInv(st, sh.info, m, Settled, sh.leaves[i]);
    assert |pg.keys| >= 2;
    LessOrder(pg.keys[0], pg.keys[1], inf.hi.value);
    LessOrder(inf.hi.value, pg.keys[1], inf.hi.value);
    if i + 1 < j {
      LeafLoIncreases(st, sh, m, i + 1, j);
      LessOrder(inf.lo.value, inf.hi.value, sh.info[sh.leaves[j]].lo.value);
    }
  }

  /** A key a search routes to leaf j is a separator exactly when it is that leaf's upper end. */
  lemma RoutedSeparator(st: Store, sh: Shape, m: nat, j: nat, k: Key)
    requires IndexInv(st, sh, m) && j < |sh.leaves|
    requires sh.leaves[j] in sh.info && Routed(sh.info[sh.leaves[j]], k)
    ensures IsSeparator(st, sh, k) <==> sh.info[sh.leaves[j]].hi == Some(k)
  {
    LeafFacts(st, sh, m, j);
    SeparatorsAreFirstKeys(st, sh, m, k);
    if sh.info[sh.leaves[j]].hi == Some(k) {
      assert j + 1 < |sh.leaves|;
      LeafFacts(st, sh, m, j + 1);
    }
    if i :| 1 <= i < |sh.leaves| && sh.leaves[i] in st.pages && st.pages[sh.leaves[i]].keys != []
            && st.pages[sh.leaves[i]].keys[0] == k {
      LeafFacts(st, sh, m, i);
      if i > j + 1 {
        LeafFacts(st, sh, m, j + 1);
        LeafLoIncreases(st, sh, m, j + 1, i);
        LessOrder(k, k, k);
      } else if i <= j {
        if i < j { LeafLoIncreases(st, sh, m, i, j); }
        LessOrder(k, sh.info[sh.leaves[j]].lo.value, k);
        LessOrder(k, k, k);
      }
    }
  }
}
