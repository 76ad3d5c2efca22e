// What searches and scans of the B+ tree find, in terms of the ordered sequence of entries.
module BTreeSearch {
  import opened KeyOrder
  import opened IxDefs
  import opened BTree
  import opened BTreeOrder

  // ----- point lookup -----

  /** Whether a lookup of k succeeds. The first copy of a separator is in the leaf to its right,
      where lookups never go; it takes a second copy for a separator to be found. */
  ghost predicate Found(es: seq<Entry>, k: Key, separator: bool) {
    var n := LowerEntry(es, k);
    && n < |es| && es[n].key == k
    && (separator ==> n + 1 < |es| && es[n + 1].key == k)
  }

  /** The leaf after leaf j starts with leaf j's upper end, and holds a larger key behind it. */
  lemma NextLeaf(st: Store, sh: Shape, m: nat, j: nat)
    requires IndexInv(st, sh, m) && j + 1 < |sh.leaves|
    ensures sh.leaves[j] in sh.info && sh.leaves[j + 1] in st.pages && |st.pages[sh.leaves[j + 1]].keys| >= 2
    ensures Offset(st, sh, j + 1) + 1 < |Contents(st, sh)|
    ensures sh.info[sh.leaves[j]].hi == Some(Contents(st, sh)[Offset(st, sh, j + 1)].key)
    ensures Less(Contents(st, sh)[Offset(st, sh, j + 1)].key, Contents(st, sh)[Offset(st, sh, j + 1) + 1].key)
  {
    LeafFacts(st, sh, m, j);
    LeafFacts(st, sh, m, j + 1);
    assert PageInv(st, sh.info, m, Settled, sh.leaves[j + 1]);
    EntryAt(st, sh, m, j + 1, 0);
    EntryAt(st, sh, m, j + 1, 1);
  }

  /** A separator stored in the leaf on its left is the last key there. */
  lemma EndsLeaf(pg: Page, inf: Info, k: Key, pos: nat)
    requires Sorted(pg.keys) && LeafOk(pg, inf) && inf.hi == Some(k) && pos < |pg.keys| && pg.keys[pos] == k
    ensures pos + 1 == |pg.keys|
  {
    if pos + 1 < |pg.keys| { LessOrder(k, pg.keys[pos + 1], k); }
  }

  /** The key is in the routed leaf: its entry is the first with this key. */
  lemma EntryInLeaf(st: Store, sh: Shape, m: nat, j: nat, k: Key)
    requires IndexInv(st, sh, m) && j < |sh.leaves|
    requires sh.leaves[j] in sh.info && sh.leaves[j] in st.pages && Routed(sh.info[sh.leaves[j]], k)
    requires k in st.pages[sh.leaves[j]].keys
    ensures var pg := st.pages[sh.leaves[j]]; var pos := LowerPos(pg.keys, k);
      && pos < |pg.rids| == |pg.keys| && pg.keys[pos] == k
      && LowerEntry(Contents(st, sh), k) == Offset(st, sh, j) + pos
      && Offset(st, sh, j) + pos < |Contents(st, sh)|
      && Contents(st, sh)[Offset(st, sh, j) + pos] == Entry(k, pg.rids[pos])
  {
    var ks := st.pages[sh.leaves[j]].keys;
    var pos := LowerPos(ks, k);
    assert pos < |ks| && ks[pos] == k by {
      LeafFacts(st, sh, m, j);
      LowerPosSorted(ks, k);
    }
    EntryAt(st, sh, m, j, pos);
    RoutedPosition(st, sh, m, j, k);
  }

  /** The key is in the routed leaf: the entry is there, and a separator has its other copy right behind it. */
  lemma StoredInLeaf(st: Store, sh: Shape, m: nat, j: nat, k: Key)
    requires IndexInv(st, sh, m) && j < |sh.leaves|
    requires sh.leaves[j] in sh.info && sh.leaves[j] in st.pages && Routed(sh.info[sh.leaves[j]], k)
    requires k in st.pages[sh.leaves[j]].keys
    ensures Found(Contents(st, sh), k, IsSeparator(st, sh, k))
    ensures var pos := LowerPos(st.pages[sh.leaves[j]].keys, k);
      pos < |st.pages[sh.leaves[j]].rids| && LowerEntry(Contents(st, sh), k) < |Contents(st, sh)| &&
      Contents(st, sh)[LowerEntry(Contents(st, sh), k)] == Entry(k, st.pages[sh.leaves[j]].rids[pos])
  {
    EntryInLeaf(st, sh, m, j, k);
    if IsSeparator(st, sh, k) {
      RoutedSeparator(st, sh, m, j, k);
      LeafFacts(st, sh, m, j);
      EndsLeaf(st.pages[sh.leaves[j]], sh.info[sh.leaves[j]], k, LowerPos(st.pages[sh.leaves[j]].keys, k));
      OffsetStep(st, sh, m, j);
      NextLeaf(st, sh, m, j);
    }
  }

  /** The key is not in the routed leaf: then it is nowhere, or it is the first key of the next leaf and only there. */
  lemma NotStoredInLeaf(st: Store, sh: Shape, m: nat, j: nat, k: Key)
    requires IndexInv(st, sh, m) && j < |sh.leaves|
    requires sh.leaves[j] in sh.info && sh.leaves[j] in st.pages && Routed(sh.info[sh.leaves[j]], k)
    requires k !in st.pages[sh.leaves[j]].keys
    ensures !Found(Contents(st, sh), k, IsSeparator(st, sh, k))
  {
    LeafFacts(st, sh, m, j);
    var pg := st.pages[sh.leaves[j]];
    var pos := LowerPos(pg.keys, k);
    RoutedPosition(st, sh, m, j, k);
    LowerPosSorted(pg.keys, k);
    OffsetStep(st, sh, m, j);
    if pos < |pg.keys| {
      EntryAt(st, sh, m, j, pos);
    } else if j + 1 < |sh.leaves| {
      RoutedSeparator(st, sh, m, j, k);
      NextLeaf(st, sh, m, j);
      LessOrder(k, k, k);
    } else {
      OffsetEnd(st, sh);
    }
  }

  /** With every key stored once, a lookup finds exactly the stored keys that are not separators. */
  lemma FoundStrict(es: seq<Entry>, k: Key, separator: bool)
    requires EntriesStrict(es)
    ensures Found(es, k, separator) <==> (exists i | 0 <= i < |es| :: es[i].key == k) && !separator
  {
    var n := LowerEntry(es, k);
    LessOrder(k, k, k);
    if i :| 0 <= i < |es| && es[i].key == k {
      assert n == i;
    }
  }

  /** So with every key stored once, every separator is stored and never found, whatever the node size. */
  lemma SeparatorLost(st: Store, sh: Shape, m: nat, k: Key) returns (n: nat)
    requires IndexInv(st, sh, m) && EntriesStrict(Contents(st, sh)) && IsSeparator(st, sh, k)
    ensures n < |Contents(st, sh)| && Contents(st, sh)[n].key == k && !Found(Contents(st, sh), k, true)
  {
    SeparatorsAreFirstKeys(st, sh, m, k);
    var i :| 1 <= i < |sh.leaves| && sh.leaves[i] in st.pages && st.pages[sh.leaves[i]].keys != []
             && st.pages[sh.leaves[i]].keys[0] == k;
    EntryAt(st, sh, m, i, 0);
    n := Offset(st, sh, i);
    FoundStrict(Contents(st, sh), k, true);
  }

  /** A leaf does not hold m keys, so an index with m entries has a second leaf. */
  lemma SecondLeaf(st: Store, sh: Shape, m: nat)
    requires IndexInv(st, sh, m) && |Contents(st, sh)| >= m
    ensures |sh.leaves| >= 2
  {
    LeafFacts(st, sh, m, 0);
    assert PageInv(st, sh.info, m, Settled, sh.leaves[0]);
    OffsetStep(st, sh, m, 0);
    assert sh.leaves[..0] == [];
    OffsetEnd(st, sh);
  }

  /** Every index with as many entries as a node has room for has lost one of them: a key that is stored
      and not found. */
  lemma SomeKeyLost(st: Store, sh: Shape, m: nat) returns (n: nat)
    requires IndexInv(st, sh, m) && EntriesStrict(Contents(st, sh)) && |Contents(st, sh)| >= m
    ensures n < |Contents(st, sh)| && IsSeparator(st, sh, Contents(st, sh)[n].key)
    ensures !Found(Contents(st, sh), Contents(st, sh)[n].key, true)
  {
    SecondLeaf(st, sh, m);
    NextLeaf(st, sh, m, 0);
    var k := Contents(st, sh)[Offset(st, sh, 1)].key;
    LeafFacts(st, sh, m, 1);
    EntryAt(st, sh, m, 1, 0);
    SeparatorsAreFirstKeys(st, sh, m, k);
    n := SeparatorLost(st, sh, m, k);
  }

  /** A key not stored before keeps the sequence strictly increasing when it is inserted. */
  lemma InsertStrict(es: seq<Entry>, k: Key, r: Rid)
    requires EntriesStrict(es) && forall i | 0 <= i < |es| :: es[i].key != k
    ensures EntriesStrict(InsertAt(es, LowerEntry(es, k), Entry(k, r)))
  {
    var n := LowerEntry(es, k);
    var es' := InsertAt(es, n, Entry(k, r));
    if n < |es| { LessOrder(es[n].key, k, k); }
    forall i, j | 0 <= i < j < |es'| ensures Less(es'[i].key, es'[j].key) {
      if i == n && j > n + 1 { LessOrder(k, es[n].key, es[j - 1].key); }
    }
  }

  // ----- positions -----

  /** Index position iid is slot s of leaf j, and that is entry number n. */
  ghost predicate AtSlot(st: Store, sh: Shape, iid: Iid, j: nat, n: nat) {
    && j < |sh.leaves| && sh.leaves[j] == iid.pageNo && iid.pageNo in st.pages
    && 0 <= iid.slotNo < |st.pages[iid.pageNo].keys| && n == Offset(st, sh, j) + iid.slotNo
  }

  ghost predicate At(st: Store, sh: Shape, iid: Iid, n: nat) {
    exists j: nat :: AtSlot(st, sh, iid, j, n)
  }

  /** A position behind all entries: on the header page, or the slot after the last key of the last leaf. */
  ghost predicate PastEnd(st: Store, sh: Shape, iid: Iid) {
    || (iid.pageNo == IX_LEAF_HEADER_PAGE && iid.slotNo >= 0)
    || (sh.leaves != [] && iid.pageNo == sh.leaves[|sh.leaves| - 1] && iid.pageNo in st.pages
        && iid.slotNo == |st.pages[iid.pageNo].keys|)
  }

  /** Where iid is among the entries; every position past the end counts as |Contents|. */
  ghost predicate Denotes(st: Store, sh: Shape, iid: Iid, n: nat) {
    if n < |Contents(st, sh)| then At(st, sh, iid, n)
    else n == |Contents(st, sh)| && PastEnd(st, sh, iid)
  }

  /** An entry has one position, and a position is at most one entry. */
  lemma AtUnique(st: Store, sh: Shape, m: nat, iid: Iid, n: nat, iid': Iid, n': nat)
    requires IndexInv(st, sh, m) && At(st, sh, iid, n) && At(st, sh, iid', n')
    ensures n < |Contents(st, sh)|
    ensures iid == iid' <==> n == n'
  {
    var j: nat :| AtSlot(st, sh, iid, j, n);
    var j': nat :| AtSlot(st, sh, iid', j', n');
    EntryAt(st, sh, m, j, iid.slotNo);
    if j < j' { OffsetsIncrease(st, sh, m, j, j'); }
    if j' < j { OffsetsIncrease(st, sh, m, j', j); }
  }

  lemma {:induction false} OffsetsIncrease(st: Store, sh: Shape, m: nat, i: nat, j: nat)
    requires IndexInv(st, sh, m) && i < j <= |sh.leaves|
    ensures sh.leaves[i] in st.pages && Offset(st, sh, i) + |st.pages[sh.leaves[i]].keys| <= Offset(st, sh, j)
    decreases j - i
  {
    var b := j - 1;
    assert sh.leaves[b] in st.pages && Offset(st, sh, b) + |st.pages[sh.leaves[b]].keys| == Offset(st, sh, j) by {
      OffsetStep(st, sh, m, b);
    }
    if i < b { OffsetsIncrease(st, sh, m, i, b); }
  }

  /** The position after slot s of leaf j, as IxScan::next computes it. */
  lemma StepAt(st: Store, sh: Shape, m: nat, iid: Iid, j: nat, n: nat)
    requires IndexInv(st, sh, m) && AtSlot(st, sh, iid, j, n)
    ensures var pg := st.pages[iid.pageNo];
      && (iid.slotNo + 1 < |pg.keys| ==> AtSlot(st, sh, Iid(iid.pageNo, iid.slotNo + 1), j, n + 1))
      && (iid.slotNo + 1 == |pg.keys| && j + 1 < |sh.leaves| ==>
            pg.next == sh.leaves[j + 1] && AtSlot(st, sh, Iid(pg.next, 0), j + 1, n + 1))
      && (iid.slotNo + 1 == |pg.keys| && j + 1 == |sh.leaves| ==>
            pg.next == IX_LEAF_HEADER_PAGE && n + 1 == |Contents(st, sh)|)
  {
    LeafFacts(st, sh, m, j);
    OffsetStep(st, sh, m, j);
    if j + 1 < |sh.leaves| { LeafFacts(st, sh, m, j + 1); } else { OffsetEnd(st, sh); }
  }

  /** The number of leading entries not above k. */
  function UpperEntry(es: seq<Entry>, k: Key): (r: nat)
    ensures r <= |es|
    ensures forall i | 0 <= i < r :: !Less(k, es[i].key)
    ensures r < |es| ==> Less(k, es[r].key)
  {
    UpperEntryFrom(es, k, 0)
  }

  function UpperEntryFrom(es: seq<Entry>, k: Key, i: nat): (r: nat)
    requires i <= |es|
    ensures i <= r <= |es|
    ensures forall j | i <= j < r :: !Less(k, es[j].key)
    ensures r < |es| ==> Less(k, es[r].key)
    decreases |es| - i
  {
    if i == |es| || Less(k, es[i].key) then i else UpperEntryFrom(es, k, i + 1)
  }

  lemma UpperEntryUnique(es: seq<Entry>, k: Key, p: nat)
    requires p <= |es|
    requires forall i | 0 <= i < p :: !Less(k, es[i].key)
    requires p < |es| ==> Less(k, es[p].key)
    ensures p == UpperEntry(es, k)
  {
  }

  /** Slot pos of the routed leaf is entry LowerEntry when the leaf has a key not below k. */
  lemma LowerInside(st: Store, sh: Shape, m: nat, j: nat, k: Key)
    requires IndexInv(st, sh, m) && j < |sh.leaves|
    requires sh.leaves[j] in sh.info && sh.leaves[j] in st.pages && Routed(sh.info[sh.leaves[j]], k)
    requires LowerPos(st.pages[sh.leaves[j]].keys, k) < |st.pages[sh.leaves[j]].keys|
    ensures LowerEntry(Contents(st, sh), k) < |Contents(st, sh)|
    ensures AtSlot(st, sh, Iid(sh.leaves[j], LowerPos(st.pages[sh.leaves[j]].keys, k)), j,
                   LowerEntry(Contents(st, sh), k))
  {
    RoutedPosition(st, sh, m, j, k);
    EntryAt(st, sh, m, j, LowerPos(st.pages[sh.leaves[j]].keys, k));
  }

  /** Otherwise it is the first entry of the next leaf, or there is none. */
  lemma LowerBeyond(st: Store, sh: Shape, m: nat, j: nat, k: Key)
    requires IndexInv(st, sh, m) && j < |sh.leaves|
    requires sh.leaves[j] in sh.info && sh.leaves[j] in st.pages && Routed(sh.info[sh.leaves[j]], k)
    requires LowerPos(st.pages[sh.leaves[j]].keys, k) == |st.pages[sh.leaves[j]].keys|
    ensures LowerEntry(Contents(st, sh), k) == Offset(st, sh, j + 1)
    ensures LowerEntry(Contents(st, sh), k) == |Contents(st, sh)| <==> j + 1 == |sh.leaves|
  {
    RoutedPosition(st, sh, m, j, k);
    OffsetStep(st, sh, m, j);
    if j + 1 < |sh.leaves| { NextLeaf(st, sh, m, j); } else { OffsetEnd(st, sh); }
  }

  /** The position after a search for the first key not below k, slot LowerPos of the routed leaf or the next leaf's
      first. */
  lemma LowerIid(st: Store, sh: Shape, m: nat, j: nat, k: Key)
    requires IndexInv(st, sh, m) && j < |sh.leaves|
    requires sh.leaves[j] in sh.info && sh.leaves[j] in st.pages && Routed(sh.info[sh.leaves[j]], k)
    ensures var pg, pos := st.pages[sh.leaves[j]], LowerPos(st.pages[sh.leaves[j]].keys, k);
      && Denotes(st, sh, if pos < |pg.keys| then Iid(sh.leaves[j], pos) else Iid(pg.next, 0),
                 LowerEntry(Contents(st, sh), k))
      && (LowerEntry(Contents(st, sh), k) == |Contents(st, sh)| ==> pos == |pg.keys| && pg.next == IX_LEAF_HEADER_PAGE)
  {
    LeafFacts(st, sh, m, j);
    var pg, pos := st.pages[sh.leaves[j]], LowerPos(st.pages[sh.leaves[j]].keys, k);
    if pos < |pg.keys| {
      LowerInside(st, sh, m, j, k);
    } else {
      LowerBeyond(st, sh, m, j, k);
      if j + 1 < |sh.leaves| {
        LeafFacts(st, sh, m, j + 1);
        NextLeaf(st, sh, m, j);
        assert AtSlot(st, sh, Iid(pg.next, 0), j + 1, Offset(st, sh, j + 1));
      } else {
        NothingAtHeader(st, sh, m);
      }
    }
  }

  /** No entry is on the header page. */
  lemma NothingAtHeader(st: Store, sh: Shape, m: nat)
    requires IndexInv(st, sh, m)
    ensures IX_LEAF_HEADER_PAGE !in sh.leaves
  {
    forall j | 0 <= j < |sh.leaves| ensures sh.leaves[j] != IX_LEAF_HEADER_PAGE { LeafFacts(st, sh, m, j); }
  }

  /** Everything before slot UpperPos of the routed leaf is at most k. */
  lemma RoutedNotAbove(st: Store, sh: Shape, m: nat, j: nat, k: Key, i: nat)
    requires IndexInv(st, sh, m) && j < |sh.leaves|
    requires sh.leaves[j] in sh.info && sh.leaves[j] in st.pages && Routed(sh.info[sh.leaves[j]], k)
    requires i < Offset(st, sh, j) + UpperPos(st.pages[sh.leaves[j]].keys, k)
    ensures i < |Contents(st, sh)| && !Less(k, Contents(st, sh)[i].key)
  {
    if i < Offset(st, sh, j) {
      ContentsSplit(st, sh, j);
      RoutedAround(st, sh, m, j, k);
      LessOrder(k, Contents(st, sh)[i].key, k);
      LessOrder(k, k, k);
    } else {
      EntryAt(st, sh, m, j, i - Offset(st, sh, j));
    }
  }

  /** Keys equal to k end right where UpperPos says, as long as the routed leaf goes on behind them. */
  lemma RoutedUpperInside(st: Store, sh: Shape, m: nat, j: nat, k: Key)
    requires IndexInv(st, sh, m) && j < |sh.leaves|
    requires sh.leaves[j] in sh.info && sh.leaves[j] in st.pages && Routed(sh.info[sh.leaves[j]], k)
    requires UpperPos(st.pages[sh.leaves[j]].keys, k) < |st.pages[sh.leaves[j]].keys|
    ensures UpperEntry(Contents(st, sh), k) == Offset(st, sh, j) + UpperPos(st.pages[sh.leaves[j]].keys, k)
  {
    var es, n := Contents(st, sh), Offset(st, sh, j) + UpperPos(st.pages[sh.leaves[j]].keys, k);
    EntryAt(st, sh, m, j, UpperPos(st.pages[sh.leaves[j]].keys, k));
    forall i | 0 <= i < n ensures !Less(k, es[i].key) { RoutedNotAbove(st, sh, m, j, k, i); }
    UpperEntryUnique(es, k, n);
  }

  /** If the routed leaf has no key above k, the next leaf's first entry is the answer, or is k itself. */
  lemma RoutedUpperBeyond(st: Store, sh: Shape, m: nat, j: nat, k: Key)
    requires IndexInv(st, sh, m) && j < |sh.leaves|
    requires sh.leaves[j] in sh.info && sh.leaves[j] in st.pages && Routed(sh.info[sh.leaves[j]], k)
    requires UpperPos(st.pages[sh.leaves[j]].keys, k) == |st.pages[sh.leaves[j]].keys|
    ensures UpperEntry(Contents(st, sh), k)
         == Offset(st, sh, j + 1) + (if sh.info[sh.leaves[j]].hi == Some(k) then 1 else 0)
  {
    var es, inf := Contents(st, sh), sh.info[sh.leaves[j]];
    OffsetStep(st, sh, m, j);
    forall i | 0 <= i < Offset(st, sh, j + 1) ensures i < |es| && !Less(k, es[i].key) {
      RoutedNotAbove(st, sh, m, j, k, i);
    }
    if j + 1 < |sh.leaves| {
      NextLeaf(st, sh, m, j);
      UpperAtBoundary(es, k, Offset(st, sh, j + 1));
    } else {
      LeafFacts(st, sh, m, j);
      OffsetEnd(st, sh);
      UpperEntryUnique(es, k, Offset(st, sh, j + 1));
    }
  }

  lemma UpperAtBoundary(es: seq<Entry>, k: Key, q: nat)
    requires q + 1 < |es| && forall i | 0 <= i < q :: !Less(k, es[i].key)
    requires !Less(es[q].key, k) && Less(es[q].key, es[q + 1].key)
    ensures UpperEntry(es, k) == q + (if es[q].key == k then 1 else 0)
  {
    LessOrder(k, es[q].key, k);
    LessOrder(k, k, k);
    UpperEntryUnique(es, k, q + (if es[q].key == k then 1 else 0));
  }

  /** Whether the entry a search above k should stop at is the first one of a leaf other than the leftmost. */
  ghost predicate StartsLeaf(st: Store, sh: Shape, n: nat) {
    exists j: nat | 1 <= j < |sh.leaves| :: n == Offset(st, sh, j)
  }

  /** The routed leaf has a key above k: its first such slot is the entry, and it starts no leaf. */
  lemma UpperInside(st: Store, sh: Shape, m: nat, j: nat, k: Key)
    requires IndexInv(st, sh, m) && j < |sh.leaves|
    requires sh.leaves[j] in sh.info && sh.leaves[j] in st.pages && Routed(sh.info[sh.leaves[j]], k)
    requires UpperPos(st.pages[sh.leaves[j]].keys, k) < |st.pages[sh.leaves[j]].keys|
    ensures UpperEntry(Contents(st, sh), k) < |Contents(st, sh)| && !StartsLeaf(st, sh, UpperEntry(Contents(st, sh), k))
    ensures AtSlot(st, sh, Iid(sh.leaves[j], UpperPos(st.pages[sh.leaves[j]].keys, k)), j,
                   UpperEntry(Contents(st, sh), k))
  {
    LeafFacts(st, sh, m, j);
    var inf, pos := sh.info[sh.leaves[j]], UpperPos(st.pages[sh.leaves[j]].keys, k);
    RoutedUpperInside(st, sh, m, j, k);
    EntryAt(st, sh, m, j, pos);
    if j > 0 { LessOrder(inf.lo.value, k, inf.lo.value); }
    InsideLeaf(st, sh, m, j, pos);
  }

  /** It has none, and there is a next leaf: slot 1 there is the entry, or the entry is slot 0 and starts that leaf. */
  lemma UpperBeyond(st: Store, sh: Shape, m: nat, j: nat, k: Key)
    requires IndexInv(st, sh, m) && j + 1 < |sh.leaves|
    requires sh.leaves[j] in sh.info && sh.leaves[j] in st.pages && Routed(sh.info[sh.leaves[j]], k)
    requires UpperPos(st.pages[sh.leaves[j]].keys, k) == |st.pages[sh.leaves[j]].keys|
    ensures var n := UpperEntry(Contents(st, sh), k);
      n < |Contents(st, sh)| && Offset(st, sh, j + 1) + 1 == (if StartsLeaf(st, sh, n) then n + 1 else n)
  {
    RoutedUpperBeyond(st, sh, m, j, k);
    NextLeaf(st, sh, m, j);
    InsideLeaf(st, sh, m, j + 1, if sh.info[sh.leaves[j]].hi == Some(k) then 1 else 0);
  }

  /** The position upper_bound returns: slot UpperPos of the routed leaf, or slot 1 of the next one. It is the first
      entry above k, except when that entry starts a leaf: then it is exactly one further. */
  lemma UpperIid(st: Store, sh: Shape, m: nat, j: nat, k: Key)
    requires IndexInv(st, sh, m) && j < |sh.leaves|
    requires sh.leaves[j] in sh.info && sh.leaves[j] in st.pages && Routed(sh.info[sh.leaves[j]], k)
    ensures var pg, pos := st.pages[sh.leaves[j]], UpperPos(st.pages[sh.leaves[j]].keys, k);
      var n := UpperEntry(Contents(st, sh), k);
      && Denotes(st, sh, if pos < |pg.keys| then Iid(sh.leaves[j], pos) else Iid(pg.next, 1),
                 if StartsLeaf(st, sh, n) then n + 1 else n)
      && (n == |Contents(st, sh)| ==> !StartsLeaf(st, sh, n) && pos == |pg.keys| && pg.next == IX_LEAF_HEADER_PAGE)
  {
    LeafFacts(st, sh, m, j);
    var pg := st.pages[sh.leaves[j]];
    if UpperPos(pg.keys, k) < |pg.keys| {
      UpperInside(st, sh, m, j, k);
    } else if j + 1 < |sh.leaves| {
      UpperBeyond(st, sh, m, j, k);
      LeafFacts(st, sh, m, j + 1);
      NextLeaf(st, sh, m, j);
      assert AtSlot(st, sh, Iid(pg.next, 1), j + 1, Offset(st, sh, j + 1) + 1);
    } else {
      RoutedUpperBeyond(st, sh, m, j, k);
      OffsetEnd(st, sh);
      NotAStart(st, sh, m);
      NothingAtHeader(st, sh, m);
    }
  }

  /** And in every index with that many entries there is a stored key for which upper_bound goes one entry too far: the
      last one of the first leaf. */
  lemma SomeBoundTooFar(st: Store, sh: Shape, m: nat) returns (n: nat)
    requires IndexInv(st, sh, m) && EntriesStrict(Contents(st, sh)) && |Contents(st, sh)| >= m
    ensures n < |Contents(st, sh)| && StartsLeaf(st, sh, UpperEntry(Contents(st, sh), Contents(st, sh)[n].key))
  {
    SecondLeaf(st, sh, m);
    NextLeaf(st, sh, m, 0);
    LeafFacts(st, sh, m, 0);
    OffsetStep(st, sh, m, 0);
    assert sh.leaves[..0] == [];
    if st.pages[sh.leaves[0]].keys == [] { EmptyLeaf(st, sh, m); }
    n := Offset(st, sh, 1) - 1;
    var es := Contents(st, sh);
    forall i | 0 <= i < n + 1 ensures !Less(es[n].key, es[i].key) {
      if i < n { LessOrder(es[n].key, es[i].key, es[n].key); }
      LessOrder(es[n].key, es[n].key, es[n].key);
    }
    UpperEntryUnique(es, es[n].key, n + 1);
  }

  /** Only slot 0 of a leaf other than the leftmost starts a leaf. */
  lemma InsideLeaf(st: Store, sh: Shape, m: nat, j: nat, s: nat)
    requires IndexInv(st, sh, m) && j < |sh.leaves|
    requires sh.leaves[j] in st.pages && s < |st.pages[sh.leaves[j]].keys|
    ensures StartsLeaf(st, sh, Offset(st, sh, j) + s) <==> s == 0 && j > 0
  {
    assert sh.leaves[..0] == [];
    forall i | 1 <= i < |sh.leaves| && i != j ensures Offset(st, sh, j) + s != Offset(st, sh, i) {
      LeafFacts(st, sh, m, i);
      if i < j { OffsetsIncrease(st, sh, m, i, j); } else { OffsetsIncrease(st, sh, m, j, i); }
    }
  }

  lemma NotAStart(st: Store, sh: Shape, m: nat)
    requires IndexInv(st, sh, m)
    ensures !StartsLeaf(st, sh, |Contents(st, sh)|)
  {
    OffsetEnd(st, sh);
    forall i | 1 <= i < |sh.leaves| ensures Offset(st, sh, i) < |Contents(st, sh)| {
      LeafFacts(st, sh, m, i);
      OffsetsIncrease(st, sh, m, i, |sh.leaves|);
    }
  }

  // ----- no key is there three times -----

  /** The leaf entry n is in. */
  lemma {:induction false} LeafOf(st: Store, sh: Shape, m: nat, n: nat, b: nat) returns (j: nat)
    requires IndexInv(st, sh, m) && b <= |sh.leaves| && n < Offset(st, sh, b)
    ensures j < b && sh.leaves[j] in st.pages
    ensures Offset(st, sh, j) <= n < Offset(st, sh, j) + |st.pages[sh.leaves[j]].keys|
    decreases b
  {
    assert sh.leaves[..0] == [];
    OffsetStep(st, sh, m, b - 1);
    if n >= Offset(st, sh, b - 1) { j := b - 1; } else { j := LeafOf(st, sh, m, n, b - 1); }
  }

  /** Only at the start of a leaf can an entry have the key of the one before it. */
  lemma StrictInLeaf(st: Store, sh: Shape, m: nat, n: nat)
    requires IndexInv(st, sh, m) && n + 1 < |Contents(st, sh)| && !StartsLeaf(st, sh, n + 1)
    ensures Less(Contents(st, sh)[n].key, Contents(st, sh)[n + 1].key)
  {
    OffsetEnd(st, sh);
    var j := LeafOf(st, sh, m, n + 1, |sh.leaves|);
    var s := n + 1 - Offset(st, sh, j);
    InsideLeaf(st, sh, m, j, s);
    assert sh.leaves[..0] == [];
    LeafFacts(st, sh, m, j);
    EntryAt(st, sh, m, j, s);
    EntryAt(st, sh, m, j, s - 1);
  }

  /** No key is ever stored more than twice: two leaves do not start one after the other, since every leaf but the first
      has two entries or more. */
  lemma NoThirdCopy(st: Store, sh: Shape, m: nat, n: nat)
    requires IndexInv(st, sh, m) && n + 2 < |Contents(st, sh)|
    ensures Contents(st, sh)[n].key != Contents(st, sh)[n + 2].key
  {
    var es := Contents(st, sh);
    ContentsSorted(st, sh, m);
    LessOrder(es[n].key, es[n + 1].key, es[n].key);
    LessOrder(es[n].key, es[n].key, es[n].key);
    if !StartsLeaf(st, sh, n + 1) {
      StrictInLeaf(st, sh, m, n);
    } else {
      var j: nat :| 1 <= j < |sh.leaves| && n + 1 == Offset(st, sh, j);
      NextLeaf(st, sh, m, j - 1);
      InsideLeaf(st, sh, m, j, 1);
      StrictInLeaf(st, sh, m, n + 1);
    }
  }

  // ----- the ends of the leaf list -----

  /** Only an empty index has an empty leaf, and it is the only one. */
  lemma EmptyLeaf(st: Store, sh: Shape, m: nat)
    requires IndexInv(st, sh, m) && sh.leaves[0] in st.pages && st.pages[sh.leaves[0]].keys == []
    ensures |sh.leaves| == 1 && Contents(st, sh) == []
  {
    LeafFacts(st, sh, m, 0);
    assert PageInv(st, sh.info, m, Settled, sh.leaves[0]);
    assert |sh.leaves| == 1;
    OffsetStep(st, sh, m, 0);
    OffsetEnd(st, sh);
    assert sh.leaves[..0] == [];
  }

  /** Slot 0 of the first leaf is entry 0, or past the end of an empty index. */
  lemma FirstIid(st: Store, sh: Shape, m: nat)
    requires IndexInv(st, sh, m)
    ensures Denotes(st, sh, Iid(st.firstLeaf, 0), 0)
  {
    LeafFacts(st, sh, m, 0);
    if st.pages[st.firstLeaf].keys == [] {
      EmptyLeaf(st, sh, m);
    } else {
      assert sh.leaves[..0] == [];
      EntryAt(st, sh, m, 0, 0);
      assert AtSlot(st, sh, Iid(st.firstLeaf, 0), 0, 0);
    }
  }

  /** The slot behind the last key of the last leaf is past the end. */
  lemma LastIid(st: Store, sh: Shape, m: nat)
    requires IndexInv(st, sh, m)
    ensures st.lastLeaf in st.pages
    ensures Denotes(st, sh, Iid(st.lastLeaf, |st.pages[st.lastLeaf].keys|), |Contents(st, sh)|)
  {
    LeafFacts(st, sh, m, |sh.leaves| - 1);
  }

  /** A slot in use of a leaf page holds an entry, and no other slot does. */
  lemma RidAt(st: Store, sh: Shape, m: nat, iid: Iid)
    requires IndexInv(st, sh, m) && iid.pageNo in st.pages && st.pages[iid.pageNo].isLeaf && iid.slotNo >= 0
    requires |st.pages[iid.pageNo].rids| == |st.pages[iid.pageNo].keys|
    ensures (exists n :: At(st, sh, iid, n)) <==> iid.slotNo < |st.pages[iid.pageNo].keys|
    ensures iid.slotNo < |st.pages[iid.pageNo].keys| ==>
      exists n: nat :: At(st, sh, iid, n) && n < |Contents(st, sh)|
                      && Contents(st, sh)[n].rid == st.pages[iid.pageNo].rids[iid.slotNo]
  {
    var pg := st.pages[iid.pageNo];
    if iid.slotNo < |pg.keys| {
      var j: nat :| 0 <= j < |sh.leaves| && sh.leaves[j] == iid.pageNo;
      EntryAt(st, sh, m, j, iid.slotNo);
      assert At(st, sh, iid, Offset(st, sh, j) + iid.slotNo) by {
        assert AtSlot(st, sh, iid, j, Offset(st, sh, j) + iid.slotNo);
      }
    } else {
      forall n ensures !At(st, sh, iid, n) {}
    }
  }
}
