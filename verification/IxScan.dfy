// The cursor over the leaf list.
module IxScans {
  import opened IxDefs
  import opened BTree
  import opened BTreeOrder
  import opened BTreeSearch
  import opened IxIndex

  // ----- what a cursor still has to visit -----

  /** The number of entries before position iid. */
  ghost function EndPos(st: Store, sh: Shape, iid: Iid): nat {
    if (exists j: nat :: AtEdge(st, sh, iid, j))
    then (var j: nat :| AtEdge(st, sh, iid, j); Offset(st, sh, j) + iid.slotNo)
    else |Contents(st, sh)|
  }

  /** Position iid is a slot of leaf j, or the one after its last key. */
  ghost predicate AtEdge(st: Store, sh: Shape, iid: Iid, j: nat) {
    && j < |sh.leaves| && sh.leaves[j] == iid.pageNo && iid.pageNo in st.pages
    && 0 <= iid.slotNo <= |st.pages[iid.pageNo].keys|
  }

  /** Where a cursor that is on entry n stops: at end if that is further on, and otherwise after the last entry. */
  ghost function Stop(st: Store, sh: Shape, end: Iid, n: nat): nat {
    if n < EndPos(st, sh, end) then EndPos(st, sh, end) else |Contents(st, sh)|
  }

  /** The entries a cursor at iid still visits before it gets to end; none if it is on no entry. */
  ghost function Rest(st: Store, sh: Shape, iid: Iid, end: Iid): seq<Entry> {
    if iid != end && exists n: nat :: At(st, sh, iid, n) && n <= Stop(st, sh, end, n) <= |Contents(st, sh)|
    then (var n: nat :| At(st, sh, iid, n) && n <= Stop(st, sh, end, n) <= |Contents(st, sh)|;
          Contents(st, sh)[n..Stop(st, sh, end, n)])
    else []
  }

  lemma EndPosAt(st: Store, sh: Shape, m: nat, iid: Iid, j: nat)
    requires IndexInv(st, sh, m) && AtEdge(st, sh, iid, j)
    ensures EndPos(st, sh, iid) == Offset(st, sh, j) + iid.slotNo <= |Contents(st, sh)|
  {
    OffsetStep(st, sh, m, j);
    OffsetWithin(st, sh, j + 1);
    forall i: nat | AtEdge(st, sh, iid, i) ensures i == j {}
  }

  lemma EndPosBounded(st: Store, sh: Shape, m: nat, iid: Iid)
    requires IndexInv(st, sh, m)
    ensures EndPos(st, sh, iid) <= |Contents(st, sh)|
  {
    if j: nat :| AtEdge(st, sh, iid, j) { EndPosAt(st, sh, m, iid, j); }
  }

  lemma RestAt(st: Store, sh: Shape, m: nat, iid: Iid, end: Iid, n: nat)
    requires IndexInv(st, sh, m) && At(st, sh, iid, n) && iid != end
    ensures n < Stop(st, sh, end, n) <= |Contents(st, sh)|
    ensures Rest(st, sh, iid, end) == Contents(st, sh)[n..Stop(st, sh, end, n)]
  {
    AtUnique(st, sh, m, iid, n, iid, n);
    EndPosBounded(st, sh, m, end);
    forall n': nat | At(st, sh, iid, n') ensures n' == n { AtUnique(st, sh, m, iid, n, iid, n'); }
  }

  /** The cursor's next position, from the page it is on. */
  function NextIid(pg: Page, iid: Iid, end: Iid): Iid {
    var next := Iid(iid.pageNo, iid.slotNo + 1);
    if iid == end then iid
    else if next == end || next.slotNo != |pg.keys| then next
    else if pg.next != IX_NO_PAGE && pg.next != IX_LEAF_HEADER_PAGE then Iid(pg.next, 0)
    else end
  }

  /** A step from entry n inside leaf j. */
  lemma StepInside(st: Store, sh: Shape, m: nat, iid: Iid, end: Iid, j: nat, n: nat)
    requires IndexInv(st, sh, m) && AtSlot(st, sh, iid, j, n) && iid != end
    requires iid.slotNo + 1 < |st.pages[iid.pageNo].keys|
    ensures var iid' := NextIid(st.pages[iid.pageNo], iid, end);
      && AtSlot(st, sh, iid', j, n + 1)
      && (iid' == end <==> Stop(st, sh, end, n) == n + 1)
      && (iid' != end ==> Stop(st, sh, end, n + 1) == Stop(st, sh, end, n))
  {
    var iid' := NextIid(st.pages[iid.pageNo], iid, end);
    assert AtEdge(st, sh, iid', j);
    EndPosAt(st, sh, m, iid', j);
    EntryAt(st, sh, m, j, iid'.slotNo);
    if EndPos(st, sh, end) == n + 1 { EndIsHere(st, sh, m, iid', end, j); }
  }

  /** A position with as many entries before it as slot iid of leaf j, other than its first one, is that slot, or the
      first slot of the next leaf. */
  lemma EndIsHere(st: Store, sh: Shape, m: nat, iid: Iid, end: Iid, j: nat)
    requires IndexInv(st, sh, m) && AtEdge(st, sh, iid, j) && iid.slotNo > 0
    requires EndPos(st, sh, end) == EndPos(st, sh, iid) < |Contents(st, sh)|
    ensures end == iid ||
      (iid.slotNo == |st.pages[iid.pageNo].keys| && j + 1 < |sh.leaves| && end == Iid(sh.leaves[j + 1], 0))
  {
    EndPosAt(st, sh, m, iid, j);
    var i: nat :| AtEdge(st, sh, end, i);
    EndPosAt(st, sh, m, end, i);
    if i < j { OffsetsIncrease(st, sh, m, i, j); }
    if j < i {
      OffsetsIncrease(st, sh, m, j, i);
      if j + 1 < i {
        NextLeaf(st, sh, m, j);
        OffsetsIncrease(st, sh, m, j + 1, i);
        OffsetsIncrease(st, sh, m, j, j + 1);
      }
    }
  }

  /** A step from the last entry of leaf j. */
  lemma StepAcross(st: Store, sh: Shape, m: nat, iid: Iid, end: Iid, j: nat, n: nat)
    requires IndexInv(st, sh, m) && AtSlot(st, sh, iid, j, n) && iid != end
    requires iid.slotNo + 1 == |st.pages[iid.pageNo].keys|
    ensures var iid' := NextIid(st.pages[iid.pageNo], iid, end);
      && (iid' == end <==> Stop(st, sh, end, n) == n + 1)
      && (iid' != end ==> Stop(st, sh, end, n + 1) == Stop(st, sh, end, n) && At(st, sh, iid', n + 1))
  {
    var here := Iid(iid.pageNo, iid.slotNo + 1);
    assert AtEdge(st, sh, here, j);
    EndPosAt(st, sh, m, here, j);
    LeafFacts(st, sh, m, j);
    StepAt(st, sh, m, iid, j, n);
    EndPosBounded(st, sh, m, end);
    if j + 1 < |sh.leaves| {
      LeafFacts(st, sh, m, j + 1);
      NextLeaf(st, sh, m, j);
      var there := Iid(sh.leaves[j + 1], 0);
      assert AtEdge(st, sh, there, j + 1);
      EndPosAt(st, sh, m, there, j + 1);
      if EndPos(st, sh, end) == n + 1 { EndIsHere(st, sh, m, here, end, j); }
    }
  }

  /** A step of the cursor takes the first entry off what is left to visit. */
  lemma StepTakesOne(st: Store, sh: Shape, m: nat, iid: Iid, end: Iid, n: nat)
    requires IndexInv(st, sh, m) && At(st, sh, iid, n) && iid != end
    ensures iid.pageNo in st.pages && n < |Contents(st, sh)|
    ensures var iid', rest := NextIid(st.pages[iid.pageNo], iid, end), Rest(st, sh, iid, end);
      && rest != [] && rest[0] == Contents(st, sh)[n] && Rest(st, sh, iid', end) == rest[1..]
      && (iid' == end || At(st, sh, iid', n + 1))
  {
    var j: nat :| AtSlot(st, sh, iid, j, n);
    RestAt(st, sh, m, iid, end, n);
    var iid' := NextIid(st.pages[iid.pageNo], iid, end);
    if iid.slotNo + 1 < |st.pages[iid.pageNo].keys| {
      StepInside(st, sh, m, iid, end, j, n);
    } else {
      StepAcross(st, sh, m, iid, end, j, n);
    }
    if iid' != end { RestAt(st, sh, m, iid', end, n + 1); }
  }

  /** From position lower, entry a, to position upper, entry b: just the entries in between. */
  lemma RestBetween(st: Store, sh: Shape, m: nat, lower: Iid, upper: Iid, a: nat, b: nat)
    requires IndexInv(st, sh, m) && Denotes(st, sh, lower, a) && Denotes(st, sh, upper, b)
    requires a < |Contents(st, sh)| && a <= b
    ensures b <= |Contents(st, sh)| && Rest(st, sh, lower, upper) == Contents(st, sh)[a..b]
    ensures lower == upper <==> a == b
  {
    EndPosDenotes(st, sh, m, upper, b);
    if b < |Contents(st, sh)| { AtUnique(st, sh, m, lower, a, upper, b); }
    if lower != upper { RestAt(st, sh, m, lower, upper, a); } else { PastEndIsNoEntry(st, sh, m, upper); }
  }

  lemma EndPosDenotes(st: Store, sh: Shape, m: nat, iid: Iid, n: nat)
    requires IndexInv(st, sh, m) && Denotes(st, sh, iid, n)
    ensures EndPos(st, sh, iid) == n
  {
    if n < |Contents(st, sh)| {
      var j: nat :| AtSlot(st, sh, iid, j, n);
      EndPosAt(st, sh, m, iid, j);
    } else {
      NothingAtHeader(st, sh, m);
      if j: nat :| AtEdge(st, sh, iid, j) {
        EndPosAt(st, sh, m, iid, j);
        OffsetStep(st, sh, m, j);
        OffsetEnd(st, sh);
      }
    }
  }

  lemma PastEndIsNoEntry(st: Store, sh: Shape, m: nat, iid: Iid)
    requires IndexInv(st, sh, m)
    ensures PastEnd(st, sh, iid) ==> forall n: nat :: !At(st, sh, iid, n)
  {
    NothingAtHeader(st, sh, m);
  }

  /** Nothing is left behind the last entry. */
  lemma RestPastEnd(st: Store, sh: Shape, m: nat, lower: Iid, upper: Iid)
    requires IndexInv(st, sh, m) && PastEnd(st, sh, lower)
    ensures Rest(st, sh, lower, upper) == []
  {
    PastEndIsNoEntry(st, sh, m, lower);
  }

  ghost predicate OnEntry(st: Store, sh: Shape, iid: Iid) {
    exists n: nat :: At(st, sh, iid, n)
  }

  // ----- the cursor -----

  class IxScan {
    const ih: IxIndexHandle
    const end: Iid
    var iid: Iid

    constructor (ih: IxIndexHandle, lower: Iid, upper: Iid)
      ensures this.ih == ih && iid == lower && end == upper
    {
      this.ih, iid, end := ih, lower, upper;
    }

    /** The entries still to be visited. */
    ghost function Remaining(): seq<Entry>
      reads this, ih
    {
      Rest(ih.store, ih.shape, iid, end)
    }

    /** The cursor is on an entry or finished. */
    ghost predicate OnTrack()
      reads this, ih
    {
      iid == end || OnEntry(ih.store, ih.shape, iid)
    }

    predicate IsEnd()
      reads this
    {
      iid == end
    }

    /** An entry is on a leaf page. */
    lemma OnLeaf()
      requires ih.Valid() && OnTrack() && !IsEnd()
      ensures iid.pageNo in ih.pages && iid.pageNo in ih.store.pages && ih.store.pages[iid.pageNo].isLeaf
      ensures iid.slotNo >= 0
    {
      var n: nat :| At(ih.store, ih.shape, iid, n);
      var j: nat :| AtSlot(ih.store, ih.shape, iid, j, n);
      LeafFacts(ih.store, ih.shape, ih.maxSize, j);
    }

    /** A cursor that is on an entry has that entry left to visit. */
    lemma HasRest()
      requires ih.Valid() && OnTrack() && !IsEnd()
      ensures Remaining() != []
    {
      var n: nat :| At(ih.store, ih.shape, iid, n);
      RestAt(ih.store, ih.shape, ih.maxSize, iid, end, n);
    }

    /** next */
    method Next()
      requires ih.Valid() && this !in ih.Repr
      requires iid != end ==> iid.pageNo in ih.pages && ih.store.pages[iid.pageNo].isLeaf && iid.slotNo >= 0
      modifies this
      ensures old(IsEnd()) ==> iid == end
      ensures old(OnTrack()) && !old(IsEnd()) ==>
        OnTrack() && old(Remaining()) != [] && Remaining() == old(Remaining())[1..]
      ensures !old(OnTrack()) ==> iid == Iid(old(iid).pageNo, old(iid).slotNo + 1)
    {
      if iid == end { return; }
      assert ih.Held(iid.pageNo);
      var node := ih.pages[iid.pageNo];
      ghost var start := iid;
      iid := Iid(iid.pageNo, iid.slotNo + 1);
      if iid != end && iid.slotNo == node.numKey {
        if node.nextLeaf != IX_NO_PAGE && node.nextLeaf != IX_LEAF_HEADER_PAGE {
          iid := Iid(node.nextLeaf, 0);
        } else {
          iid := end;
        }
      }
      if n: nat :| At(ih.store, ih.shape, start, n) {
        StepTakesOne(ih.store, ih.shape, ih.maxSize, start, end, n);
      } else {
        RidAt(ih.store, ih.shape, ih.maxSize, start);
      }
    }

    /** rid: throws at the end and on a position that is not in use. */
    method CurrentRid() returns (rid: Option<Rid>)
      requires ih.Valid() && this !in ih.Repr
      requires iid != end ==> iid.pageNo in ih.pages && ih.store.pages[iid.pageNo].isLeaf && iid.slotNo >= 0
      ensures rid == if Remaining() == [] then None else Some(Remaining()[0].rid)
    {
      if iid == end { return None; }
      rid := ih.GetRid(iid);
      if rid.Some? {
        ghost var n: nat :| At(ih.store, ih.shape, iid, n) && n < |ih.Entries()| && ih.Entries()[n].rid == rid.value;
        RestAt(ih.store, ih.shape, ih.maxSize, iid, end, n);
      }
    }
  }
}
