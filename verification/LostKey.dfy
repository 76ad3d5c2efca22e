// A unique index that is filled loses a key, and then takes it a second time.
module LostKey {
  import opened KeyOrder
  import opened IxDefs
  import opened BTree
  import opened BTreeOrder
  import opened BTreeSearch
  import opened IxIndex

  /** One of the rows is in the index under a key that get_value does not find. */
  lemma SomeRowLost(st: Store, sh: Shape, m: nat, rows: seq<Entry>) returns (i: nat)
    requires IndexInv(st, sh, m) && DistinctKeys(rows) && Contents(st, sh) == InKeyOrder(rows, |rows|) && |rows| >= m
    ensures i < |rows| && !Found(Contents(st, sh), rows[i].key, IsSeparator(st, sh, rows[i].key))
  {
    var es := Contents(st, sh);
    InKeyOrderIsSorted(rows, |rows|);
    var n := SomeKeyLost(st, sh, m);
    assert rows[..|rows|] == rows;
    assert es[n] in multiset(rows);
    i :| 0 <= i < |rows| && rows[i] == es[n];
  }

  lemma RowIsThere(rows: seq<Entry>, i: nat)
    requires DistinctKeys(rows) && i < |rows|
    ensures rows[i] in InKeyOrder(rows, |rows|)
  {
    InKeyOrderIsSorted(rows, |rows|);
    assert rows[..|rows|] == rows && rows[i] in multiset(rows);
  }

  /** get_value finds the key. */
  ghost predicate Finds(ih: IxIndexHandle, key: Key)
    requires ih.Valid()
    reads ih, ih.Repr
  {
    Found(ih.Entries(), key, ih.Separator(key))
  }

  /** Looking up every row in turn, one is not found. */
  method LostRow(ih: IxIndexHandle, rows: seq<Entry>) returns (i: nat)
    requires ih.Valid() && DistinctKeys(rows) && ih.Entries() == InKeyOrder(rows, |rows|) && |rows| >= ih.maxSize
    ensures i < |rows| && !Found(ih.Entries(), rows[i].key, ih.Separator(rows[i].key))
  {
    ghost var lost := SomeRowLost(ih.store, ih.shape, ih.maxSize, rows);
    i := 0;
    while i < |rows|
      invariant i <= |rows| && (lost < i ==> Finds(ih, rows[lost].key))
    {
      var value := ih.GetValue(rows[i].key);
      if value.None? { return; }
      i := i + 1;
    }
  }

  /** A unique index with all rows. */
  method Filled(maxSize: nat, rows: seq<Entry>) returns (ih: IxIndexHandle)
    requires maxSize >= 4 && DistinctKeys(rows)
    ensures ih.Valid() && fresh(ih) && fresh(ih.Repr) && ih.unique && ih.maxSize == maxSize
    ensures ih.Entries() == InKeyOrder(rows, |rows|)
  {
    ih := new IxIndexHandle(maxSize, true);
    var refused := ih.InsertAll(rows);
  }

  /** Into a unique index, of any node size, as many rows with different keys are inserted as a node has room for. All
      are accepted, and then one of them is accepted again. */
  method TakesTwice(maxSize: nat, rows: seq<Entry>, again: Rid) returns (ih: IxIndexHandle, i: nat)
    requires maxSize >= 4 && DistinctKeys(rows) && |rows| >= maxSize
    ensures ih.Valid() && ih.unique && i < |rows| && rows[i] in InKeyOrder(rows, |rows|)
    ensures var es := InKeyOrder(rows, |rows|);
      ih.Entries() == InsertAt(es, LowerEntry(es, rows[i].key), Entry(rows[i].key, again))
  {
    ih := Filled(maxSize, rows);
    i := LostRow(ih, rows);
    RowIsThere(rows, i);
    var refused := ih.InsertEntry(rows[i].key, again);
  }
}
