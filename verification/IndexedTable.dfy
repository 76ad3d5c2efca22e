// A table, the index created on it, and the scan through that index.
module IndexedTable {
  import opened IxDefs
  import opened BTree
  import opened ScanDefs
  import opened KeyRange
  import opened SeqScan
  import opened IxIndex
  import opened IndexScan

  /** The entries create_index makes of the first n records. */
  function EntriesFor(records: seq<Rid>, table: map<Rid, Row>, cols: seq<nat>, n: nat): (rows: seq<Entry>)
    requires n <= |records| && forall i | 0 <= i < |records| :: records[i] in table
    requires forall r | r in table :: forall i | 0 <= i < |cols| :: cols[i] < |table[r]|
    ensures |rows| == n && forall i | 0 <= i < n :: rows[i] == Entry(KeyOf(table[records[i]], cols), records[i])
  {
    if n == 0 then []
    else EntriesFor(records, table, cols, n - 1) + [Entry(KeyOf(table[records[n - 1]], cols), records[n - 1])]
  }

  /** All records of the table, each once. */
  ghost predicate Lists(records: seq<Rid>, table: map<Rid, Row>) {
    (forall i, j | 0 <= i < j < |records| :: records[i] != records[j]) && (forall r :: r in records <==> r in table)
  }

  /** Before they are put in order, the entries are an index of the table. */
  lemma EntriesAreIndex(records: seq<Rid>, table: map<Rid, Row>, cols: seq<nat>)
    requires Lists(records, table)
    requires forall r | r in table :: forall i | 0 <= i < |cols| :: cols[i] < |table[r]|
    ensures (forall i | 0 <= i < |records| :: records[i] in table)
    ensures IndexOf(EntriesFor(records, table, cols, |records|), table, cols)
  {
    forall i | 0 <= i < |records| ensures records[i] in table { assert records[i] in records; }
    var rows := EntriesFor(records, table, cols, |records|);
    forall r | r in table ensures exists i :: 0 <= i < |rows| && rows[i].rid == r {
      assert r in records;
      var i :| 0 <= i < |records| && records[i] == r;
      assert rows[i].rid == r;
    }
  }

  lemma {:induction false} OnceEach(s: seq<Entry>, e: Entry)
    requires forall i, j | 0 <= i < j < |s| :: s[i].rid != s[j].rid
    ensures multiset(s)[e] <= 1
  {
    if s != [] {
      var rest := s[1..];
      OnceEach(rest, e);
      assert s == [s[0]] + rest;
      forall k | 0 <= k < |rest| ensures rest[k] != s[0] { assert s[0].rid != s[k + 1].rid; }
      assert s[0] !in multiset(rest);
    }
  }

  lemma TwiceCounted(s: seq<Entry>, i: nat, j: nat)
    requires i < j < |s| && s[i] == s[j]
    ensures multiset(s)[s[i]] >= 2
  {
    assert s == s[..j] + s[j..];
    assert s[..j][i] == s[i] && s[j..][0] == s[j];
    assert multiset(s) == multiset(s[..j]) + multiset(s[j..]);
  }

  /** Putting the entries of an index in another order gives an index of the same table. */
  lemma ReorderedIndex(rows: seq<Entry>, es: seq<Entry>, table: map<Rid, Row>, cols: seq<nat>)
    requires forall r | r in table :: forall i | 0 <= i < |cols| :: cols[i] < |table[r]|
    requires IndexOf(rows, table, cols) && multiset(es) == multiset(rows)
    ensures IndexOf(es, table, cols)
  {
    forall i | 0 <= i < |es| ensures es[i] in rows { assert es[i] in multiset(es); }
    forall i, j | 0 <= i < j < |es| ensures es[i].rid != es[j].rid {
      if es[i].rid == es[j].rid {
        assert es[i] in rows && es[j] in rows;
        TwiceCounted(es, i, j);
        OnceEach(rows, es[i]);
      }
    }
    forall r | r in table ensures exists i :: 0 <= i < |es| && es[i].rid == r {
      var k :| 0 <= k < |rows| && rows[k].rid == r;
      assert rows[k] in multiset(es) && rows[k] in es;
    }
  }

  /** create_index on a table whose rows differ in the index columns: a valid index of that table. */
  method CreateIndex(records: seq<Rid>, table: map<Rid, Row>, cols: seq<nat>, maxSize: nat, unique: bool)
    returns (ih: IxIndexHandle)
    requires forall r | r in table :: forall i | 0 <= i < |cols| :: cols[i] < |table[r]|
    requires Lists(records, table) && maxSize >= 4 && forall i | 0 <= i < |records| :: records[i] in table
    requires DistinctKeys(EntriesFor(records, table, cols, |records|))
    ensures ih.Valid() && fresh(ih) && fresh(ih.Repr) && ih.unique == unique
    ensures ih.Entries() == InKeyOrder(EntriesFor(records, table, cols, |records|), |records|)
    ensures IndexOf(ih.Entries(), table, cols)
  {
    var rows := EntriesFor(records, table, cols, |records|);
    ih := new IxIndexHandle(maxSize, unique);
    var refused := ih.InsertAll(rows);
    InKeyOrderIsIndex(rows, records, table, cols);
  }

  lemma InKeyOrderIsIndex(rows: seq<Entry>, records: seq<Rid>, table: map<Rid, Row>, cols: seq<nat>)
    requires forall r | r in table :: forall i | 0 <= i < |cols| :: cols[i] < |table[r]|
    requires Lists(records, table) && forall i | 0 <= i < |records| :: records[i] in table
    requires rows == EntriesFor(records, table, cols, |records|) && DistinctKeys(rows)
    ensures IndexOf(InKeyOrder(rows, |rows|), table, cols)
  {
    EntriesAreIndex(records, table, cols);
    InKeyOrderIsSorted(rows, |rows|);
    assert rows[..|rows|] == rows;
    ReorderedIndex(rows, InKeyOrder(rows, |rows|), table, cols);
  }

  /** The scan through an index of the table. */
  method ScanThrough(ih: IxIndexHandle, ghost es: seq<Entry>, records: seq<Rid>, table: map<Rid, Row>, cols: seq<nat>,
                     conds: seq<Condition>, width: nat) returns (error: Option<ScanError>, rids: seq<Rid>)
    requires ih.Valid() && es == ih.Entries() && Suits(table, conds, cols, width) && IndexOf(es, table, cols)
    requires Lists(records, table)
    ensures Sound(Bounds(conds, cols)) ==> (error.Some? <==> Throws(es, Bounds(conds, cols)))
    ensures Sound(Bounds(conds, cols)) && error.None? ==> multiset(rids) == multiset(Select(records, table, conds))
  {
    ghost var all := Select(Rids(es), table, conds);
    assert multiset(all) == multiset(Select(records, table, conds)) by {
      SameRecords(es, records, table, conds, cols, width);
    }
    var scan := new IndexScanExecutor(ih, table, cols, conds, width);
    error, rids := scan.Run();
    assert Sound(Bounds(conds, cols)) && error.None? ==> rids == all;
  }

  /** create_index and then a scan through the new index. For conditions of a sound shape the scan throws exactly when
      Throws says, and otherwise it yields the records a sequential scan yields. */
  method CreateAndScan(records: seq<Rid>, table: map<Rid, Row>, cols: seq<nat>, conds: seq<Condition>, width: nat,
                       maxSize: nat, unique: bool) returns (error: Option<ScanError>, rids: seq<Rid>)
    requires Suits(table, conds, cols, width) && Lists(records, table) && maxSize >= 4
    requires forall i | 0 <= i < |records| :: records[i] in table
    requires DistinctKeys(EntriesFor(records, table, cols, |records|))
    ensures Sound(Bounds(conds, cols)) ==>
      (error.Some? <==> Throws(InKeyOrder(EntriesFor(records, table, cols, |records|), |records|), Bounds(conds, cols)))
    ensures Sound(Bounds(conds, cols)) && error.None? ==> multiset(rids) == multiset(Select(records, table, conds))
  {
    ghost var es := InKeyOrder(EntriesFor(records, table, cols, |records|), |records|);
    var ih := CreateIndex(records, table, cols, maxSize, unique);
    error, rids := ScanThrough(ih, es, records, table, cols, conds, width);
  }
}
