// Queries whose tables are scanned through indexes: when an index scan that throws makes the query throw.
module IndexedQueries {
  import opened IxDefs
  import opened ScanDefs
  import opened BTree
  import opened KeyRange
  import opened SeqScan
  import Scan = SeqScan
  import opened IndexScan
  import opened PlanDefs
  import opened LeftDeepPlans
  import opened FirstTable
  import opened PlanMeaning
  import opened PlanRuns
  import opened JoinMeaning
  import opened QueryRuns

  // ----- one scan -----

  /** The records of a table, and the entries of an index on some of its columns. */
  datatype TableIndex = TableIndex(records: map<Rid, Row>, es: seq<Entry>, cols: seq<nat>)

  /** The table in the order of the index. */
  ghost predicate InIndexOrder(t: Table, ix: TableIndex) {
    && (forall i | 0 <= i < |ix.es| :: ix.es[i].rid in ix.records)
    && (forall r | r in ix.records :: |ix.records[r]| == |t.cols|)
    && J.RowsFit(t.rows, |t.cols|) && t.rows == RowsAt(Rids(ix.es), ix.records)
  }

  /** A run of the index scan that does not throw, for conditions of a sound shape, yields what the plan's scan stands
      for. */
  lemma IndexScanYields(t: Table, ix: TableIndex, cs: seq<Cond>, rids: seq<Rid>)
    requires InIndexOrder(t, ix) && AllHaveCols(cs, t.cols)
    requires forall r | r in ix.records :: AllFit(ResolveAll(cs, t.cols), |ix.records[r]|)
    requires rids == Select(Rids(ix.es), ix.records, ResolveAll(cs, t.cols))
    ensures forall k | 0 <= k < |rids| :: rids[k] in ix.records
    ensures RowsAt(rids, ix.records) == Kept(t.cols, t.rows, cs)
  {
    var conds, all := ResolveAll(cs, t.cols), Rids(ix.es);
    KeptIsFiltered(t.cols, t.rows, cs, 0);
    ScanYields(all, ix.records, conds, 0);
    assert all[0..] == all && t.rows[0..] == t.rows;
  }

  // ----- scans that throw -----

  /** What is left of the store for a run, when starting the scans of some tables throws. */
  function Without(store: map<string, Table>, fails: set<string>): map<string, Table> {
    map tab | tab in store && tab !in fails :: store[tab]
  }

  /** The first n + 1 parts run to some output from which the next join pulls. */
  predicate Started(parts: seq<Plan>, jcs: seq<seq<Cond>>, store: map<string, Table>, n: nat)
    requires n < |parts| == |jcs| && StoreOk(store)
  {
    Runs(LeftDeep(parts, jcs, n), store).Some? && Pulls(Runs(LeftDeep(parts, jcs, n), store).value)
  }

  /** Part i throws, and is started. */
  predicate FailsAt(parts: seq<Plan>, jcs: seq<seq<Cond>>, tables: seq<string>, store: map<string, Table>,
                    fails: set<string>, i: nat)
    requires i < |parts| == |jcs| == |tables| && StoreOk(store)
  {
    tables[i] in fails && (i == 0 || Started(parts, jcs, store, i - 1))
  }

  predicate FailsUpTo(parts: seq<Plan>, jcs: seq<seq<Cond>>, tables: seq<string>, store: map<string, Table>,
                      fails: set<string>, n: nat)
    requires n < |parts| == |jcs| == |tables| && StoreOk(store)
  {
    exists i :: 0 <= i <= n && FailsAt(parts, jcs, tables, store, fails, i)
  }

  /** A part on one table. */
  ghost predicate OnOne(part: Plan, tab: string) {
    NoJoin(part) && P.TablesIn(part) == {tab}
  }

  lemma {:induction false} PartFails(part: Plan, tab: string, store: map<string, Table>, fails: set<string>)
    requires StoreOk(store) && OnOne(part, tab)
    ensures StoreOk(Without(store, fails))
    ensures tab in fails ==> Runs(part, Without(store, fails)) == None
    ensures tab !in fails ==> OutCols(part, Without(store, fails)) == OutCols(part, store)
    ensures tab !in fails ==> Runs(part, Without(store, fails)) == Runs(part, store)
  {
    StoreWithout(store, fails);
    match part
    case Scan(_, _) =>
    case Filter(sub, _) => PartFails(sub, tab, store, fails);
    case Projection(sub, _) => PartFails(sub, tab, store, fails);
  }

  lemma StoreWithout(store: map<string, Table>, fails: set<string>)
    requires StoreOk(store)
    ensures StoreOk(Without(store, fails))
  {
    forall tab | tab in Without(store, fails) ensures TableFits(Without(store, fails)[tab], tab) {
      assert TableFits(store[tab], tab);
    }
  }

  ghost predicate PartsOnOne(parts: seq<Plan>, tables: seq<string>) {
    |parts| == |tables| && forall i | 0 <= i < |parts| :: OnOne(parts[i], tables[i])
  }

  /** Where the joins start, they have started below, and nothing has failed there. */
  lemma {:induction false} StartedBelow(parts: seq<Plan>, jcs: seq<seq<Cond>>, store: map<string, Table>, j: nat,
                                        n: nat)
    requires j <= n < |parts| == |jcs| && StoreOk(store) && Started(parts, jcs, store, n)
    ensures Started(parts, jcs, store, j)
  {
    if j < n { StartedBelow(parts, jcs, store, j, n - 1); }
  }

  lemma {:induction false} SameCols(parts: seq<Plan>, jcs: seq<seq<Cond>>, tables: seq<string>, store: map<string,
                                    Table>, fails: set<string>, n: nat)
    requires n < |parts| == |jcs| && StoreOk(store) && PartsOnOne(parts, tables)
    requires Started(parts, jcs, store, n) && !FailsUpTo(parts, jcs, tables, store, fails, n)
    ensures OutCols(LeftDeep(parts, jcs, n), Without(store, fails)) == OutCols(LeftDeep(parts, jcs, n), store)
  {
    assert OnOne(parts[n], tables[n]);
    assert !FailsAt(parts, jcs, tables, store, fails, n);
    if n > 0 {
      StartedBelow(parts, jcs, store, n - 1, n);
      FailsMore(parts, jcs, tables, store, fails, n - 1, n);
      SameCols(parts, jcs, tables, store, fails, n - 1);
    }
    PartFails(parts[n], tables[n], store, fails);
  }

  lemma FailsMore(parts: seq<Plan>, jcs: seq<seq<Cond>>, tables: seq<string>, store: map<string, Table>,
                  fails: set<string>, k: nat, n: nat)
    requires n == k + 1 < |parts| == |jcs| == |tables| && StoreOk(store)
    ensures FailsUpTo(parts, jcs, tables, store, fails, n)
       <==> FailsUpTo(parts, jcs, tables, store, fails, k) || FailsAt(parts, jcs, tables, store, fails, n)
  {
    if FailsUpTo(parts, jcs, tables, store, fails, n) {
      var i :| 0 <= i <= n && FailsAt(parts, jcs, tables, store, fails, i);
    }
  }

  /** Up to part n the tree does not run when a part that throws is started, and otherwise runs as if none threw. */
  predicate RunsUnless(parts: seq<Plan>, jcs: seq<seq<Cond>>, tables: seq<string>, store: map<string, Table>,
                       fails: set<string>, n: nat)
    requires n < |parts| == |jcs| == |tables| && StoreOk(store) && StoreOk(Without(store, fails))
  {
    Runs(LeftDeep(parts, jcs, n), Without(store, fails))
    == if FailsUpTo(parts, jcs, tables, store, fails, n) then None else Runs(LeftDeep(parts, jcs, n), store)
  }

  lemma {:induction false} TreeFails(parts: seq<Plan>, jcs: seq<seq<Cond>>, tables: seq<string>,
                                     store: map<string, Table>, fails: set<string>, n: nat)
    requires n < |parts| == |jcs| && StoreOk(store) && PartsOnOne(parts, tables) && StoreOk(Without(store, fails))
    ensures RunsUnless(parts, jcs, tables, store, fails, n)
  {
    assert OnOne(parts[n], tables[n]);
    if n == 0 {
      PartFails(parts[0], tables[0], store, fails);
      assert FailsUpTo(parts, jcs, tables, store, fails, 0) <==> FailsAt(parts, jcs, tables, store, fails, 0);
    } else {
      TreeFails(parts, jcs, tables, store, fails, n - 1);
      FailsOneMore(parts, jcs, tables, store, fails, n - 1, n);
    }
  }

  lemma FailsOneMore(parts: seq<Plan>, jcs: seq<seq<Cond>>, tables: seq<string>, store: map<string, Table>,
                     fails: set<string>, k: nat, n: nat)
    requires n == k + 1 < |parts| == |jcs| && StoreOk(store) && PartsOnOne(parts, tables)
    requires StoreOk(Without(store, fails)) && RunsUnless(parts, jcs, tables, store, fails, k)
    ensures RunsUnless(parts, jcs, tables, store, fails, n)
  {
    var left, failed := LeftDeep(parts, jcs, k), FailsUpTo(parts, jcs, tables, store, fails, k);
    assert LeftDeep(parts, jcs, n) == Join(left, parts[n], jcs[n]);
    FailsMore(parts, jcs, tables, store, fails, k, n);
    if Started(parts, jcs, store, k) && !failed { SameCols(parts, jcs, tables, store, fails, k); }
    assert OnOne(parts[n], tables[n]);
    PartFails(parts[n], tables[n], store, fails);
    JoinFails(left, parts[n], jcs[n], store, Without(store, fails), failed, tables[n] in fails);
  }

  /** One join, when its left side runs as before unless failed, and its right side as before unless fails. */
  lemma JoinFails(left: Plan, right: Plan, cs: seq<Cond>, store: map<string, Table>, less: map<string, Table>,
                  failed: bool, fails: bool)
    requires StoreOk(store) && StoreOk(less)
    requires Runs(left, less) == if failed then None else Runs(left, store)
    requires Runs(right, less) == if fails then None else Runs(right, store)
    requires !fails ==> OutCols(right, less) == OutCols(right, store)
    requires !failed && Runs(left, store).Some? && Pulls(Runs(left, store).value) ==>
      OutCols(left, less) == OutCols(left, store)
    ensures var started := Runs(left, store).Some? && Pulls(Runs(left, store).value);
      Runs(Join(left, right, cs), less)
      == if failed || (fails && started) then None else Runs(Join(left, right, cs), store)
  {
  }

  // ----- a query without explicit joins -----

  /** Nothing is due from the first k + 1 tables when no row of the first one passes its conditions. */
  lemma NothingDueFirst(tables: seq<string>, conds: seq<Cond>, db: Db, schema: Schema, k: nat)
    requires DbOk(db, schema) && TablesOk(tables, db) && k < |tables| && CondsOk(conds, tables, schema)
    requires !SameTableFirst(conds, tables) && FirstTableScans(conds, tables, db)
    ensures RowsDue(tables, P.Singles(conds, tables, |tables|), P.Joins(conds, tables, |tables|), db, k) == []
  {
    var singles, jcs := P.Singles(conds, tables, |tables|), P.Joins(conds, tables, |tables|);
    var rows, due := db[tables[0]], Due(singles, jcs, k);
    MisplacedFails(conds, tables, db, schema);
    forall r, j | 0 <= r < |rows| && 0 <= j < |singles[0]| && Has(rows[r], singles[0][j]) ensures singles[0][j] in due {
      DueFirst(singles, jcs, k, singles[0][j]);
    }
    FailIn(rows, singles[0], due);
    ProductExtends(tables, db, schema, k + 1);
    ExtendedFail(Product(tables, k + 1, db), rows, due);
  }

  lemma {:induction false} DueFirst(singles: seq<seq<Cond>>, jcs: seq<seq<Cond>>, k: nat, c: Cond)
    requires k < |singles| == |jcs| && c in singles[0]
    ensures c in Due(singles, jcs, k)
  {
    if k > 0 { DueFirst(singles, jcs, k - 1, c); }
  }

  /** What the first k + 1 parts of the plan yield, in terms of the tables. */
  lemma OneRelPrefix(tables: seq<string>, conds: seq<Cond>, indexes: map<string, seq<seq<string>>>, db: Db,
                     schema: Schema, k: nat)
    requires DbOk(db, schema) && TablesOk(tables, db) && k < |tables| && CondsOk(conds, tables, schema)
    requires FirstTableScans(conds, tables, db)
    ensures var jcs := P.Joins(conds, tables, |tables|);
      YieldsIf(LeftDeep(P.Parts(conds, tables, indexes, |tables|), jcs, k), db,
               RowsDue(tables, P.Singles(conds, tables, |tables|), jcs, db, k))
  {
    var n := |tables|;
    var parts, singles := P.Parts(conds, tables, indexes, n), P.Singles(conds, tables, n);
    var jcs := P.Joins(conds, tables, n);
    if SameTableFirst(conds, tables) {
      OneRelPartsOk(tables, conds, indexes, db, schema);
      OneRelPushOk(conds, tables, db, schema);
      LeftDeepDenotes(parts, db, tables, schema, singles, jcs, AllColumns(tables, schema, n), k);
      RestrictedCount(RowsDue(tables, singles, jcs, db, k), Columns(AllColumns(tables, schema, n), k));
    } else {
      MisplacedFails(conds, tables, db, schema);
      FirstPartDenotes(conds, tables, indexes, db);
      EmptyBefore(parts, jcs, db, 0, k);
      NothingDueFirst(tables, conds, db, schema, k);
    }
  }

  /** The scan of table i is started: it is that of the first table, or some row of the product of the tables before it
      passes the conditions due there. */
  predicate Reached(tables: seq<string>, conds: seq<Cond>, db: Db, i: nat)
    requires TablesOk(tables, db) && i < |tables|
  {
    var singles, jcs := P.Singles(conds, tables, |tables|), P.Joins(conds, tables, |tables|);
    i > 0 ==> RowsDue(tables, singles, jcs, db, i - 1) != []
  }

  /** Whether the join above the first k + 1 parts pulls from them. */
  lemma OneRelStarted(tables: seq<string>, conds: seq<Cond>, indexes: map<string, seq<seq<string>>>,
                      store: map<string, Table>, parts: seq<Plan>, jcs: seq<seq<Cond>>, k: nat)
    requires StoreOk(store) && TablesOk(tables, DbOf(store)) && CondsOk(conds, tables, SchemaIn(store))
    requires parts == P.Parts(conds, tables, indexes, |tables|) && jcs == P.Joins(conds, tables, |tables|)
    requires k + 1 < |tables| && FirstTableScans(conds, tables, DbOf(store))
    ensures Started(parts, jcs, store, k) <==> Reached(tables, conds, DbOf(store), k + 1)
  {
    var tree := LeftDeep(parts, jcs, k);
    StoreDbOk(store);
    OneRelPrefix(tables, conds, indexes, DbOf(store), SchemaIn(store), k);
    assert Denote(tree, DbOf(store)).Some?
      && (Denote(tree, DbOf(store)).value != [] <==> Reached(tables, conds, DbOf(store), k + 1));
    OneRelTreeOk(tables, conds, indexes, store, parts, jcs);
    TreeRunnable(parts, jcs, tables, k);
    if k > 0 {
      TreeRuns(parts, jcs, store, NoNulls(|parts|), ScanPulls(parts, store), k);
    } else {
      assert PartRuns(parts[0], store, NoNulls(|parts|)[0], ScanPulls(parts, store)[0]);
    }
    RunsDenote(tree, store);
  }

  predicate ThrowsAt(tables: seq<string>, conds: seq<Cond>, db: Db, fails: set<string>, i: nat)
    requires TablesOk(tables, db) && i < |tables|
  {
    tables[i] in fails && Reached(tables, conds, db, i)
  }

  /** A scan that throws is started. */
  predicate ScanThrows(tables: seq<string>, conds: seq<Cond>, db: Db, fails: set<string>)
    requires TablesOk(tables, db)
  {
    exists i :: 0 <= i < |tables| && ThrowsAt(tables, conds, db, fails, i)
  }

  lemma FailsIsThrows(tables: seq<string>, conds: seq<Cond>, indexes: map<string, seq<seq<string>>>,
                      store: map<string, Table>, parts: seq<Plan>, jcs: seq<seq<Cond>>, fails: set<string>, m: nat)
    requires StoreOk(store) && TablesOk(tables, DbOf(store)) && CondsOk(conds, tables, SchemaIn(store))
    requires parts == P.Parts(conds, tables, indexes, |tables|) && jcs == P.Joins(conds, tables, |tables|)
    requires |tables| == m + 1 && FirstTableScans(conds, tables, DbOf(store))
    ensures FailsUpTo(parts, jcs, tables, store, fails, m) <==> ScanThrows(tables, conds, DbOf(store), fails)
  {
    if FailsUpTo(parts, jcs, tables, store, fails, m) {
      var i :| 0 <= i <= m && FailsAt(parts, jcs, tables, store, fails, i);
      FailsAtIsThrowsAt(tables, conds, indexes, store, parts, jcs, fails, i);
      assert ThrowsAt(tables, conds, DbOf(store), fails, i);
    }
    if i :| 0 <= i < |tables| && ThrowsAt(tables, conds, DbOf(store), fails, i) {
      FailsAtIsThrowsAt(tables, conds, indexes, store, parts, jcs, fails, i);
      assert FailsAt(parts, jcs, tables, store, fails, i);
    }
  }

  lemma FailsLater(tables: seq<string>, conds: seq<Cond>, indexes: map<string, seq<seq<string>>>,
                   store: map<string, Table>, parts: seq<Plan>, jcs: seq<seq<Cond>>, fails: set<string>, k: nat)
    requires StoreOk(store) && TablesOk(tables, DbOf(store)) && CondsOk(conds, tables, SchemaIn(store))
    requires parts == P.Parts(conds, tables, indexes, |tables|) && jcs == P.Joins(conds, tables, |tables|)
    requires k + 1 < |tables| && FirstTableScans(conds, tables, DbOf(store))
    ensures FailsAt(parts, jcs, tables, store, fails, k + 1) <==> ThrowsAt(tables, conds, DbOf(store), fails, k + 1)
  {
    OneRelStarted(tables, conds, indexes, store, parts, jcs, k);
  }

  lemma FailsAtIsThrowsAt(tables: seq<string>, conds: seq<Cond>, indexes: map<string, seq<seq<string>>>,
                          store: map<string, Table>, parts: seq<Plan>, jcs: seq<seq<Cond>>, fails: set<string>, i: nat)
    requires StoreOk(store) && TablesOk(tables, DbOf(store)) && CondsOk(conds, tables, SchemaIn(store))
    requires parts == P.Parts(conds, tables, indexes, |tables|) && jcs == P.Joins(conds, tables, |tables|)
    requires i < |tables| && FirstTableScans(conds, tables, DbOf(store))
    ensures FailsAt(parts, jcs, tables, store, fails, i) <==> ThrowsAt(tables, conds, DbOf(store), fails, i)
  {
    if i > 0 {
      var k: nat := i - 1;
      FailsLater(tables, conds, indexes, store, parts, jcs, fails, k);
      assert i == k + 1;
    } else {
      assert Reached(tables, conds, DbOf(store), 0);
    }
  }

  /** The plan of a query without explicit joins, when starting the scans of some tables throws: it runs to its end
      exactly when none of those is started and no row of the first table gets as far as a comparison of two columns of
      another table, and then it gives the answer. */
  lemma OneRelFails(tables: seq<string>, conds: seq<Cond>, indexes: map<string, seq<seq<string>>>,
                    store: map<string, Table>, fails: set<string>)
    requires StoreOk(store) && TablesOk(tables, DbOf(store)) && tables != [] && CondsOk(conds, tables, SchemaIn(store))
    ensures StoreOk(Without(store, fails))
    ensures var plan, db := P.OneRelPlan(tables, conds, indexes), DbOf(store);
      && (Runs(plan, Without(store, fails)).Some?
          <==> FirstTableScans(conds, tables, db) && !ScanThrows(tables, conds, db, fails))
      && (Runs(plan, Without(store, fails)).Some? ==> Runs(plan, Without(store, fails)) == Runs(plan, store))
  {
    var m := |tables| - 1;
    OneRelRuns(tables, conds, indexes, store);
    StoreWithout(store, fails);
    var parts, jcs := OneRelPieces(tables, conds, indexes, store, fails, m);
    TreeFails(parts, jcs, tables, store, fails, m);
  }

  /** The pieces of the plan. */
  lemma OneRelPieces(tables: seq<string>, conds: seq<Cond>, indexes: map<string, seq<seq<string>>>,
                     store: map<string, Table>, fails: set<string>, m: nat)
    returns (parts: seq<Plan>, jcs: seq<seq<Cond>>)
    requires StoreOk(store) && TablesOk(tables, DbOf(store)) && CondsOk(conds, tables, SchemaIn(store))
    requires |tables| == m + 1
    ensures |jcs| == |tables| && PartsOnOne(parts, tables)
    ensures P.OneRelPlan(tables, conds, indexes) == LeftDeep(parts, jcs, m)
    ensures FirstTableScans(conds, tables, DbOf(store)) ==>
      (FailsUpTo(parts, jcs, tables, store, fails, m) <==> ScanThrows(tables, conds, DbOf(store), fails))
  {
    parts, jcs := P.Parts(conds, tables, indexes, |tables|), P.Joins(conds, tables, |tables|);
    PlanIsTree(tables, conds, indexes, SchemaIn(store));
    OneRelOnOne(tables, conds, indexes, store, parts, jcs);
    if FirstTableScans(conds, tables, DbOf(store)) {
      FailsIsThrows(tables, conds, indexes, store, parts, jcs, fails, m);
    }
  }

  lemma OneRelOnOne(tables: seq<string>, conds: seq<Cond>, indexes: map<string, seq<seq<string>>>,
                    store: map<string, Table>, parts: seq<Plan>, jcs: seq<seq<Cond>>)
    requires StoreOk(store) && TablesOk(tables, DbOf(store))
    requires parts == P.Parts(conds, tables, indexes, |tables|) && jcs == P.Joins(conds, tables, |tables|)
    ensures PartsOnOne(parts, tables)
  {
    OneRelTreeOk(tables, conds, indexes, store, parts, jcs);
    forall i | 0 <= i < |tables| ensures OnOne(parts[i], tables[i]) { assert NoJoin(parts[i]) && Runnable(parts[i]); }
  }

  // ----- index scans that throw -----

  /** Table i is scanned through an index, and that scan throws. */
  ghost predicate ScanFails(tables: seq<string>, conds: seq<Cond>, store: map<string, Table>,
                            ixs: map<string, TableIndex>, i: nat)
    requires i < |tables| && tables[i] in store
  {
    tables[i] in ixs &&
      var ix := ixs[tables[i]];
      Throws(ix.es, Bounds(ResolveAll(P.SingleAt(conds, tables, i), store[tables[i]].cols), ix.cols))
  }

  /** The index suits the table and its conditions, which are of a sound shape. */
  ghost predicate IndexSuits(t: Table, ix: TableIndex, cs: seq<Cond>) {
    && InIndexOrder(t, ix) && Suits(ix.records, ResolveAll(cs, t.cols), ix.cols, |t.cols|) && AllHaveCols(cs, t.cols)
    && IndexOf(ix.es, ix.records, ix.cols) && Sound(Bounds(ResolveAll(cs, t.cols), ix.cols))
  }

  /** An index scan throws only when no row of its table passes. */
  lemma ThrowingScanKeepsNothing(t: Table, ix: TableIndex, cs: seq<Cond>)
    requires IndexSuits(t, ix, cs) && Throws(ix.es, Bounds(ResolveAll(cs, t.cols), ix.cols))
    ensures Kept(t.cols, t.rows, cs) == []
  {
    var conds, rs := ResolveAll(cs, t.cols), Rids(ix.es);
    forall n | 0 <= n < |rs| ensures !Scan.Passes(rs[n], ix.records, conds) {
      ThrowingScanSkips(ix, conds, |t.cols|, n);
    }
    SelectsNone(rs, ix.records, conds);
    IndexScanYields(t, ix, cs, []);
  }

  lemma ThrowingScanSkips(ix: TableIndex, conds: seq<Condition>, width: nat, n: nat)
    requires Suits(ix.records, conds, ix.cols, width) && IndexOf(ix.es, ix.records, ix.cols) && n < |ix.es|
    requires Sound(Bounds(conds, ix.cols)) && Throws(ix.es, Bounds(conds, ix.cols))
    ensures !Scan.Passes(ix.es[n].rid, ix.records, conds)
  {
    var bs, row := Bounds(conds, ix.cols), ix.records[ix.es[n].rid];
    var start, end := StartWith(bs, 0, |bs|), EndWith(bs, 0, |bs|);
    if Scan.Passes(ix.es[n].rid, ix.records, conds) { PassingInRange(row, conds, ix.cols, start, end); }
  }

  // ----- a query through indexes -----

  /** The scans of tables in ixs go through those indexes, and fails has the tables whose scan throws. */
  ghost predicate ThroughIndexes(tables: seq<string>, conds: seq<Cond>, store: map<string, Table>,
                                 ixs: map<string, TableIndex>, fails: set<string>)
    requires forall i | 0 <= i < |tables| :: tables[i] in store
  {
    forall i {:trigger ScanFails(tables, conds, store, ixs, i)} | 0 <= i < |tables| ::
      && (tables[i] in ixs ==> IndexSuits(store[tables[i]], ixs[tables[i]], P.SingleAt(conds, tables, i)))
      && (tables[i] in fails <==> ScanFails(tables, conds, store, ixs, i))
  }

  /** A query that has an answer is not thrown out by an index scan. */
  lemma AnswerScans(tables: seq<string>, conds: seq<Cond>, indexes: map<string, seq<seq<string>>>,
                    store: map<string, Table>, ixs: map<string, TableIndex>, fails: set<string>, i: nat)
    requires StoreOk(store) && TablesOk(tables, DbOf(store)) && CondsOk(conds, tables, SchemaIn(store))
    requires ThroughIndexes(tables, conds, store, ixs, fails) && i < |tables| && tables[i] in fails
    ensures FirstTableScans(conds, tables, DbOf(store)) ==> Keep(Product(tables, |tables|, DbOf(store)), conds) == []
  {
    var db, single := DbOf(store), P.SingleAt(conds, tables, i);
    assert ScanFails(tables, conds, store, ixs, i);
    assert TableFits(store[tables[i]], tables[i]);
    ThrowingScanKeepsNothing(store[tables[i]], ixs[tables[i]], single);
    EmptyScanPart(tables[i], single, P.IndexExists(single, tables[i], indexes), store);
    StoreDbOk(store);
    if FirstTableScans(conds, tables, db) { EmptyScanNoAnswer(tables, conds, indexes, db, SchemaIn(store), i); }
  }

  lemma EmptyScanNoAnswer(tables: seq<string>, conds: seq<Cond>, indexes: map<string, seq<seq<string>>>, db: Db,
                          schema: Schema, i: nat)
    requires DbOk(db, schema) && TablesOk(tables, db) && CondsOk(conds, tables, schema) && i < |tables|
    requires FirstTableScans(conds, tables, db)
    requires var part := P.PartAt(conds, tables, indexes, i); Denote(part, db).Some? ==> Denote(part, db).value == []
    ensures Keep(Product(tables, |tables|, db), conds) == []
  {
    var n := |tables|;
    var parts, jcs := P.Parts(conds, tables, indexes, n), P.Joins(conds, tables, n);
    assert !Yields(parts, jcs, db, n - 1) by { LosingPart(parts, jcs, db, i, n - 1); }
    assert P.OneRelPlan(tables, conds, indexes) == LeftDeep(parts, jcs, n - 1) by {
      PlanIsTree(tables, conds, indexes, schema);
    }
    OneRelDenotes(tables, conds, indexes, db, schema);
  }

  lemma EmptyScanPart(tab: string, cs: seq<Cond>, indexExist: bool, store: map<string, Table>)
    requires StoreOk(store) && tab in store && TableFits(store[tab], tab)
    requires Kept(store[tab].cols, store[tab].rows, cs) == []
    ensures var part := P.PartFor(tab, cs, indexExist);
      Denote(part, DbOf(store)).Some? ==> Denote(part, DbOf(store)).value == []
  {
    FilterRunYields(store[tab].cols, store[tab].rows, cs);
  }

  /** The main result for index scans: a query without explicit joins whose tables are scanned through suitable indexes
      runs to its end exactly when no row of the first table gets as far as a comparison of two columns of another table
      and no index scan that throws is started. Then it gives the answer. A query with an answer starts no such scan. */
  lemma OneRelThroughIndexes(tables: seq<string>, conds: seq<Cond>, indexes: map<string, seq<seq<string>>>,
                             store: map<string, Table>, ixs: map<string, TableIndex>, fails: set<string>)
    requires StoreOk(store) && TablesOk(tables, DbOf(store)) && tables != [] && CondsOk(conds, tables, SchemaIn(store))
    requires ThroughIndexes(tables, conds, store, ixs, fails)
    ensures StoreOk(Without(store, fails))
    ensures var plan, db := P.OneRelPlan(tables, conds, indexes), DbOf(store);
      && (Runs(plan, Without(store, fails)).Some?
          <==> FirstTableScans(conds, tables, db) && !ScanThrows(tables, conds, db, fails))
      && (Runs(plan, Without(store, fails)).Some? ==> Runs(plan, Without(store, fails)) == Runs(plan, store))
      && (Runs(plan, store).Some? ==>
            ToTuples(OutCols(plan, store), Runs(plan, store).value.rows) == Keep(Product(tables, |tables|, db), conds))
      && (Keep(Product(tables, |tables|, db), conds) != [] && FirstTableScans(conds, tables, db) ==>
            !ScanThrows(tables, conds, db, fails))
  {
    OneRelFails(tables, conds, indexes, store, fails);
    OneRelRuns(tables, conds, indexes, store);
    if i :| 0 <= i < |tables| && ThrowsAt(tables, conds, DbOf(store), fails, i) {
      AnswerScans(tables, conds, indexes, store, ixs, fails, i);
    }
  }
}
