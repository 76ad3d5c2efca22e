// What running the planner's trees gives: where a join meets a null, and that all other runs give the answer.
module QueryRuns {
  import opened IxDefs
  import opened PlanDefs
  import opened LeftDeepPlans
  import opened FirstTable
  import opened PlanMeaning
  import opened JoinOrder
  import opened JoinPlan
  import opened JoinMeaning
  import opened PlanRuns
  import J = Joins
  import S = ScanDefs

  // ----- a left-deep tree -----

  /** How a part of the tree runs: to a null or not, and from rows or at its end at once; from rows if it throws. */
  ghost predicate PartRuns(part: Plan, store: map<string, Table>, null_: bool, pulls: bool)
    requires StoreOk(store)
  {
    && NoJoin(part) && Runnable(part)
    && (Runs(part, store).Some? <==> Denote(part, DbOf(store)).Some?)
    && match Runs(part, store) case Some(out) => out.null_ == null_ && Pulls(out) == pulls case None => pulls
  }

  ghost predicate AllPartsRun(parts: seq<Plan>, store: map<string, Table>, nulls: seq<bool>, pulls: seq<bool>)
    requires StoreOk(store)
  {
    |parts| == |nulls| == |pulls| && forall i | 0 <= i < |parts| :: PartRuns(parts[i], store, nulls[i], pulls[i])
  }

  /** The first n + 1 parts join to at least one row. */
  predicate Yields(parts: seq<Plan>, jcs: seq<seq<Cond>>, db: Db, n: nat)
    requires n < |parts| == |jcs|
  {
    Denote(LeftDeep(parts, jcs, n), db).Some? && Denote(LeftDeep(parts, jcs, n), db).value != []
  }

  /** Part i gives the join above it a null: the first part if the second has a row or a null to join it with, the
      second if the first has, and a later one if those before it join to a row. */
  predicate NullMet(parts: seq<Plan>, jcs: seq<seq<Cond>>, db: Db, nulls: seq<bool>, pulls: seq<bool>, i: nat)
    requires 1 < |parts| == |jcs| == |nulls| == |pulls| && i < |parts|
  {
    nulls[i] && if i < 2 then pulls[1 - i] else Yields(parts, jcs, db, i - 1)
  }

  predicate NoNullMet(parts: seq<Plan>, jcs: seq<seq<Cond>>, db: Db, nulls: seq<bool>, pulls: seq<bool>, n: nat)
    requires 1 < |parts| == |jcs| == |nulls| == |pulls| && n < |parts|
  {
    forall i | 0 <= i <= n :: !NullMet(parts, jcs, db, nulls, pulls, i)
  }

  predicate ColumnJoins(jcs: seq<seq<Cond>>) {
    forall i | 0 < i < |jcs| :: AllColRefs(jcs[i])
  }

  predicate PartsOn(parts: seq<Plan>, tables: seq<string>) {
    && |parts| == |tables| && DistinctTables(tables)
    && forall i | 0 <= i < |parts| :: Planner.TablesIn(parts[i]) == {tables[i]}
  }

  predicate AllSimple(parts: seq<Plan>) {
    forall i {:trigger parts[i]} | 0 <= i < |parts| :: NoJoin(parts[i]) && Runnable(parts[i])
  }

  lemma {:induction false} TreeRunnable(parts: seq<Plan>, jcs: seq<seq<Cond>>, tables: seq<string>, n: nat)
    requires n < |parts| == |jcs| && PartsOn(parts, tables) && ColumnJoins(jcs) && AllSimple(parts)
    ensures Runnable(LeftDeep(parts, jcs, n))
  {
    assert NoJoin(parts[n]) && Runnable(parts[n]);
    if n > 0 {
      TreeRunnable(parts, jcs, tables, n - 1);
      Planner.TablesInTree(parts, jcs, tables, n - 1);
      FirstTablesHas(tables, n, tables[n]);
      NotAmong(tables, n);
      assert AllColRefs(jcs[n]);
    }
  }

  /** The tree runs to its end just when nothing in it throws and no join meets a null, and then gives no null. */
  ghost predicate TreeOutcome(parts: seq<Plan>, jcs: seq<seq<Cond>>, store: map<string, Table>, nulls: seq<bool>,
                              pulls: seq<bool>, n: nat)
    requires 1 < |parts| == |jcs| == |nulls| == |pulls| && n < |parts| && StoreOk(store)
  {
    var tree, db := LeftDeep(parts, jcs, n), DbOf(store);
    && (Runs(tree, store).Some? <==> Denote(tree, db).Some? && NoNullMet(parts, jcs, db, nulls, pulls, n))
    && (Runs(tree, store).Some? ==> !Runs(tree, store).value.null_)
  }

  /** The first join. */
  lemma FirstJoinRuns(parts: seq<Plan>, jcs: seq<seq<Cond>>, store: map<string, Table>, nulls: seq<bool>,
                      pulls: seq<bool>)
    requires 1 < |parts| == |jcs| && StoreOk(store) && AllPartsRun(parts, store, nulls, pulls)
    requires Runnable(LeftDeep(parts, jcs, 1))
    ensures TreeOutcome(parts, jcs, store, nulls, pulls, 1)
  {
    var db := DbOf(store);
    assert PartRuns(parts[0], store, nulls[0], pulls[0]) && PartRuns(parts[1], store, nulls[1], pulls[1]);
    assert NoNullMet(parts, jcs, db, nulls, pulls, 1) <==> !(nulls[0] && pulls[1]) && !(nulls[1] && pulls[0]) by {
      assert NullMet(parts, jcs, db, nulls, pulls, 0) <==> nulls[0] && pulls[1];
      assert NullMet(parts, jcs, db, nulls, pulls, 1) <==> nulls[1] && pulls[0];
    }
    assert LeftDeep(parts, jcs, 1) == Join(parts[0], parts[1], jcs[1]);
    PairRuns(parts[0], parts[1], jcs[1], store, nulls[0], pulls[0], nulls[1], pulls[1]);
  }

  /** A join of two parts. */
  lemma PairRuns(left: Plan, right: Plan, cs: seq<Cond>, store: map<string, Table>, n0: bool, p0: bool, n1: bool,
                 p1: bool)
    requires StoreOk(store) && PartRuns(left, store, n0, p0) && PartRuns(right, store, n1, p1)
    requires Runnable(Join(left, right, cs))
    ensures var tree := Join(left, right, cs);
      && (Runs(tree, store).Some? <==> Denote(tree, DbOf(store)).Some? && !(n0 && p1) && !(n1 && p0))
      && (Runs(tree, store).Some? ==> !Runs(tree, store).value.null_)
  {
    if Runs(left, store).Some? { RunsDenote(left, store); }
  }

  /** A left-deep tree runs to its end unless a part throws or a join meets a null. */
  lemma {:induction false} TreeRuns(parts: seq<Plan>, jcs: seq<seq<Cond>>, store: map<string, Table>, nulls: seq<bool>,
                                    pulls: seq<bool>, n: nat)
    requires 1 <= n < |parts| == |jcs| && StoreOk(store) && AllPartsRun(parts, store, nulls, pulls)
    requires Runnable(LeftDeep(parts, jcs, n))
    ensures TreeOutcome(parts, jcs, store, nulls, pulls, n)
  {
    if n == 1 {
      FirstJoinRuns(parts, jcs, store, nulls, pulls);
    } else {
      TreeRuns(parts, jcs, store, nulls, pulls, n - 1);
      NextJoinRuns(parts, jcs, store, nulls, pulls, n - 1, n);
    }
  }

  lemma NoNullNext(parts: seq<Plan>, jcs: seq<seq<Cond>>, db: Db, nulls: seq<bool>, pulls: seq<bool>, k: nat, n: nat)
    requires 2 <= n == k + 1 < |parts| == |jcs| == |nulls| == |pulls|
    ensures NoNullMet(parts, jcs, db, nulls, pulls, n)
       <==> NoNullMet(parts, jcs, db, nulls, pulls, k) && !(nulls[n] && Yields(parts, jcs, db, k))
  {
    assert NullMet(parts, jcs, db, nulls, pulls, n) <==> nulls[n] && Yields(parts, jcs, db, k);
  }

  lemma NextJoinRuns(parts: seq<Plan>, jcs: seq<seq<Cond>>, store: map<string, Table>, nulls: seq<bool>,
                     pulls: seq<bool>, k: nat, n: nat)
    requires 2 <= n == k + 1 < |parts| == |jcs| && StoreOk(store) && AllPartsRun(parts, store, nulls, pulls)
    requires Runnable(LeftDeep(parts, jcs, n)) && TreeOutcome(parts, jcs, store, nulls, pulls, k)
    ensures TreeOutcome(parts, jcs, store, nulls, pulls, n)
  {
    var left := LeftDeep(parts, jcs, k);
    assert LeftDeep(parts, jcs, n) == Join(left, parts[n], jcs[n]);
    assert PartRuns(parts[n], store, nulls[n], pulls[n]);
    NoNullNext(parts, jcs, DbOf(store), nulls, pulls, k, n);
    MoreRuns(left, parts[n], jcs[n], store, nulls[n], pulls[n]);
  }

  /** A join of joined parts and another one. */
  lemma MoreRuns(left: Plan, right: Plan, cs: seq<Cond>, store: map<string, Table>, n1: bool, p1: bool)
    requires StoreOk(store) && PartRuns(right, store, n1, p1) && Runnable(Join(left, right, cs))
    requires Runs(left, store).Some? ==> !Runs(left, store).value.null_
    ensures var tree, rows := Join(left, right, cs), Denote(left, DbOf(store));
      && (Runs(left, store).Some? ==> (Runs(tree, store).Some?
            <==> Denote(tree, DbOf(store)).Some? && !(n1 && rows.Some? && rows.value != [])))
      && (Runs(left, store) == None ==> Runs(tree, store) == None)
      && (Denote(left, DbOf(store)) == None ==> Denote(tree, DbOf(store)) == None)
      && (Runs(tree, store).Some? ==> !Runs(tree, store).value.null_)
  {
    if Runs(left, store).Some? { RunsDenote(left, store); }
  }

  // ----- the store as a database -----

  function SchemaIn(store: map<string, Table>): Schema {
    map tab | tab in store :: set c | c in store[tab].cols
  }

  lemma StoreDbOk(store: map<string, Table>)
    requires StoreOk(store)
    ensures DbOk(DbOf(store), SchemaIn(store))
  {
    var db: Db, schema: Schema := DbOf(store), SchemaIn(store);
    forall tab, c: TabCol | tab in schema && c in schema[tab] ensures c.tab == tab {
      assert TableFits(store[tab], tab);
    }
    forall tab: string, i: int | tab in db && 0 <= i < |db[tab]| ensures db[tab][i].Keys == schema[tab] {
      assert TableFits(store[tab], tab);
    }
  }

  // ----- a query without explicit joins -----

  /** A table's scan never hands out a null: where it has a filter above it, the filter has nothing left to do. */
  lemma ScanPartRuns(tab: string, cs: seq<Cond>, indexExist: bool, store: map<string, Table>)
    requires StoreOk(store) && tab in store
    ensures var part := Planner.PartFor(tab, cs, indexExist);
      PartRuns(part, store, false, Runs(part, store).Some? ==> Pulls(Runs(part, store).value))
  {
    var part, scan := Planner.PartFor(tab, cs, indexExist), Scan(tab, cs);
    var cols, rows := store[tab].cols, store[tab].rows;
    assert TableFits(store[tab], tab);
    FilterRunYields(cols, rows, cs);
    if Runs(scan, store).Some? {
      var kept := Kept(cols, rows, cs);
      KeptYields(cols, rows, cs);
      KeptEvaluate(ToTuples(cols, rows), cs);
      KeptTwice(cols, rows, cs);
      FilterRunYields(cols, kept, cs);
    }
  }

  lemma {:induction false} KeptTwice(cols: seq<TabCol>, rows: seq<S.Row>, cs: seq<Cond>)
    requires J.RowsFit(rows, |cols|)
    ensures Kept(cols, Kept(cols, rows, cs), cs) == Kept(cols, rows, cs)
  {
    if rows != [] {
      var rest := Kept(cols, rows[1..], cs);
      KeptTwice(cols, rows[1..], cs);
      if AllPass(cs, ToTuple(cols, rows[0])) {
        assert Kept(cols, rows, cs) == [rows[0]] + rest && ([rows[0]] + rest)[1..] == rest;
      } else {
        assert Kept(cols, rows, cs) == rest;
      }
    }
  }

  /** What the scans start from. */
  ghost function ScanPulls(parts: seq<Plan>, store: map<string, Table>): (r: seq<bool>)
    requires StoreOk(store)
    ensures |r| == |parts|
    ensures forall i | 0 <= i < |r| :: r[i] == (Runs(parts[i], store).Some? ==> Pulls(Runs(parts[i], store).value))
  {
    if parts == [] then []
    else [Runs(parts[0], store).Some? ==> Pulls(Runs(parts[0], store).value)] + ScanPulls(parts[1..], store)
  }

  function NoNulls(n: nat): (r: seq<bool>)
    ensures |r| == n && forall i | 0 <= i < n :: !r[i]
  {
    if n == 0 then [] else NoNulls(n - 1) + [false]
  }

  lemma OneRelTreeOk(tables: seq<string>, conds: seq<Cond>, indexes: map<string, seq<seq<string>>>,
                     store: map<string, Table>, parts: seq<Plan>, jcs: seq<seq<Cond>>)
    requires StoreOk(store) && TablesOk(tables, DbOf(store))
    requires parts == Planner.Parts(conds, tables, indexes, |tables|) && jcs == Planner.Joins(conds, tables, |tables|)
    ensures AllPartsRun(parts, store, NoNulls(|parts|), ScanPulls(parts, store)) && AllSimple(parts)
    ensures PartsOn(parts, tables) && ColumnJoins(jcs)
  {
    Planner.PartTables(conds, tables, indexes);
    forall i | 0 <= i < |parts| ensures PartRuns(parts[i], store, NoNulls(|parts|)[i], ScanPulls(parts, store)[i]) {
      var single := Planner.SingleAt(conds, tables, i);
      ScanPartRuns(tables[i], single, Planner.IndexExists(single, tables[i], indexes), store);
    }
    forall i | 0 < i < |jcs| ensures AllColRefs(jcs[i]) {
      forall k | 0 <= k < |jcs[i]| ensures jcs[i][k].rhs.ColRef? {
        TakenHas(Planner.AfterJoins(conds, tables, i - 1),
                 Planner.ForJoin(tables[i], Planner.FirstTables(tables, i)), jcs[i][k]);
      }
    }
  }

  /** The plan of a query without explicit joins runs to its end, and never to a null, exactly when no row of the first
      table gets as far as a comparison of two columns of another table, and then it gives the answer. The store has
      what the scans deliver, so an index scan that throws by itself is not meant here but in IndexedQueries. */
  lemma OneRelRuns(tables: seq<string>, conds: seq<Cond>, indexes: map<string, seq<seq<string>>>,
                   store: map<string, Table>)
    requires StoreOk(store) && TablesOk(tables, DbOf(store)) && tables != [] && CondsOk(conds, tables, SchemaIn(store))
    ensures var plan, db := Planner.OneRelPlan(tables, conds, indexes), DbOf(store);
      && (Runs(plan, store).Some? <==> FirstTableScans(conds, tables, db))
      && (Runs(plan, store).Some? ==> !Runs(plan, store).value.null_)
      && (Runs(plan, store).Some? ==>
            ToTuples(OutCols(plan, store), Runs(plan, store).value.rows) == Keep(Product(tables, |tables|, db), conds))
  {
    var plan, db, n := Planner.OneRelPlan(tables, conds, indexes), DbOf(store), |tables|;
    var parts, jcs := Planner.Parts(conds, tables, indexes, n), Planner.Joins(conds, tables, n);
    StoreDbOk(store);
    OneRelDenotes(tables, conds, indexes, db, SchemaIn(store));
    OneRelTreeOk(tables, conds, indexes, store, parts, jcs);
    assert plan == LeftDeep(parts, jcs, n - 1) by { PlanIsTree(tables, conds, indexes, SchemaIn(store)); }
    TreeRunnable(parts, jcs, tables, n - 1);
    if n > 1 {
      TreeRuns(parts, jcs, store, NoNulls(n), ScanPulls(parts, store), n - 1);
    } else {
      assert PartRuns(parts[0], store, NoNulls(n)[0], ScanPulls(parts, store)[0]);
    }
    if Runs(plan, store).Some? { RunsDenote(plan, store); }
  }

  // ----- a query with explicit joins -----

  /** Table i has rows, and none passes the conditions pushed to it: its filter will give a null. */
  predicate LosesAll(q: Query, db: Db, i: nat)
    requires i < |q.tables| && q.tables[i] in db
  {
    db[q.tables[i]] != [] && Keep(db[q.tables[i]], Planner.SingleAt(q.conds, q.tables, i)) == []
  }

  lemma {:induction false} KeptNothing(cols: seq<TabCol>, rows: seq<S.Row>)
    requires J.RowsFit(rows, |cols|)
    ensures Kept(cols, rows, []) == rows && AllEvaluate(ToTuples(cols, rows), [])
  {
    if rows != [] { KeptNothing(cols, rows[1..]); }
  }

  /** How a table's scan runs under its filter. */
  lemma FilteredRuns(tab: string, single: seq<Cond>, store: map<string, Table>)
    requires StoreOk(store) && tab in store
    ensures var rows := DbOf(store)[tab];
      PartRuns(if single != [] then Filter(Scan(tab, []), single) else Scan(tab, []), store,
               rows != [] && Keep(rows, single) == [], rows != [])
  {
    var cols, rows := store[tab].cols, store[tab].rows;
    assert TableFits(store[tab], tab);
    KeptNothing(cols, rows);
    assert Runs(Scan(tab, []), store) == Some(Output(rows, false));
    KeepNone(ToTuples(cols, rows));
    FilterRunYields(cols, rows, single);
    KeptYields(cols, rows, single);
  }

  lemma ProjectionRuns(part: Plan, keep: set<TabCol>, store: map<string, Table>, null_: bool, pulls: bool)
    requires StoreOk(store) && PartRuns(part, store, null_, pulls)
    ensures PartRuns(Projection(part, keep), store, null_, pulls)
  {
  }

  /** How the part of a table runs. */
  lemma JoinPartRuns(q: Query, store: map<string, Table>, i: nat)
    requires StoreOk(store) && i < |q.tables| && q.tables[i] in store
    ensures PartRuns(JoinPartAt(q, i), store, LosesAll(q, DbOf(store), i), DbOf(store)[q.tables[i]] != [])
  {
    var tab, single, db := q.tables[i], Planner.SingleAt(q.conds, q.tables, i), DbOf(store);
    var part := if single != [] then Filter(Scan(tab, []), single) else Scan(tab, []);
    FilteredRuns(tab, single, store);
    ProjectionRuns(part, TableProjection(q, tab), store, LosesAll(q, db, i), db[tab] != []);
  }

  /** The part at place i of the join order gives the join above it a null. */
  predicate NullAt(q: Query, order: seq<nat>, db: Db, i: nat)
    requires TablesOk(q.tables, db) && IsOrder(order, |q.tables|) && 1 < |order| && i < |order|
  {
    LosesAll(q, db, order[i]) &&
      if i < 2 then db[q.tables[order[1 - i]]] != []
      else
        Yields(OrderedParts(q, order), OrderedOns(q, order), db, i - 1)
  }

  /** Some join of the plan gets a null. */
  predicate MeetsNull(q: Query, order: seq<nat>, db: Db)
    requires TablesOk(q.tables, db) && IsOrder(order, |q.tables|)
  {
    exists i :: 1 < |order| && 0 <= i < |order| && NullAt(q, order, db, i)
  }

  function JoinNulls(q: Query, order: seq<nat>, db: Db, n: nat): (r: seq<bool>)
    requires TablesOk(q.tables, db) && IsOrder(order, |q.tables|) && n <= |order|
    ensures |r| == n && forall i | 0 <= i < n :: r[i] == LosesAll(q, db, order[i])
  {
    if n == 0 then [] else JoinNulls(q, order, db, n - 1) + [LosesAll(q, db, order[n - 1])]
  }

  function JoinPulls(q: Query, order: seq<nat>, db: Db, n: nat): (r: seq<bool>)
    requires TablesOk(q.tables, db) && IsOrder(order, |q.tables|) && n <= |order|
    ensures |r| == n && forall i | 0 <= i < n :: r[i] == (db[q.tables[order[i]]] != [])
  {
    if n == 0 then [] else JoinPulls(q, order, db, n - 1) + [db[q.tables[order[n - 1]]] != []]
  }

  lemma JoinPartsRun(q: Query, order: seq<nat>, store: map<string, Table>, parts: seq<Plan>)
    requires StoreOk(store) && TablesOk(q.tables, DbOf(store)) && IsOrder(order, |q.tables|)
    requires parts == OrderedParts(q, order)
    ensures AllPartsRun(parts, store, JoinNulls(q, order, DbOf(store), |order|),
                        JoinPulls(q, order, DbOf(store), |order|))
    ensures AllSimple(parts)
  {
    var db := DbOf(store);
    forall i | 0 <= i < |parts|
      ensures PartRuns(parts[i], store, JoinNulls(q, order, db, |order|)[i], JoinPulls(q, order, db, |order|)[i])
    {
      OrderedPartAt(q, order, i);
      JoinPartRuns(q, store, order[i]);
    }
  }

  lemma OnsJoinColumns(on: seq<Cond>, tables: seq<string>, n: nat)
    requires n <= |tables|
    ensures ColumnJoins(Ons(on, tables, n))
  {
    var jcs := Ons(on, tables, n);
    forall i | 0 < i < |jcs| ensures AllColRefs(jcs[i]) {
      OnsAt(on, tables, n, i);
      forall k | 0 <= k < |jcs[i]| ensures jcs[i][k].rhs.ColRef? {
        TakenHas(on, Planner.ForJoin(tables[i], Planner.FirstTables(tables, i)), jcs[i][k]);
      }
    }
  }

  lemma JoinTreeOk(q: Query, order: seq<nat>, db: Db, tables: seq<string>, parts: seq<Plan>, m: nat)
    requires TablesOk(q.tables, db) && IsOrder(order, |q.tables|) && |q.tables| == m + 1
    requires tables == Permuted(q.tables, order, |q.tables|) && parts == OrderedParts(q, order)
    requires AllSimple(parts)
    ensures Runnable(LeftDeep(parts, Ons(q.on, tables, m + 1), m))
  {
    PermutedTables(q.tables, order);
    JoinPartTables(q, order);
    OnsJoinColumns(q.on, tables, m + 1);
    TreeRunnable(parts, Ons(q.on, tables, m + 1), tables, m);
  }

  lemma MeetsNullSame(q: Query, order: seq<nat>, db: Db, parts: seq<Plan>, ons: seq<seq<Cond>>, m: nat)
    requires TablesOk(q.tables, db) && IsOrder(order, |q.tables|) && |q.tables| == m + 1 > 1
    requires parts == OrderedParts(q, order)
    requires ons == OrderedOns(q, order)
    ensures MeetsNull(q, order, db)
       <==> !NoNullMet(parts, ons, db, JoinNulls(q, order, db, m + 1), JoinPulls(q, order, db, m + 1), m)
  {
    var nulls, pulls := JoinNulls(q, order, db, m + 1), JoinPulls(q, order, db, m + 1);
    forall i | 0 <= i <= m ensures NullMet(parts, ons, db, nulls, pulls, i) <==> NullAt(q, order, db, i) {
      assert nulls[i] == LosesAll(q, db, order[i]);
    }
    if MeetsNull(q, order, db) {
      var i :| 0 <= i < |order| && NullAt(q, order, db, i);
      assert NullMet(parts, ons, db, nulls, pulls, i);
    }
    if !NoNullMet(parts, ons, db, nulls, pulls, m) {
      var i :| 0 <= i <= m && NullMet(parts, ons, db, nulls, pulls, i);
      assert NullAt(q, order, db, i);
    }
  }

  /** The pieces of the plan. */
  lemma JoinPieces(q: Query, order: seq<nat>, store: map<string, Table>, m: nat)
    returns (parts: seq<Plan>, ons: seq<seq<Cond>>, nulls: seq<bool>, pulls: seq<bool>)
    requires StoreOk(store) && TablesOk(q.tables, DbOf(store)) && IsOrder(order, |q.tables|) && |q.tables| == m + 1
    ensures |parts| == |ons| == |nulls| == |pulls| == m + 1 && AllPartsRun(parts, store, nulls, pulls)
    ensures JoinPlanFor(q, order) == LeftDeep(parts, ons, m) && Runnable(LeftDeep(parts, ons, m))
    ensures MeetsNull(q, order, DbOf(store)) <==> m > 0 && !NoNullMet(parts, ons, DbOf(store), nulls, pulls, m)
  {
    var db, tables := DbOf(store), Permuted(q.tables, order, m + 1);
    parts, ons := OrderedParts(q, order), Ons(q.on, tables, m + 1);
    nulls, pulls := JoinNulls(q, order, db, m + 1), JoinPulls(q, order, db, m + 1);
    JoinPartsRun(q, order, store, parts);
    JoinTreeOk(q, order, db, tables, parts, m);
    PlanTree(q, order, tables, m);
    if m > 0 { MeetsNullSame(q, order, db, parts, ons, m); }
  }

  /** When the plan of a query with explicit joins runs to its end. */
  lemma JoinPlanEnds(q: Query, order: seq<nat>, store: map<string, Table>, m: nat)
    requires StoreOk(store) && TablesOk(q.tables, DbOf(store)) && IsOrder(order, |q.tables|) && |q.tables| == m + 1
    ensures var plan, db := JoinPlanFor(q, order), DbOf(store);
      && Runnable(plan)
      && (Runs(plan, store).Some? <==> Denote(plan, db).Some? && !MeetsNull(q, order, db))
  {
    var parts, ons, nulls, pulls := JoinPieces(q, order, store, m);
    if m > 0 {
      TreeRuns(parts, ons, store, nulls, pulls, m);
    } else {
      assert PartRuns(parts[0], store, nulls[0], pulls[0]);
    }
  }

  /** The plan of a query with explicit joins, whatever the join order: a run that comes to its end gives, on the
      selected columns, the rows of the product filtered by the conditions that take effect, each as often. It
      comes to its end exactly when nothing is thrown and no join gets a null from a table that loses all its rows
      to its filter. */
  lemma JoinPlanRuns(q: Query, order: seq<nat>, store: map<string, Table>, sel: set<TabCol>)
    requires StoreOk(store) && TablesOk(q.tables, DbOf(store)) && QueryOk(q, SchemaIn(store))
    requires IsOrder(order, |q.tables|)
    requires q.selectAll || sel <= q.cols
    ensures var plan, db := JoinPlanFor(q, order), DbOf(store);
      && (Runs(plan, store).Some?
          <==> (FirstTableScans(q.conds, q.tables, db) || FirstSkipped(q, order, db)) && !MeetsNull(q, order, db))
      && (Runs(plan, store).Some? ==>
            multiset(RestrictAll(ToTuples(OutCols(plan, store), Runs(plan, store).value.rows), sel))
            == multiset(RestrictAll(Keep(Product(q.tables, |q.tables|, db), InEffect(q)), sel)))
  {
    StoreDbOk(store);
    JoinPlanDenotes(q, order, DbOf(store), SchemaIn(store), sel);
    JoinPlanEnds(q, order, store, |q.tables| - 1);
    if Runs(JoinPlanFor(q, order), store).Some? { RunsDenote(JoinPlanFor(q, order), store); }
  }

  // ----- a null means that there is no answer -----

  /** A part without rows leaves the tree without rows, or throwing. */
  lemma {:induction false} LosingPart(parts: seq<Plan>, jcs: seq<seq<Cond>>, db: Db, i: nat, n: nat)
    requires i <= n < |parts| == |jcs| && (Denote(parts[i], db).Some? ==> Denote(parts[i], db).value == [])
    ensures !Yields(parts, jcs, db, n)
  {
    if i < n {
      LosingPart(parts, jcs, db, i, n - 1);
    } else if n > 0 && Denote(LeftDeep(parts, jcs, n - 1), db).Some? {
      JoinNothing(Denote(LeftDeep(parts, jcs, n - 1), db).value, jcs[n]);
    }
  }

  lemma LosingJoinPart(q: Query, store: map<string, Table>, i: nat)
    requires StoreOk(store) && i < |q.tables| && q.tables[i] in store && LosesAll(q, DbOf(store), i)
    ensures Denote(JoinPartAt(q, i), DbOf(store)).Some? ==> Denote(JoinPartAt(q, i), DbOf(store)).value == []
  {
    JoinPartRuns(q, store, i);
    if Runs(JoinPartAt(q, i), store).Some? { RunsDenote(JoinPartAt(q, i), store); }
  }

  lemma NullNoRows(q: Query, order: seq<nat>, store: map<string, Table>)
    requires StoreOk(store) && TablesOk(q.tables, DbOf(store)) && IsOrder(order, |q.tables|) && q.tables != []
    requires MeetsNull(q, order, DbOf(store)) && Denote(JoinPlanFor(q, order), DbOf(store)).Some?
    ensures Denote(JoinPlanFor(q, order), DbOf(store)).value == []
  {
    var db, n := DbOf(store), |q.tables|;
    var tables := Permuted(q.tables, order, n);
    var parts, ons := OrderedParts(q, order), Ons(q.on, tables, n);
    var i :| 0 <= i < |order| && NullAt(q, order, db, i);
    LosingJoinPart(q, store, order[i]);
    OrderedPartAt(q, order, i);
    LosingPart(parts, ons, db, i, n - 1);
    PlanTree(q, order, tables, n - 1);
  }

  /** If the query has an answer at all, then the plan runs to its end unless it throws: only a query without an answer
      can get into a null. */
  lemma AnswerRuns(q: Query, order: seq<nat>, store: map<string, Table>)
    requires StoreOk(store) && TablesOk(q.tables, DbOf(store)) && QueryOk(q, SchemaIn(store))
    requires IsOrder(order, |q.tables|)
    requires Keep(Product(q.tables, |q.tables|, DbOf(store)), InEffect(q)) != []
    ensures Runs(JoinPlanFor(q, order), store).Some? <==> FirstTableScans(q.conds, q.tables, DbOf(store))
  {
    var db, plan := DbOf(store), JoinPlanFor(q, order);
    var answer := Keep(Product(q.tables, |q.tables|, db), InEffect(q));
    StoreDbOk(store);
    if FirstSkipped(q, order, db) {
      var p := PlaceOf(order, |q.tables|, 0);
      NoAnswerIfSkipped(q, order, db, SchemaIn(store), p);
      assert false;
    }
    JoinPlanRuns(q, order, store, {});
    if FirstTableScans(q.conds, q.tables, db) && MeetsNull(q, order, db) {
      JoinPlanDenotes(q, order, db, SchemaIn(store), {});
      NullNoRows(q, order, store);
      SameCount([], RestrictAll(answer, {}));
      RestrictedCount(answer, {});
      assert false;
    }
  }

  lemma SameCount(a: seq<Tuple>, b: seq<Tuple>)
    requires multiset(a) == multiset(b)
    ensures |a| == |b|
  {
    assert |multiset(a)| == |a| && |multiset(b)| == |b|;
  }

  /** In terms of the tables: parts join to a row just when a row of the product of their tables passes the conditions
      due there. */
  lemma PrefixYields(q: Query, order: seq<nat>, db: Db, schema: Schema, tables: seq<string>, n: nat)
    requires DbOk(db, schema) && TablesOk(q.tables, db) && QueryOk(q, schema) && IsOrder(order, |q.tables|)
    requires SameTableFirst(q.conds, q.tables) && tables == Permuted(q.tables, order, |q.tables|)
    requires TablesOk(tables, db)
    requires n < |tables|
    ensures var singles, ons := OrderedSingles(q, order), OrderedOns(q, order);
      Yields(OrderedParts(q, order), ons, db, n) <==> RowsDue(tables, singles, ons, db, n) != []
  {
    var singles, ons, kept := OrderedSingles(q, order), OrderedOns(q, order), KeptAll(q, schema, tables, |tables|);
    OrderedPartsOk(q, db, schema, order, tables);
    OrderedOwnConds(q, schema, order, tables);
    OrderedPushOk(q, db, schema, singles, tables);
    LeftDeepDenotes(OrderedParts(q, order), db, tables, schema, singles, ons, kept, n);
    RestrictedCount(RowsDue(tables, singles, ons, db, n), Columns(kept, n));
  }

  /** A filter that lets nothing through, below a join: the query A join B on A.x = B.x where B.x = 3 has no answer, and
      its plan does not run to its end. */
  lemma NullBelowJoin()
    ensures var ax, bx := TabCol("A", "x"), TabCol("B", "x");
      var store := map["A" := Table([ax], [[1]]), "B" := Table([bx], [[2]])];
      var q := Query(["A", "B"], [Cond(bx, S.OP_EQ, Value(3))], [Cond(ax, S.OP_EQ, ColRef(bx))], true, {});
      && StoreOk(store) && TablesOk(q.tables, DbOf(store)) && QueryOk(q, SchemaIn(store)) && IsOrder([0, 1], 2)
      && Denote(JoinPlanFor(q, [0, 1]), DbOf(store)) == Some([]) && Runs(JoinPlanFor(q, [0, 1]), store) == None
  {
    var ax, bx := TabCol("A", "x"), TabCol("B", "x");
    var store := map["A" := Table([ax], [[1]]), "B" := Table([bx], [[2]])];
    var c := Cond(bx, S.OP_EQ, Value(3));
    var q := Query(["A", "B"], [c], [Cond(ax, S.OP_EQ, ColRef(bx))], true, {});
    var order: seq<nat> := [0, 1];
    assert IsOrder(order, 2) by { assert order[0] == 0 && order[1] == 1 && 0 in order && 1 in order; }
    assert TableFits(store["A"], "A") && TableFits(store["B"], "B");
    var b := ToTuple([bx], [2]);
    assert DbOf(store)["B"] == [b] && !Passes(c, b);
    assert [b][1..] == [] && Keep([b], [c]) == Keep([], [c]) by { assert !AllPass([c], b) by {
      assert !Passes([c][0], b); }
    }
    LosesOnly(q, order, store, c);
  }

  lemma OnlySingle(tables: seq<string>, c: Cond)
    requires |tables| == 2 && tables[0] != tables[1] && c.rhs.Value? && c.lhs.tab == tables[1] && c.lhs.tab != ""
    ensures Planner.SingleAt([c], tables, 1) == [c]
  {
    assert Planner.Leave([c], Planner.ForTable(tables[0]), 1)
        == Planner.Leave([c], Planner.ForTable(tables[0]), 0) + [c];
    assert Planner.AfterTables([c], tables, 1) == [c];
    assert Planner.Take([c], Planner.ForTable(tables[1]), 1) == Planner.Take([c], Planner.ForTable(tables[1]), 0) + [c];
  }

  /** The second of two tables loses all its rows to one comparison with a literal. */
  lemma LosesOnly(q: Query, order: seq<nat>, store: map<string, Table>, c: Cond)
    requires StoreOk(store) && TablesOk(q.tables, DbOf(store)) && QueryOk(q, SchemaIn(store)) && order == [0, 1]
    requires |q.tables| == 2 && q.conds == [c] && c.rhs.Value? && c.lhs.tab == q.tables[1] && IsOrder(order, 2)
    requires var db := DbOf(store); db[q.tables[0]] != [] && db[q.tables[1]] != [] && Keep(db[q.tables[1]], [c]) == []
    ensures Denote(JoinPlanFor(q, order), DbOf(store)) == Some([]) && Runs(JoinPlanFor(q, order), store) == None
  {
    var db := DbOf(store);
    assert order[1] == 1 && order[0] == 0;
    assert Differ(q.tables, 0, 1) && CondOk(q.conds[0], q.tables, SchemaIn(store));
    OnlySingle(q.tables, c);
    assert NullAt(q, order, db, 1);
    StoreDbOk(store);
    OwnConditionsScan(q.conds, q.tables, db, SchemaIn(store));
    JoinPlanDenotes(q, order, db, SchemaIn(store), {});
    JoinPlanRuns(q, order, store, {});
    NullNoRows(q, order, store);
  }
}
