// What the plan of a query with explicit joins yields: the product of its tables, filtered by some of its conditions.
module JoinMeaning {
  import opened IxDefs
  import opened PlanDefs
  import opened LeftDeepPlans
  import opened FirstTable
  import opened PlanOrder
  import opened Planner
  import opened PlanMeaning
  import opened JoinOrder
  import opened JoinPlan

  // ----- the part of the first table -----

  /** What the part of the first table yields, whatever its conditions. */
  lemma FirstJoinPart(q: Query, db: Db)
    requires q.tables != [] && q.tables[0] in db
    ensures Denote(JoinPartAt(q, 0), db).Some? <==> FirstTableScans(q.conds, q.tables, db)
    ensures FirstTableScans(q.conds, q.tables, db) && Keep(db[q.tables[0]], SingleAt(q.conds, q.tables, 0)) == [] ==>
      Denote(JoinPartAt(q, 0), db) == Some([])
  {
    var rows, single := db[q.tables[0]], SingleAt(q.conds, q.tables, 0);
    KeepNone(rows);
    FilterSome(rows, single);
    var scan := Scan(q.tables[0], []);
    assert Denote(scan, db) == Some(rows) && Denote(Filter(scan, single), db) == FilterRows(rows, single);
  }

  /** In the product nothing passes the conditions in effect when every row of the first table fails one
      popped for it. */
  lemma NothingInEffect(q: Query, db: Db, schema: Schema)
    requires DbOk(db, schema) && TablesOk(q.tables, db) && q.tables != []
    requires AllFail(db[q.tables[0]], SingleAt(q.conds, q.tables, 0))
    ensures Keep(Product(q.tables, |q.tables|, db), InEffect(q)) == []
  {
    var rows, single := db[q.tables[0]], SingleAt(q.conds, q.tables, 0);
    forall r, j | 0 <= r < |rows| && 0 <= j < |single| && Has(rows[r], single[j]) ensures single[j] in InEffect(q) {
      TakenHas(q.conds, ForTable(q.tables[0]), single[j]);
      assert rows[r].Keys == schema[q.tables[0]];
      InEffectHas(q, single[j]);
    }
    FailIn(rows, single, InEffect(q));
    ProductExtends(q.tables, db, schema, |q.tables|);
    ExtendedFail(Product(q.tables, |q.tables|, db), rows, InEffect(q));
  }

  /** Only the part of the first table can throw. */
  lemma OrderedPartsYield(q: Query, order: seq<nat>, parts: seq<Plan>, db: Db, schema: Schema)
    requires DbOk(db, schema) && TablesOk(q.tables, db) && QueryOk(q, schema) && IsOrder(order, |q.tables|)
    requires parts == OrderedParts(q, order) && Denote(JoinPartAt(q, 0), db).Some?
    ensures AllDenote(parts, db)
  {
    forall k | 0 <= k < |parts| ensures Denote(parts[k], db).Some? {
      OrderedPartAt(q, order, k);
      if order[k] > 0 { JoinPartDenotes(q, db, schema, order[k]); }
    }
  }

  predicate AllDenote(parts: seq<Plan>, db: Db) {
    forall k | 0 <= k < |parts| :: Denote(parts[k], db).Some?
  }

  /** A part without rows leaves the plan without rows. */
  lemma EmptyTree(q: Query, order: seq<nat>, db: Db, p: nat)
    requires IsOrder(order, |q.tables|) && p < |order|
    requires AllDenote(OrderedParts(q, order), db) && Denote(OrderedParts(q, order)[p], db) == Some([])
    ensures Denote(JoinPlanFor(q, order), db) == Some([])
  {
    var n: nat := |order| - 1;
    assert JoinPlanFor(q, order) == LeftDeep(OrderedParts(q, order), OrderedOns(q, order), n);
    EmptyPart(OrderedParts(q, order), OrderedOns(q, order), db, p, n);
  }

  /** The parts, when there is a comparison of two columns of a later table in WHERE, which no row of the first table
      reaches. */
  lemma MisplacedParts(q: Query, order: seq<nat>, db: Db, schema: Schema, p: nat)
    requires DbOk(db, schema) && TablesOk(q.tables, db) && QueryOk(q, schema) && IsOrder(order, |q.tables|)
    requires !SameTableFirst(q.conds, q.tables) && FirstTableScans(q.conds, q.tables, db) && p < |order|
    requires order[p] == 0
    ensures AllDenote(OrderedParts(q, order), db) && Denote(OrderedParts(q, order)[p], db) == Some([])
  {
    assert Denote(JoinPartAt(q, 0), db) == Some([]) by {
      MisplacedFails(q.conds, q.tables, db, schema);
      FirstJoinPart(q, db);
    }
    OrderedPartsYield(q, order, OrderedParts(q, order), db, schema);
    OrderedPartAt(q, order, p);
  }

  /** And there is no answer. */
  lemma MisplacedNoAnswer(q: Query, db: Db, schema: Schema)
    requires DbOk(db, schema) && TablesOk(q.tables, db) && QueryOk(q, schema)
    requires !SameTableFirst(q.conds, q.tables) && FirstTableScans(q.conds, q.tables, db)
    ensures Keep(Product(q.tables, |q.tables|, db), InEffect(q)) == []
  {
    MisplacedFails(q.conds, q.tables, db, schema);
    NothingInEffect(q, db, schema);
  }

  // ----- when the first table comes later in the join order -----

  /** The parts of the first p tables of the join order join to no row. */
  predicate NothingBefore(q: Query, order: seq<nat>, db: Db, p: nat)
    requires IsOrder(order, |q.tables|) && 0 < p < |order|
  {
    Denote(LeftDeep(OrderedParts(q, order), OrderedOns(q, order), p - 1), db) == Some([])
  }

  /** The parts before that of the first table join to no row: then it is never started. */
  predicate FirstSkipped(q: Query, order: seq<nat>, db: Db)
    requires IsOrder(order, |q.tables|)
  {
    exists p :: 0 < p < |order| && order[p] == 0 && NothingBefore(q, order, db, p)
  }

  predicate SameUpTo<T(==)>(a: seq<T>, b: seq<T>, n: nat) {
    n < |a| == |b| && forall i | 0 <= i <= n :: a[i] == b[i]
  }

  lemma UpdatedAfter<T>(s: seq<T>, n: nat, x: T)
    requires n + 1 < |s|
    ensures SameUpTo(s, s[n + 1 := x], n)
  {
  }

  /** The tree up to n does not depend on what comes later. */
  lemma {:induction false} SamePrefix(parts: seq<Plan>, others: seq<Plan>, jcs: seq<seq<Cond>>, n: nat)
    requires |parts| == |jcs| && SameUpTo(parts, others, n)
    ensures LeftDeep(parts, jcs, n) == LeftDeep(others, jcs, n)
  {
    if n > 0 { SamePrefix(parts, others, jcs, n - 1); }
  }

  lemma SameBefore(parts: seq<Plan>, other: Plan, jcs: seq<seq<Cond>>, k: nat)
    requires k + 1 < |parts| == |jcs|
    ensures LeftDeep(parts[k + 1 := other], jcs, k) == LeftDeep(parts, jcs, k)
  {
    UpdatedAfter(parts, k, other);
    SamePrefix(parts, parts[k + 1 := other], jcs, k);
  }

  /** The part of the first table without its conditions. */
  function WholePart(q: Query, schema: Schema): Plan
    requires q.tables != [] && q.tables[0] in schema
  {
    Projection(Scan(q.tables[0], []), KeptOf(q, schema, q.tables[0]))
  }

  lemma NotFirst(order: seq<nat>, p: nat, k: nat)
    requires IsOrder(order, |order|) && p < |order| && k < |order| && k != p && order[p] == 0
    ensures order[k] > 0
  {
    assert if k < p then Apart(order, k, p) else Apart(order, p, k);
  }

  /** With that part instead, and nothing pushed to the first table, all parts are as they should be. */
  lemma WholePartsOk(q: Query, db: Db, schema: Schema, order: seq<nat>, tables: seq<string>, parts: seq<Plan>,
                     kept: seq<set<TabCol>>, p: nat)
    requires DbOk(db, schema) && TablesOk(q.tables, db) && QueryOk(q, schema) && IsOrder(order, |q.tables|)
    requires tables == Permuted(q.tables, order, |q.tables|) && TablesOk(tables, db) && p < |order| && order[p] == 0
    requires parts == OrderedParts(q, order)
    requires kept == KeptAll(q, schema, tables, |tables|)
    ensures PartsOk(parts[p := WholePart(q, schema)], db, tables, OrderedSingles(q, order)[p := []], kept)
  {
    var parts', singles := parts[p := WholePart(q, schema)], OrderedSingles(q, order)[p := []];
    forall k | 0 <= k < |parts'| ensures Denote(parts'[k], db) == Some(Pushed(db[tables[k]], singles[k], kept[k])) {
      if k != p {
        NotFirst(order, p, k);
        OrderedPartAt(q, order, k);
        OrderedSingleAt(q, order, k);
      }
      if k == p { KeepNone(db[tables[p]]); } else { JoinPartDenotes(q, db, schema, order[k]); }
    }
  }

  lemma WholeOwnConds(q: Query, schema: Schema, order: seq<nat>, tables: seq<string>, p: nat)
    requires QueryOk(q, schema) && IsOrder(order, |q.tables|) && tables == Permuted(q.tables, order, |q.tables|)
    requires p < |order| && order[p] == 0
    ensures OwnConds(OrderedSingles(q, order)[p := []], tables)
  {
    var singles := OrderedSingles(q, order)[p := []];
    forall i, k | 0 <= i < |singles| && 0 <= k < |singles[i]| ensures CondOf(singles[i][k], tables[i]) {
      NotFirst(order, p, i);
      OrderedSingleAt(q, order, i);
      SingleIsOf(q.conds, q.tables, schema, order[i], k);
    }
  }

  /** What is in that tree takes effect. */
  lemma WholeCounts(q: Query, order: seq<nat>, tables: seq<string>, p: nat, m: nat, c: Cond)
    requires q.tables != [] && DistinctTables(tables) && IsOrder(order, |q.tables|) && |tables| == |q.tables| == m + 1
    requires p <= m && order[p] == 0 && c in Due(OrderedSingles(q, order)[p := []], Ons(q.on, tables, |tables|), m)
    ensures c in InEffect(q)
  {
    var i := DueFrom(OrderedSingles(q, order)[p := []], Ons(q.on, tables, |tables|), m, c);
    InEffectHas(q, c);
    OnsAt(q.on, tables, |tables|, i);
    if i != p && c in OrderedSingles(q, order)[i] {
      NotFirst(order, p, i);
      OrderedSingleAt(q, order, i);
      TakenHas(AfterTables(q.conds, q.tables, order[i]), ForTable(q.tables[order[i]]), c);
      AfterTablesHas(q.conds, q.tables, order[i], c);
    } else {
      UsedCounts(q, tables, i, c);
    }
  }

  lemma {:induction false} KeepLess(rows: seq<Tuple>, cs: seq<Cond>, ds: seq<Cond>)
    requires Keep(rows, cs) == [] && forall k | 0 <= k < |cs| :: cs[k] in ds
    ensures Keep(rows, ds) == []
  {
    if rows != [] {
      var k :| 0 <= k < |cs| && !Passes(cs[k], rows[0]);
      var j :| 0 <= j < |ds| && ds[j] == cs[k];
      assert !Passes(ds[j], rows[0]);
      KeepLess(rows[1..], cs, ds);
    }
  }

  /** The conditions in a tree are among these. */
  predicate AllIn(cs: seq<Cond>, ds: seq<Cond>) {
    forall k | 0 <= k < |cs| :: cs[k] in ds
  }

  /** The plan does not throw, and yields something just when there are such rows. */
  predicate YieldsIf(plan: Plan, db: Db, rows: seq<Tuple>) {
    Denote(plan, db).Some? && (Denote(plan, db).value == [] <==> rows == [])
  }

  /** The rows of the first n + 1 tables that pass the conditions due there. */
  function RowsDue(tables: seq<string>, singles: seq<seq<Cond>>, jcs: seq<seq<Cond>>, db: Db, n: nat): seq<Tuple>
    requires n < |tables| == |singles| == |jcs| && forall i | 0 <= i < |tables| :: tables[i] in db
  {
    Keep(Product(tables, n + 1, db), Due(singles, jcs, n))
  }

  /** If the parts up to k yield nothing when joined, then nothing passes the conditions of the whole tree. */
  lemma NothingDue(parts: seq<Plan>, singles: seq<seq<Cond>>, jcs: seq<seq<Cond>>, tables: seq<string>, db: Db, k: nat,
                   m: nat, ds: seq<Cond>)
    requires k <= m && |tables| == |parts| == |singles| == |jcs| == m + 1
    requires forall i | 0 <= i < |tables| :: tables[i] in db
    requires Denote(LeftDeep(parts, jcs, k), db) == Some([]) && AllIn(Due(singles, jcs, m), ds)
    requires YieldsIf(LeftDeep(parts, jcs, m), db, RowsDue(tables, singles, jcs, db, m))
    ensures Keep(Product(tables, m + 1, db), ds) == []
  {
    EmptyBefore(parts, jcs, db, k, m);
    KeepLess(Product(tables, m + 1, db), Due(singles, jcs, m), ds);
  }

  lemma {:induction false} RestrictedCount(rows: seq<Tuple>, cols: set<TabCol>)
    ensures |RestrictAll(rows, cols)| == |rows|
  {
    if rows != [] { RestrictedCount(rows[1..], cols); }
  }

  lemma SkippedAt(q: Query, order: seq<nat>, db: Db, p: nat)
    requires IsOrder(order, |q.tables|) && p < |order| && order[p] == 0
    ensures FirstSkipped(q, order, db) <==> p > 0 && NothingBefore(q, order, db, p)
  {
    if FirstSkipped(q, order, db) {
      var j :| 0 < j < |order| && order[j] == 0 && NothingBefore(q, order, db, j);
      if j != p { NotFirst(order, p, j); }
    }
  }

  /** What the tree with the whole first table yields, up to any place. */
  lemma WholeRows(q: Query, order: seq<nat>, db: Db, schema: Schema, tables: seq<string>, parts: seq<Plan>,
                  singles: seq<seq<Cond>>, p: nat, n: nat)
    requires DbOk(db, schema) && TablesOk(q.tables, db) && QueryOk(q, schema) && IsOrder(order, |q.tables|)
    requires tables == Permuted(q.tables, order, |q.tables|) && TablesOk(tables, db) && parts == OrderedParts(q, order)
    requires p < |tables| && n < |tables| && order[p] == 0 && singles == OrderedSingles(q, order)[p := []]
    ensures var ons := Ons(q.on, tables, |tables|);
      YieldsIf(LeftDeep(parts[p := WholePart(q, schema)], ons, n), db, RowsDue(tables, singles, ons, db, n))
  {
    var ons, kept := Ons(q.on, tables, |tables|), KeptAll(q, schema, tables, |tables|);
    WholePartsOk(q, db, schema, order, tables, parts, kept, p);
    WholeOwnConds(q, schema, order, tables, p);
    OrderedPushOk(q, db, schema, singles, tables);
    LeftDeepDenotes(parts[p := WholePart(q, schema)], db, tables, schema, singles, ons, kept, n);
    RestrictedCount(RowsDue(tables, singles, ons, db, n), Columns(kept, n));
  }

  lemma WholeInEffect(q: Query, order: seq<nat>, tables: seq<string>, p: nat, m: nat)
    requires q.tables != [] && DistinctTables(tables) && IsOrder(order, |q.tables|) && |tables| == |q.tables| == m + 1
    requires p <= m && order[p] == 0
    ensures AllIn(Due(OrderedSingles(q, order)[p := []], Ons(q.on, tables, |tables|), m), InEffect(q))
  {
    var due := Due(OrderedSingles(q, order)[p := []], Ons(q.on, tables, |tables|), m);
    forall k | 0 <= k < |due| ensures due[k] in InEffect(q) { WholeCounts(q, order, tables, p, m, due[k]); }
  }

  /** In terms of the tables: the parts before that of the first table join to no row just when no row of the product of
      their tables passes the conditions due there. */
  lemma BeforeFirst(q: Query, order: seq<nat>, db: Db, schema: Schema, tables: seq<string>, parts: seq<Plan>,
                    singles: seq<seq<Cond>>, ons: seq<seq<Cond>>, k: nat)
    requires DbOk(db, schema) && TablesOk(q.tables, db) && QueryOk(q, schema) && IsOrder(order, |q.tables|)
    requires tables == Permuted(q.tables, order, |q.tables|) && TablesOk(tables, db) && parts == OrderedParts(q, order)
    requires singles == OrderedSingles(q, order) && ons == OrderedOns(q, order) && k + 1 < |tables| && order[k + 1] == 0
    ensures NothingBefore(q, order, db, k + 1) <==> RowsDue(tables, singles, ons, db, k) == []
  {
    var others, others' := parts[k + 1 := WholePart(q, schema)], singles[k + 1 := []];
    WholeRows(q, order, db, schema, tables, parts, others', k + 1, k);
    UpdatedAfter(parts, k, WholePart(q, schema));
    UpdatedAfter(singles, k, []);
    SamePrefix(parts, others, ons, k);
    SameDue(singles, others', ons, k);
  }

  lemma {:induction false} SameDue(singles: seq<seq<Cond>>, others: seq<seq<Cond>>, jcs: seq<seq<Cond>>, n: nat)
    requires |singles| == |jcs| && SameUpTo(singles, others, n)
    ensures Due(singles, jcs, n) == Due(others, jcs, n)
  {
    if n > 0 { SameDue(singles, others, jcs, n - 1); }
  }

  lemma ThrowingTree(parts: seq<Plan>, jcs: seq<seq<Cond>>, db: Db, p: nat, m: nat)
    requires p <= m < |parts| == |jcs| && Denote(parts[p], db) == None
    ensures Denote(LeftDeep(parts, jcs, m), db)
         == if p > 0 && Denote(LeftDeep(parts, jcs, p - 1), db) == Some([]) then Some([]) else None
  {
    if p > 0 && Denote(LeftDeep(parts, jcs, p - 1), db) == Some([]) {
      EmptyBefore(parts, jcs, db, p - 1, m);
    } else {
      ThrowingPart(parts, jcs, db, p, m);
    }
  }

  lemma FirstPartThrows(q: Query, order: seq<nat>, db: Db, p: nat)
    requires q.tables != [] && q.tables[0] in db && !FirstTableScans(q.conds, q.tables, db)
    requires IsOrder(order, |q.tables|) && p < |order| && order[p] == 0
    ensures Denote(OrderedParts(q, order)[p], db) == None
  {
    OrderedPartAt(q, order, p);
    FirstJoinPart(q, db);
  }

  /** The plan when the part of the first table throws once it is started. */
  lemma ThrowingJoinDenotes(q: Query, order: seq<nat>, db: Db, p: nat)
    requires IsOrder(order, |q.tables|) && p < |order| && order[p] == 0 && Denote(OrderedParts(q, order)[p], db) == None
    ensures Denote(JoinPlanFor(q, order), db) == if FirstSkipped(q, order, db) then Some([]) else None
  {
    SkippedAt(q, order, db, p);
    ThrowingTree(OrderedParts(q, order), OrderedOns(q, order), db, p, |order| - 1);
  }

  /** The tree with the whole first table. */
  lemma WholeTree(q: Query, order: seq<nat>, db: Db, schema: Schema, tables: seq<string>, k: nat, m: nat)
    returns (parts: seq<Plan>, singles: seq<seq<Cond>>, ons: seq<seq<Cond>>)
    requires DbOk(db, schema) && TablesOk(q.tables, db) && QueryOk(q, schema) && IsOrder(order, |q.tables|)
    requires |q.tables| == m + 1 && tables == Permuted(q.tables, order, |q.tables|) && TablesOk(tables, db)
    requires k < m && order[k + 1] == 0 && NothingBefore(q, order, db, k + 1)
    ensures |parts| == |singles| == |ons| == m + 1 && AllIn(Due(singles, ons, m), InEffect(q))
    ensures Denote(LeftDeep(parts, ons, k), db) == Some([])
    ensures YieldsIf(LeftDeep(parts, ons, m), db, RowsDue(tables, singles, ons, db, m))
  {
    var original, whole := OrderedParts(q, order), WholePart(q, schema);
    parts, singles, ons := original[k + 1 := whole], OrderedSingles(q, order)[k + 1 := []], OrderedOns(q, order);
    SameBefore(original, whole, ons, k);
    assert YieldsIf(LeftDeep(parts, ons, m), db, RowsDue(tables, singles, ons, db, m)) by {
      WholeRows(q, order, db, schema, tables, original, singles, k + 1, m);
    }
    assert AllIn(Due(singles, ons, m), InEffect(q)) by { WholeInEffect(q, order, tables, k + 1, m); }
  }

  /** If the part of the first table is never started, then there is no answer. */
  lemma SkippedNoAnswer(q: Query, order: seq<nat>, db: Db, schema: Schema, tables: seq<string>, k: nat, m: nat)
    requires DbOk(db, schema) && TablesOk(q.tables, db) && QueryOk(q, schema) && IsOrder(order, |q.tables|)
    requires |q.tables| == m + 1 && tables == Permuted(q.tables, order, |q.tables|) && TablesOk(tables, db)
    requires k < m && order[k + 1] == 0 && NothingBefore(q, order, db, k + 1)
    ensures Keep(Product(tables, m + 1, db), InEffect(q)) == []
  {
    var parts, singles, ons := WholeTree(q, order, db, schema, tables, k, m);
    NothingDue(parts, singles, ons, tables, db, k, m, InEffect(q));
  }

  lemma SkippedOrdered(q: Query, order: seq<nat>, db: Db, schema: Schema, tables: seq<string>, k: nat, m: nat)
    requires DbOk(db, schema) && TablesOk(q.tables, db) && QueryOk(q, schema) && IsOrder(order, |q.tables|)
    requires |q.tables| == m + 1 && tables == Permuted(q.tables, order, |q.tables|) && TablesOk(tables, db)
    requires multiset(tables) == multiset(q.tables) && k < m && order[k + 1] == 0 && NothingBefore(q, order, db, k + 1)
    ensures Keep(Product(q.tables, |q.tables|, db), InEffect(q)) == []
  {
    SkippedNoAnswer(q, order, db, schema, tables, k, m);
    NothingReordered(q, tables, db, schema, m);
  }

  lemma NoAnswerIfSkipped(q: Query, order: seq<nat>, db: Db, schema: Schema, p: nat)
    requires DbOk(db, schema) && TablesOk(q.tables, db) && QueryOk(q, schema) && IsOrder(order, |q.tables|)
    requires FirstSkipped(q, order, db) && p < |order| && order[p] == 0
    ensures Keep(Product(q.tables, |q.tables|, db), InEffect(q)) == []
  {
    var tables := Permuted(q.tables, order, |q.tables|);
    assert p > 0 && NothingBefore(q, order, db, p) by { SkippedAt(q, order, db, p); }
    assert TablesOk(tables, db) && multiset(tables) == multiset(q.tables) by { OrderedTablesOk(q.tables, order, db); }
    var k: nat, m: nat := p - 1, |q.tables| - 1;
    SkippedOrdered(q, order, db, schema, tables, k, m);
  }

  lemma OrderedTablesOk(tables: seq<string>, order: seq<nat>, db: Db)
    requires TablesOk(tables, db) && IsOrder(order, |tables|)
    ensures TablesOk(Permuted(tables, order, |tables|), db)
    ensures multiset(Permuted(tables, order, |tables|)) == multiset(tables)
  {
    PermutedTables(tables, order);
  }

  lemma NothingReordered(q: Query, tables: seq<string>, db: Db, schema: Schema, m: nat)
    requires DbOk(db, schema) && TablesOk(q.tables, db) && TablesOk(tables, db) && q.tables != []
    requires |tables| == |q.tables| && multiset(tables) == multiset(q.tables)
    requires |tables| == m + 1 && Keep(Product(tables, m + 1, db), InEffect(q)) == []
    ensures Keep(Product(q.tables, m + 1, db), InEffect(q)) == []
  {
    ProductKeep(tables, q.tables, db, schema, InEffect(q), InEffect(q));
    assert |multiset(Keep(Product(q.tables, |q.tables|, db), InEffect(q)))| == 0;
  }

  // ----- the whole plan -----

  /** The plan of any query with explicit joins, whatever the join order. It throws exactly when some row of the first
      table gets as far as a comparison of two columns of another table, and that table's part is started. Otherwise it
      yields, on the selected columns, the rows of the product in statement order filtered by the conditions that take
      effect, each as often. */
  lemma JoinPlanDenotes(q: Query, order: seq<nat>, db: Db, schema: Schema, sel: set<TabCol>)
    requires DbOk(db, schema) && TablesOk(q.tables, db) && QueryOk(q, schema) && IsOrder(order, |q.tables|)
    requires q.selectAll || sel <= q.cols
    ensures Denote(JoinPlanFor(q, order), db).Some?
         <==> FirstTableScans(q.conds, q.tables, db) || FirstSkipped(q, order, db)
    ensures Denote(JoinPlanFor(q, order), db).Some? ==>
      multiset(RestrictAll(Denote(JoinPlanFor(q, order), db).value, sel))
      == multiset(RestrictAll(Keep(Product(q.tables, |q.tables|, db), InEffect(q)), sel))
  {
    var n, tables := |q.tables|, Permuted(q.tables, order, |q.tables|);
    OrderedTablesOk(q.tables, order, db);
    if SameTableFirst(q.conds, q.tables) {
      OwnConditionsScan(q.conds, q.tables, db, schema);
      OwnJoinDenotes(q, order, db, schema, sel, tables, n - 1);
    } else if FirstTableScans(q.conds, q.tables, db) {
      var p := PlaceOf(order, |q.tables|, 0);
      MisplacedParts(q, order, db, schema, p);
      EmptyTree(q, order, db, p);
      MisplacedNoAnswer(q, db, schema);
    } else {
      var p := PlaceOf(order, |q.tables|, 0);
      FirstPartThrows(q, order, db, p);
      ThrowingJoinDenotes(q, order, db, p);
      if FirstSkipped(q, order, db) { NoAnswerIfSkipped(q, order, db, schema, p); }
    }
  }

  // ----- conditions the plan loses -----

  /** Two queries with the same conditions in effect give the same rows, each as often, wherever their other conditions
      are. */
  lemma OnlyEffectCounts(q: Query, q': Query, order: seq<nat>, order': seq<nat>, db: Db, schema: Schema,
                         sel: set<TabCol>)
    requires DbOk(db, schema) && TablesOk(q.tables, db) && q.tables == q'.tables && QueryOk(q, schema)
    requires QueryOk(q', schema)
    requires IsOrder(order, |q.tables|) && IsOrder(order', |q.tables|) && SameMembers(InEffect(q), InEffect(q'))
    requires Denote(JoinPlanFor(q, order), db).Some? && Denote(JoinPlanFor(q', order'), db).Some?
    requires (q.selectAll || sel <= q.cols) && (q'.selectAll || sel <= q'.cols)
    ensures multiset(RestrictAll(Denote(JoinPlanFor(q, order), db).value, sel))
         == multiset(RestrictAll(Denote(JoinPlanFor(q', order'), db).value, sel))
  {
    var all := Product(q.tables, |q.tables|, db);
    JoinPlanDenotes(q, order, db, schema, sel);
    JoinPlanDenotes(q', order', db, schema, sel);
    KeepSameMembers(all, all, InEffect(q), InEffect(q'));
    RestrictReordered(Keep(all, InEffect(q)), Keep(all, InEffect(q')), sel);
  }

  lemma Inserted(a: seq<Cond>, c: Cond, b: seq<Cond>, d: Cond)
    ensures d in a + [c] + b <==> d in a + b || d == c
  {
    assert (a + [c] + b)[|a|] == c;
  }

  /** Another query with the same conditions pushed to the tables and at the joins, and maybe other columns. */
  lemma NothingSame(q: Query, q': Query, order: seq<nat>, db: Db, schema: Schema, tables: seq<string>, k: nat)
    requires DbOk(db, schema) && TablesOk(q.tables, db) && QueryOk(q, schema) && QueryOk(q', schema)
    requires q'.tables == q.tables
    requires IsOrder(order, |q.tables|) && k + 1 < |order| && order[k + 1] == 0
    requires tables == Permuted(q.tables, order, |q.tables|) && TablesOk(tables, db)
    requires OrderedSingles(q', order) == OrderedSingles(q, order) && OrderedOns(q', order) == OrderedOns(q, order)
    ensures NothingBefore(q', order, db, k + 1) <==> NothingBefore(q, order, db, k + 1)
  {
    var singles, ons := OrderedSingles(q, order), OrderedOns(q, order);
    BeforeFirst(q, order, db, schema, tables, OrderedParts(q, order), singles, ons, k);
    BeforeFirst(q', order, db, schema, tables, OrderedParts(q', order), singles, ons, k);
  }

  lemma SkippedWithout(q: Query, a: seq<Cond>, c: Cond, b: seq<Cond>, order: seq<nat>, db: Db, schema: Schema, p: nat)
    requires DbOk(db, schema) && TablesOk(q.tables, db) && IsOrder(order, |q.tables|) && q.on == a + b && !OnCounts(c)
    requires QueryOk(q, schema) && QueryOk(q.(on := a + [c] + b), schema) && p < |order| && order[p] == 0
    ensures FirstSkipped(q.(on := a + [c] + b), order, db) <==> FirstSkipped(q, order, db)
  {
    var q', tables := q.(on := a + [c] + b), Permuted(q.tables, order, |q.tables|);
    SkippedAt(q, order, db, p);
    SkippedAt(q', order, db, p);
    if p > 0 {
      OrderedTablesOk(q.tables, order, db);
      assert OrderedOns(q', order) == OrderedOns(q, order) by { OnsWithout(a, c, b, tables, |tables|); }
      SinglesWithout(q, a + [c] + b, order, |order|);
      NothingSame(q, q', order, db, schema, tables, p - 1);
    }
  }

  lemma {:induction false} SinglesWithout(q: Query, on: seq<Cond>, order: seq<nat>, n: nat)
    requires IsOrder(order, |q.tables|) && n <= |order|
    ensures SinglesIn(q.(on := on), order, n) == SinglesIn(q, order, n)
  {
    if n > 0 { SinglesWithout(q, on, order, n - 1); }
  }

  /** So an ON condition that compares with a literal, or two columns of one table, has no effect on the rows. */
  lemma OnConditionLost(q: Query, a: seq<Cond>, c: Cond, b: seq<Cond>, order: seq<nat>, db: Db, schema: Schema,
                        sel: set<TabCol>)
    requires DbOk(db, schema) && TablesOk(q.tables, db) && IsOrder(order, |q.tables|) && q.on == a + b && !OnCounts(c)
    requires QueryOk(q, schema) && CondOk(c, q.tables, schema) && (q.selectAll || sel <= q.cols)
    ensures var q' := q.(on := a + [c] + b);
      && (Denote(JoinPlanFor(q', order), db).Some? <==> Denote(JoinPlanFor(q, order), db).Some?)
      && (Denote(JoinPlanFor(q, order), db).Some? ==>
            multiset(RestrictAll(Denote(JoinPlanFor(q', order), db).value, sel))
            == multiset(RestrictAll(Denote(JoinPlanFor(q, order), db).value, sel)))
  {
    var q' := q.(on := a + [c] + b);
    forall k | 0 <= k < |q'.on| ensures CondOk(q'.on[k], q.tables, schema) {
      Inserted(a, c, b, q'.on[k]);
      if q'.on[k] != c { var j :| 0 <= j < |q.on| && q.on[j] == q'.on[k]; }
    }
    JoinPlanDenotes(q, order, db, schema, sel);
    JoinPlanDenotes(q', order, db, schema, sel);
    var p := PlaceOf(order, |q.tables|, 0);
    SkippedWithout(q, a, c, b, order, db, schema, p);
    if Denote(JoinPlanFor(q, order), db).Some? {
      forall d ensures d in InEffect(q') <==> d in InEffect(q) {
        InEffectHas(q', d);
        InEffectHas(q, d);
        Inserted(a, c, b, d);
      }
      OnlyEffectCounts(q', q, order, order, db, schema, sel);
    }
  }

  lemma {:induction false} TakePrefix(a: seq<Cond>, b: seq<Cond>, p: Pick, n: nat)
    requires n <= |a|
    ensures Take(a + b, p, n) == Take(a, p, n) && Leave(a + b, p, n) == Leave(a, p, n)
  {
    if n > 0 { TakePrefix(a, b, p, n - 1); }
  }

  lemma {:induction false} TakeConcat(a: seq<Cond>, b: seq<Cond>, p: Pick, n: nat)
    requires n <= |b|
    ensures Take(a + b, p, |a| + n) == Taken(a, p) + Take(b, p, n)
    ensures Leave(a + b, p, |a| + n) == Rest(a, p) + Leave(b, p, n)
  {
    if n == 0 {
      TakePrefix(a, b, p, |a|);
    } else {
      TakeConcat(a, b, p, n - 1);
      assert (a + b)[|a| + n - 1] == b[n - 1];
    }
  }

  lemma TakenConcat(a: seq<Cond>, b: seq<Cond>, p: Pick)
    ensures Taken(a + b, p) == Taken(a, p) + Taken(b, p) && Rest(a + b, p) == Rest(a, p) + Rest(b, p)
  {
    TakeConcat(a, b, p, |b|);
  }

  lemma TakenOne(c: Cond, p: Pick)
    requires !Picks(p, c)
    ensures Taken([c], p) == [] && Rest([c], p) == [c]
  {
    assert Take([c], p, 1) == Take([c], p, 0) && Leave([c], p, 1) == Leave([c], p, 0) + [c];
  }

  /** A condition that is not picked stays where it is among those left. */
  lemma NotTaken(a: seq<Cond>, c: Cond, b: seq<Cond>, p: Pick)
    requires !Picks(p, c)
    ensures Taken(a + [c] + b, p) == Taken(a + b, p)
    ensures Rest(a + [c] + b, p) == Rest(a, p) + [c] + Rest(b, p) && Rest(a + b, p) == Rest(a, p) + Rest(b, p)
  {
    TakenConcat(a + [c], b, p);
    TakenConcat(a, [c], p);
    TakenConcat(a, b, p);
    TakenOne(c, p);
  }

  lemma {:induction false} StaysIn(a: seq<Cond>, c: Cond, b: seq<Cond>, tables: seq<string>, n: nat)
    returns (a': seq<Cond>, b': seq<Cond>)
    requires n <= |tables| && c.rhs.ColRef? && !SameTable(c)
    ensures AfterTables(a + [c] + b, tables, n) == a' + [c] + b' && AfterTables(a + b, tables, n) == a' + b'
  {
    if n == 0 {
      a', b' := a, b;
    } else {
      var x, y := StaysIn(a, c, b, tables, n - 1);
      NotTaken(x, c, y, ForTable(tables[n - 1]));
      a', b' := Rest(x, ForTable(tables[n - 1])), Rest(y, ForTable(tables[n - 1]));
    }
  }

  lemma SingleWithout(a: seq<Cond>, c: Cond, b: seq<Cond>, tables: seq<string>, i: nat)
    requires i < |tables| && c.rhs.ColRef? && !SameTable(c)
    ensures SingleAt(a + [c] + b, tables, i) == SingleAt(a + b, tables, i)
  {
    var x, y := StaysIn(a, c, b, tables, i);
    NotTaken(x, c, y, ForTable(tables[i]));
  }

  lemma {:induction false} PartsWithout(q: Query, a: seq<Cond>, c: Cond, b: seq<Cond>, n: nat)
    requires n <= |q.tables| && c.rhs.ColRef? && !SameTable(c) && q.conds == a + b
    ensures JoinPartsOf(q.(conds := a + [c] + b), n) == JoinPartsOf(q, n)
  {
    if n > 0 {
      PartsWithout(q, a, c, b, n - 1);
      SingleWithout(a, c, b, q.tables, n - 1);
    }
  }

  /** In a query with explicit joins, a WHERE condition between two tables does not even change the plan, wherever it
      is. */
  lemma WhereBetweenTablesLost(q: Query, a: seq<Cond>, c: Cond, b: seq<Cond>, order: seq<nat>)
    requires q.tables != [] && IsOrder(order, |q.tables|) && c.rhs.ColRef? && !SameTable(c) && q.conds == a + b
    ensures JoinPlanFor(q.(conds := a + [c] + b), order) == JoinPlanFor(q, order)
  {
    PartsWithout(q, a, c, b, |q.tables|);
  }

  lemma {:induction false} OnsWithout(a: seq<Cond>, c: Cond, b: seq<Cond>, tables: seq<string>, n: nat)
    requires n <= |tables| && DistinctTables(tables) && !OnCounts(c)
    ensures Ons(a + [c] + b, tables, n) == Ons(a + b, tables, n)
  {
    if n > 0 {
      OnsWithout(a, c, b, tables, n - 1);
      if n > 1 {
        FirstTablesHas(tables, n - 1, tables[n - 1]);
        NotAmong(tables, n - 1);
        NotTaken(a, c, b, ForJoin(tables[n - 1], FirstTables(tables, n - 1)));
      }
    }
  }

  lemma {:induction false} AllPartsWithout(q: Query, on: seq<Cond>, n: nat)
    requires n <= |q.tables| && q.selectAll
    ensures JoinPartsOf(q.(on := on), n) == JoinPartsOf(q, n)
  {
    if n > 0 { AllPartsWithout(q, on, n - 1); }
  }

  /** Nor does an ON condition that takes no effect, when all columns are selected; otherwise it adds its columns to the
      projections. */
  lemma LiteralOnLost(q: Query, a: seq<Cond>, c: Cond, b: seq<Cond>, order: seq<nat>)
    requires q.tables != [] && DistinctTables(q.tables) && IsOrder(order, |q.tables|)
    requires !OnCounts(c) && q.selectAll && q.on == a + b
    ensures JoinPlanFor(q.(on := a + [c] + b), order) == JoinPlanFor(q, order)
  {
    PermutedTables(q.tables, order);
    AllPartsWithout(q, a + [c] + b, |q.tables|);
    OnsWithout(a, c, b, Permuted(q.tables, order, |q.tables|), |q.tables|);
  }
}
