// The plan of a query with explicit joins: reordered tables, filters and projections pushed below the joins.
module JoinPlan {
  import opened IxDefs
  import opened PlanDefs
  import opened LeftDeepPlans
  import opened PlanOrder
  import opened Planner
  import opened PlanMeaning
  import opened JoinOrder

  /** A select with explicit joins: its tables, the WHERE and the ON conditions, and the selected columns,
      if not all. */
  datatype Query = Query(tables: seq<string>, conds: seq<Cond>, on: seq<Cond>, selectAll: bool, cols: set<TabCol>)

  // ----- what is pushed to a table -----

  /** The columns of a table that the ON conditions mention. */
  function JoinCols(on: seq<Cond>, tab: string, n: nat): set<TabCol>
    requires n <= |on|
  {
    if n == 0 then {} else
      var c := on[n - 1];
      JoinCols(on, tab, n - 1) + (if c.lhs.tab == tab then {c.lhs} else {})
      + (if c.rhs.ColRef? && c.rhs.col.tab == tab then {c.rhs.col} else {})
  }

  /** logical_optimization: the selected columns of a table and those its joins need; columns only filters need are not
      among them. */
  function TableProjection(q: Query, tab: string): set<TabCol> {
    (set c | c in q.cols && c.tab == tab) + JoinCols(q.on, tab, |q.on|)
  }

  /** A column is kept when it is one of the table that is selected or that some ON condition mentions. */
  lemma ProjectedCols(q: Query, tab: string, c: TabCol)
    ensures c in TableProjection(q, tab) <==>
      c.tab == tab && (c in q.cols || exists k :: 0 <= k < |q.on| && (q.on[k].lhs == c || q.on[k].rhs == ColRef(c)))
  {
    JoinColsAre(q.on, tab, |q.on|, c);
  }

  lemma {:induction false} JoinColsAre(on: seq<Cond>, tab: string, n: nat, c: TabCol)
    requires n <= |on|
    ensures c in JoinCols(on, tab, n) <==>
      c.tab == tab && exists k :: 0 <= k < n && (on[k].lhs == c || on[k].rhs == ColRef(c))
  {
    if n > 0 { JoinColsAre(on, tab, n - 1, c); }
  }

  predicate Projects(q: Query, tab: string) { !q.selectAll && TableProjection(q, tab) != {} }

  /** The scan plan of table i. */
  function JoinPartAt(q: Query, i: nat): Plan
    requires i < |q.tables|
  {
    var tab, curr := q.tables[i], SingleAt(q.conds, q.tables, i);
    var filtered := if curr != [] then Filter(Scan(tab, []), curr) else Scan(tab, []);
    if Projects(q, tab) then Projection(filtered, TableProjection(q, tab)) else filtered
  }

  function JoinPartsOf(q: Query, n: nat): (r: seq<Plan>)
    requires n <= |q.tables|
    ensures |r| == n
  {
    if n == 0 then [] else JoinPartsOf(q, n - 1) + [JoinPartAt(q, n - 1)]
  }

  lemma {:induction false} JoinPartsAt(q: Query, n: nat, i: nat)
    requires i < n <= |q.tables|
    ensures JoinPartsOf(q, n)[i] == JoinPartAt(q, i)
  {
    if i < n - 1 { JoinPartsAt(q, n - 1, i); }
  }

  /** s in the order given. */
  function Permuted<T>(s: seq<T>, order: seq<nat>, n: nat): (r: seq<T>)
    requires n <= |order| && forall i | 0 <= i < |order| :: order[i] < |s|
    ensures |r| == n && forall i | 0 <= i < n :: r[i] == s[order[i]]
  {
    if n == 0 then [] else Permuted(s, order, n - 1) + [s[order[n - 1]]]
  }

  /** The ON conditions at the join that adds table i of the join order. They stay in the list. */
  function OnAt(on: seq<Cond>, tables: seq<string>, i: nat): seq<Cond>
    requires i < |tables|
  {
    if i == 0 then [] else Taken(on, ForJoin(tables[i], FirstTables(tables, i)))
  }

  function Ons(on: seq<Cond>, tables: seq<string>, n: nat): (r: seq<seq<Cond>>)
    requires n <= |tables|
    ensures |r| == n
  {
    if n == 0 then [] else Ons(on, tables, n - 1) + [OnAt(on, tables, n - 1)]
  }

  lemma {:induction false} OnsAt(on: seq<Cond>, tables: seq<string>, n: nat, i: nat)
    requires i < n <= |tables|
    ensures Ons(on, tables, n)[i] == OnAt(on, tables, i)
  {
    if i < n - 1 { OnsAt(on, tables, n - 1, i); }
  }

  /** The scan plans in the join order. */
  function OrderedParts(q: Query, order: seq<nat>): (r: seq<Plan>)
    requires IsOrder(order, |q.tables|)
    ensures |r| == |q.tables|
  {
    Permuted(JoinPartsOf(q, |q.tables|), order, |q.tables|)
  }

  lemma OrderedPartAt(q: Query, order: seq<nat>, k: nat)
    requires IsOrder(order, |q.tables|) && k < |order|
    ensures OrderedParts(q, order)[k] == JoinPartAt(q, order[k])
  {
    JoinPartsAt(q, |q.tables|, order[k]);
  }

  /** The join conditions in the join order. */
  function OrderedOns(q: Query, order: seq<nat>): (r: seq<seq<Cond>>)
    requires IsOrder(order, |q.tables|)
    ensures |r| == |q.tables|
  {
    Ons(q.on, Permuted(q.tables, order, |q.tables|), |q.tables|)
  }

  /** The plan for a join order. */
  function JoinPlanFor(q: Query, order: seq<nat>): Plan
    requires q.tables != [] && IsOrder(order, |q.tables|)
  {
    LeftDeep(OrderedParts(q, order), OrderedOns(q, order), |q.tables| - 1)
  }

  // ----- build_join_plan -----

  /** The scan plans. */
  method ScanParts(q: Query) returns (parts: seq<Plan>)
    ensures parts == JoinPartsOf(q, |q.tables|)
  {
    var rest := q.conds;
    parts := [];
    for i := 0 to |q.tables|
      invariant parts == JoinPartsOf(q, i) && rest == AfterTables(q.conds, q.tables, i)
    {
      var curr;
      curr, rest := PopConds(rest, ForTable(q.tables[i]));
      var plan := Scan(q.tables[i], []);
      if curr != [] { plan := Filter(plan, curr); }
      if Projects(q, q.tables[i]) { plan := Projection(plan, TableProjection(q, q.tables[i])); }
      parts := parts + [plan];
    }
  }

  /** The loop over the ON conditions for one join. */
  method OnConds(on: seq<Cond>, p: Pick) returns (joinConds: seq<Cond>)
    ensures joinConds == Taken(on, p)
  {
    joinConds := [];
    for k := 0 to |on|
      invariant joinConds == Take(on, p, k)
    {
      if Picks(p, on[k]) { joinConds := joinConds + [on[k]]; }
    }
  }

  /** One join. */
  method AddJoin(on: seq<Cond>, tables: seq<string>, parts: seq<Plan>, i: nat, plan: Plan) returns (plan': Plan)
    requires 0 < i < |tables| == |parts| && forall k | 0 <= k < |parts| :: TablesIn(parts[k]) == {tables[k]}
    requires plan == LeftDeep(parts, Ons(on, tables, |tables|), i - 1)
    ensures plan' == LeftDeep(parts, Ons(on, tables, |tables|), i)
  {
    TablesInTree(parts, Ons(on, tables, |tables|), tables, i - 1);
    OnsAt(on, tables, |tables|, i);
    var joinConds := OnConds(on, ForJoin(tables[i], TablesIn(plan)));
    plan' := Join(plan, parts[i], joinConds);
  }

  /** The joins in the chosen order. */
  method JoinInOrder(on: seq<Cond>, tables: seq<string>, parts: seq<Plan>) returns (plan: Plan)
    requires |tables| == |parts| > 0 && forall k | 0 <= k < |parts| :: TablesIn(parts[k]) == {tables[k]}
    ensures plan == LeftDeep(parts, Ons(on, tables, |tables|), |tables| - 1)
  {
    plan := parts[0];
    var i := 1;
    while i < |tables|
      invariant 1 <= i <= |tables| && plan == LeftDeep(parts, Ons(on, tables, |tables|), i - 1)
    {
      plan := AddJoin(on, tables, parts, i, plan);
      i := i + 1;
    }
  }

  function ColumnConds(on: seq<Cond>, n: nat): nat
    requires n <= |on|
  {
    if n == 0 then 0 else ColumnConds(on, n - 1) + (if on[n - 1].rhs.ColRef? then 1 else 0)
  }

  lemma {:induction false} SomeColumnCond(on: seq<Cond>, n: nat)
    requires n <= |on|
    ensures ColumnConds(on, n) > 0 <==> exists k :: 0 <= k < n && on[k].rhs.ColRef?
  {
    if n > 0 { SomeColumnCond(on, n - 1); }
  }

  function RowCounts(tables: seq<string>, rowCount: map<string, int>, n: nat): (r: seq<int>)
    requires n <= |tables| && forall i | 0 <= i < |tables| :: tables[i] in rowCount
    ensures |r| == n && forall i | 0 <= i < n :: r[i] == rowCount[tables[i]]
  {
    if n == 0 then [] else RowCounts(tables, rowCount, n - 1) + [rowCount[tables[n - 1]]]
  }

  lemma JoinPartTables(q: Query, order: seq<nat>)
    requires IsOrder(order, |q.tables|)
    ensures var n := |q.tables|;
      forall k | 0 <= k < n :: TablesIn(OrderedParts(q, order)[k]) == {Permuted(q.tables, order, n)[k]}
  {
    var n := |q.tables|;
    forall k | 0 <= k < n ensures TablesIn(OrderedParts(q, order)[k]) == {Permuted(q.tables, order, n)[k]} {
      OrderedPartAt(q, order, k);
      PartTable(q, order[k]);
    }
  }

  lemma PartTable(q: Query, i: nat)
    requires i < |q.tables|
    ensures TablesIn(JoinPartAt(q, i)) == {q.tables[i]}
  {
    var tab, curr := q.tables[i], SingleAt(q.conds, q.tables, i);
    assert TablesIn(Scan(tab, [])) == {tab} && TablesIn(Filter(Scan(tab, []), curr)) == {tab};
  }

  /** build_join_plan */
  method BuildJoinPlan(q: Query, rowCount: map<string, int>) returns (plan: Plan, order: seq<nat>)
    requires q.tables != [] && forall i | 0 <= i < |q.tables| :: q.tables[i] in rowCount
    ensures IsOrder(order, |q.tables|) && plan == JoinPlanFor(q, order)
    ensures var counts := RowCounts(q.tables, rowCount, |q.tables|);
      if |q.tables| > 1 && UseGreedy(counts, ColumnConds(q.on, |q.on|), |q.on|) then Ascending(order, counts)
      else forall i | 0 <= i < |q.tables| :: order[i] == i
  {
    var n := |q.tables|;
    var parts := ScanParts(q);
    if n == 1 {
      order := StatementOrder(1);
    } else {
      order := ChooseOrder(RowCounts(q.tables, rowCount, n), ColumnConds(q.on, |q.on|), |q.on|);
    }
    JoinPartTables(q, order);
    plan := JoinInOrder(q.on, Permuted(q.tables, order, n), Permuted(parts, order, n));
  }

  // ----- what the plan yields -----

  /** The columns of all conditions exist, in tables of the query. */
  predicate QueryOk(q: Query, schema: Schema) {
    q.tables != [] && CondsOk(q.conds, q.tables, schema) && CondsOk(q.on, q.tables, schema)
  }

  /** The WHERE conditions a plan with explicit joins takes into account: comparisons with literals, and of two columns
      of the first table. */
  predicate WhereCounts(c: Cond, first: string) { c.rhs.Value? || (SameTable(c) && c.lhs.tab == first) }

  /** And the ON conditions: comparisons of columns of two tables. */
  predicate OnCounts(c: Cond) { c.rhs.ColRef? && !SameTable(c) }

  function WhereInEffect(conds: seq<Cond>, first: string, n: nat): (r: seq<Cond>)
    requires n <= |conds|
    ensures forall c :: c in r <==> c in conds[..n] && WhereCounts(c, first)
  {
    if n == 0 then [] else
      assert conds[..n] == conds[..n - 1] + [conds[n - 1]];
      if WhereCounts(conds[n - 1], first) then WhereInEffect(conds, first, n - 1) + [conds[n - 1]]
      else WhereInEffect(conds, first, n - 1)
  }

  function OnInEffect(on: seq<Cond>, n: nat): (r: seq<Cond>)
    requires n <= |on|
    ensures forall c :: c in r <==> c in on[..n] && OnCounts(c)
  {
    if n == 0 then [] else
      assert on[..n] == on[..n - 1] + [on[n - 1]];
      if OnCounts(on[n - 1]) then OnInEffect(on, n - 1) + [on[n - 1]] else OnInEffect(on, n - 1)
  }

  /** The conditions of the query that take effect. */
  function InEffect(q: Query): (r: seq<Cond>)
    requires q.tables != []
  {
    WhereInEffect(q.conds, q.tables[0], |q.conds|) + OnInEffect(q.on, |q.on|)
  }

  lemma InEffectHas(q: Query, c: Cond)
    requires q.tables != []
    ensures c in InEffect(q) <==> (c in q.conds && WhereCounts(c, q.tables[0])) || (c in q.on && OnCounts(c))
  {
    assert q.conds[..|q.conds|] == q.conds && q.on[..|q.on|] == q.on;
  }

  /** The columns that leave a table's part of the plan. */
  function KeptOf(q: Query, schema: Schema, tab: string): set<TabCol>
    requires tab in schema
  {
    if Projects(q, tab) then TableProjection(q, tab) else schema[tab]
  }

  function KeptAll(q: Query, schema: Schema, tables: seq<string>, n: nat): (r: seq<set<TabCol>>)
    requires n <= |tables| && forall i | 0 <= i < |tables| :: tables[i] in schema
    ensures |r| == n && forall i | 0 <= i < n :: r[i] == KeptOf(q, schema, tables[i])
  {
    if n == 0 then [] else KeptAll(q, schema, tables, n - 1) + [KeptOf(q, schema, tables[n - 1])]
  }

  lemma {:induction false} KeepNone(rows: seq<Tuple>)
    ensures Keep(rows, []) == rows && FilterRows(rows, []) == Some(rows)
  {
    if rows != [] { KeepNone(rows[1..]); }
  }

  /** What the scan plan of a table yields. */
  lemma JoinPartDenotes(q: Query, db: Db, schema: Schema, i: nat)
    requires DbOk(db, schema) && TablesOk(q.tables, db) && QueryOk(q, schema)
    requires i < |q.tables| && (i > 0 || SameTableFirst(q.conds, q.tables))
    ensures Denote(JoinPartAt(q, i), db)
         == Some(Pushed(db[q.tables[i]], SingleAt(q.conds, q.tables, i), KeptOf(q, schema, q.tables[i])))
  {
    var rows, single := db[q.tables[i]], SingleAt(q.conds, q.tables, i);
    KeepNone(rows);
    forall r | 0 <= r < |rows| ensures AllHave(single, rows[r]) { SingleFits(q.conds, q.tables, db, schema, i, r); }
    FilterKeeps(rows, single);
    var kept := Keep(rows, single);
    var scan := Scan(q.tables[i], []);
    assert Denote(scan, db) == Some(rows) && Denote(Filter(scan, single), db) == Some(kept);
    if !Projects(q, q.tables[i]) {
      forall r | 0 <= r < |kept| ensures kept[r].Keys <= schema[q.tables[i]] {
        KeepFrom(rows, single, r);
        var k :| 0 <= k < |rows| && rows[k] == kept[r];
        assert rows[k].Keys == schema[q.tables[i]];
      }
      RestrictAllNothing(kept, schema[q.tables[i]]);
    }
  }

  lemma {:induction false} JoinColsHas(on: seq<Cond>, tab: string, n: nat, k: nat)
    requires k < n <= |on|
    ensures on[k].lhs.tab == tab ==> on[k].lhs in JoinCols(on, tab, n)
    ensures on[k].rhs.ColRef? && on[k].rhs.col.tab == tab ==> on[k].rhs.col in JoinCols(on, tab, n)
  {
    if k < n - 1 { JoinColsHas(on, tab, n - 1, k); }
  }

  lemma {:induction false} JoinColsTab(on: seq<Cond>, tab: string, n: nat, c: TabCol)
    requires n <= |on| && c in JoinCols(on, tab, n)
    ensures c.tab == tab
  {
    var last := on[n - 1];
    if c != last.lhs && !(last.rhs.ColRef? && c == last.rhs.col) { JoinColsTab(on, tab, n - 1, c); }
    else if c in JoinCols(on, tab, n - 1) { JoinColsTab(on, tab, n - 1, c); }
  }

  lemma KeptTab(q: Query, schema: Schema, tab: string, c: TabCol)
    requires tab in schema && (forall d | d in schema[tab] :: d.tab == tab) && c in KeptOf(q, schema, tab)
    ensures c.tab == tab
  {
    if c in JoinCols(q.on, tab, |q.on|) { JoinColsTab(q.on, tab, |q.on|, c); }
  }

  /** The columns of an ON condition are kept. */
  lemma OnKept(q: Query, schema: Schema, tables: seq<string>, i: nat, k: nat)
    requires i < |tables| && (forall j | 0 <= j < |tables| :: tables[j] in schema) && k < |q.on|
    ensures KeptFor(q.on[k].lhs, tables, i, schema, KeptAll(q, schema, tables, |tables|))
    ensures q.on[k].rhs.ColRef? ==> KeptFor(q.on[k].rhs.col, tables, i, schema, KeptAll(q, schema, tables, |tables|))
  {
    forall j | 0 <= j <= i { JoinColsHas(q.on, tables[j], |q.on|, k); }
  }

  // ----- the conditions in the plan are those of the query -----

  ghost predicate SameMembers(a: seq<Cond>, b: seq<Cond>) {
    forall c :: c in a <==> c in b
  }

  lemma KeepSameMembers(rows: seq<Tuple>, others: seq<Tuple>, cs: seq<Cond>, ds: seq<Cond>)
    requires multiset(rows) == multiset(others) && SameMembers(cs, ds)
    ensures multiset(Keep(rows, cs)) == multiset(Keep(others, ds))
  {
    forall t ensures multiset(Keep(rows, cs))[t] == multiset(Keep(others, ds))[t] {
      KeepCount(rows, cs, t);
      KeepCount(others, ds, t);
      SamePass(cs, ds, t);
    }
  }

  lemma SamePass(cs: seq<Cond>, ds: seq<Cond>, t: Tuple)
    requires SameMembers(cs, ds)
    ensures AllPass(cs, t) == AllPass(ds, t)
  {
    forall i | 0 <= i < |cs| ensures cs[i] in ds { assert cs[i] in cs; }
    forall i | 0 <= i < |ds| ensures ds[i] in cs { assert ds[i] in ds; }
  }

  lemma {:induction false} DueHas(singles: seq<seq<Cond>>, jcs: seq<seq<Cond>>, n: nat, i: nat, c: Cond)
    requires i <= n < |singles| == |jcs|
    requires c in singles[i] || (i > 0 && c in jcs[i])
    ensures c in Due(singles, jcs, n)
  {
    if i < n { DueHas(singles, jcs, n - 1, i, c); }
  }

  lemma {:induction false} DueFrom(singles: seq<seq<Cond>>, jcs: seq<seq<Cond>>, n: nat, c: Cond) returns (i: nat)
    requires n < |singles| == |jcs| && c in Due(singles, jcs, n)
    ensures i <= n && (c in singles[i] || (i > 0 && c in jcs[i]))
  {
    if c in singles[n] || (n > 0 && c in jcs[n]) { i := n; } else { i := DueFrom(singles, jcs, n - 1, c); }
  }

  /** A WHERE condition that takes effect is popped for one of the tables. */
  lemma WhereSomewhere(q: Query, schema: Schema, c: Cond) returns (i: nat)
    requires QueryOk(q, schema) && c in q.conds && WhereCounts(c, q.tables[0]) && DistinctTables(q.tables)
    ensures i < |q.tables| && c in SingleAt(q.conds, q.tables, i)
  {
    var k :| 0 <= k < |q.conds| && q.conds[k] == c;
    assert CondOk(q.conds[k], q.tables, schema);
    if SameTable(c) {
      i := 0;
    } else {
      i :| 0 <= i < |q.tables| && q.tables[i] == c.lhs.tab;
      NotBefore(q.tables, i, i);
      AfterTablesHas(q.conds, q.tables, i, c);
    }
    TakenHas(AfterTables(q.conds, q.tables, i), ForTable(q.tables[i]), c);
  }

  /** An ON condition that takes effect is used at one of the joins, whatever the order. */
  lemma OnSomewhere(q: Query, schema: Schema, tables: seq<string>, c: Cond) returns (i: nat)
    requires QueryOk(q, schema) && c in q.on && OnCounts(c)
    requires DistinctTables(tables) && multiset(tables) == multiset(q.tables)
    ensures 0 < i < |tables| && c in OnAt(q.on, tables, i)
  {
    var k :| 0 <= k < |q.on| && q.on[k] == c;
    assert CondOk(q.on[k], q.tables, schema);
    assert c.lhs.tab in multiset(tables) && c.rhs.col.tab in multiset(tables);
    var a :| 0 <= a < |tables| && tables[a] == c.lhs.tab;
    var b :| 0 <= b < |tables| && tables[b] == c.rhs.col.tab;
    var first := if a < b then a else b;
    i := if a < b then b else a;
    assert tables[..i][first] == tables[first];
    FirstTablesHas(tables, i, tables[first]);
    TakenHas(q.on, ForJoin(tables[i], FirstTables(tables, i)), c);
  }

  /** The pieces of the plan for a join order. */
  function SinglesIn(q: Query, order: seq<nat>, n: nat): (r: seq<seq<Cond>>)
    requires IsOrder(order, |q.tables|) && n <= |order|
    ensures |r| == n
  {
    if n == 0 then [] else SinglesIn(q, order, n - 1) + [SingleAt(q.conds, q.tables, order[n - 1])]
  }

  lemma {:induction false} SinglesInAt(q: Query, order: seq<nat>, n: nat, k: nat)
    requires IsOrder(order, |q.tables|) && k < n <= |order|
    ensures SinglesIn(q, order, n)[k] == SingleAt(q.conds, q.tables, order[k])
  {
    if k < n - 1 { SinglesInAt(q, order, n - 1, k); }
  }

  /** The conditions pushed to the tables, in the join order. */
  function OrderedSingles(q: Query, order: seq<nat>): (r: seq<seq<Cond>>)
    requires IsOrder(order, |q.tables|)
    ensures |r| == |q.tables|
  {
    SinglesIn(q, order, |q.tables|)
  }

  lemma OrderedSingleAt(q: Query, order: seq<nat>, k: nat)
    requires IsOrder(order, |q.tables|) && k < |order|
    ensures OrderedSingles(q, order)[k] == SingleAt(q.conds, q.tables, order[k])
  {
    SinglesInAt(q, order, |q.tables|, k);
  }

  lemma PlaceOf(order: seq<nat>, n: nat, i: nat) returns (k: nat)
    requires IsOrder(order, n) && i < n
    ensures k < n && order[k] == i
  {
    assert i in order;
    k :| 0 <= k < |order| && order[k] == i;
  }

  lemma PlanHasWhere(q: Query, schema: Schema, order: seq<nat>, singles: seq<seq<Cond>>, jcs: seq<seq<Cond>>, n: nat,
                     c: Cond)
    requires QueryOk(q, schema) && DistinctTables(q.tables) && IsOrder(order, |q.tables|)
    requires singles == OrderedSingles(q, order) && |jcs| == |singles| == n + 1 && c in q.conds
    requires WhereCounts(c, q.tables[0])
    ensures c in Due(singles, jcs, n)
  {
    var i := WhereSomewhere(q, schema, c);
    var k := PlaceOf(order, |q.tables|, i);
    OrderedSingleAt(q, order, k);
    DueHas(singles, jcs, n, k, c);
  }

  lemma PlanHasOn(q: Query, schema: Schema, tables: seq<string>, singles: seq<seq<Cond>>, jcs: seq<seq<Cond>>, n: nat,
                  c: Cond)
    requires QueryOk(q, schema) && DistinctTables(tables) && multiset(tables) == multiset(q.tables)
    requires jcs == Ons(q.on, tables, |tables|) && |jcs| == |singles| == n + 1 && c in q.on && OnCounts(c)
    ensures c in Due(singles, jcs, n)
  {
    var i := OnSomewhere(q, schema, tables, c);
    OnsAt(q.on, tables, |tables|, i);
    DueHas(singles, jcs, n, i, c);
  }

  /** What is popped for a table takes effect, if all comparisons within a table are on the first one. */
  lemma PoppedCounts(q: Query, i: nat, c: Cond)
    requires q.tables != [] && SameTableFirst(q.conds, q.tables) && i < |q.tables|
    requires c in SingleAt(q.conds, q.tables, i)
    ensures c in q.conds && WhereCounts(c, q.tables[0])
  {
    TakenHas(AfterTables(q.conds, q.tables, i), ForTable(q.tables[i]), c);
    AfterTablesHas(q.conds, q.tables, i, c);
  }

  /** What is used at a join takes effect. */
  lemma UsedCounts(q: Query, tables: seq<string>, i: nat, c: Cond)
    requires DistinctTables(tables) && 0 < i < |tables| && c in OnAt(q.on, tables, i)
    ensures c in q.on && OnCounts(c)
  {
    TakenHas(q.on, ForJoin(tables[i], FirstTables(tables, i)), c);
    FirstTablesHas(tables, i, tables[i]);
    NotAmong(tables, i);
  }

  lemma QueryHasConds(q: Query, order: seq<nat>, tables: seq<string>, singles: seq<seq<Cond>>, jcs: seq<seq<Cond>>,
                      m: nat, c: Cond)
    requires q.tables != [] && SameTableFirst(q.conds, q.tables) && DistinctTables(tables)
    requires IsOrder(order, |q.tables|) && |tables| == |q.tables| == m + 1
    requires singles == OrderedSingles(q, order) && jcs == Ons(q.on, tables, |tables|) && c in Due(singles, jcs, m)
    ensures c in InEffect(q)
  {
    var i := DueFrom(singles, jcs, m, c);
    InEffectHas(q, c);
    OrderedSingleAt(q, order, i);
    OnsAt(q.on, tables, |tables|, i);
    if c in singles[i] { PoppedCounts(q, order[i], c); } else { UsedCounts(q, tables, i, c); }
  }

  // ----- the order does not matter -----

  lemma {:induction false} PermutedHas(s: seq<string>, order: seq<nat>, n: nat)
    requires n <= |order| && forall i | 0 <= i < |order| :: order[i] < |s|
    ensures forall x | x in Permuted(s, order, n) :: x in s
  {
  }

  lemma PermutedDistinct(tables: seq<string>, order: seq<nat>)
    requires DistinctTables(tables) && IsOrder(order, |tables|)
    ensures DistinctTables(Permuted(tables, order, |tables|))
  {
    var p := Permuted(tables, order, |tables|);
    forall i, j | 0 <= i < j < |p| ensures Differ(p, i, j) {
      var a, b := order[i], order[j];
      assert Apart(order, i, j);
      assert if a < b then Differ(tables, a, b) else Differ(tables, b, a);
    }
  }

  lemma PermutedCovers(tables: seq<string>, order: seq<nat>, x: string)
    requires IsOrder(order, |tables|)
    ensures x in tables <==> x in Permuted(tables, order, |tables|)
  {
    if x in tables {
      var i :| 0 <= i < |tables| && tables[i] == x;
      var k := PlaceOf(order, |tables|, i);
      assert Permuted(tables, order, |tables|)[k] == x;
    }
    PermutedHas(tables, order, |tables|);
  }

  /** The tables in another order are the same tables. */
  lemma PermutedTables(tables: seq<string>, order: seq<nat>)
    requires DistinctTables(tables) && IsOrder(order, |tables|)
    ensures DistinctTables(Permuted(tables, order, |tables|))
    ensures multiset(Permuted(tables, order, |tables|)) == multiset(tables)
  {
    var p := Permuted(tables, order, |tables|);
    PermutedDistinct(tables, order);
    forall x ensures multiset(p)[x] == multiset(tables)[x] {
      DistinctCount(p, x);
      DistinctCount(tables, x);
      PermutedCovers(tables, order, x);
    }
  }

  lemma {:induction false} DistinctCount(s: seq<string>, x: string)
    requires DistinctTables(s)
    ensures multiset(s)[x] == if x in s then 1 else 0
  {
    if s != [] {
      var rest := s[1..];
      forall i, j | 0 <= i < j < |rest| ensures Differ(rest, i, j) { assert Differ(s, i + 1, j + 1); }
      DistinctCount(rest, x);
      assert s == [s[0]] + rest;
      forall k | 0 <= k < |rest| ensures rest[k] != s[0] { assert Differ(s, 0, k + 1); }
    }
  }

  // ----- the whole plan -----

  /** A projection to cols keeps what a projection to sel is going to ask for. */
  predicate Covers(t: Tuple, cols: set<TabCol>, sel: set<TabCol>) {
    forall c | c in t && c in sel :: c in cols
  }

  predicate AllCover(rows: seq<Tuple>, cols: set<TabCol>, sel: set<TabCol>) {
    forall i | 0 <= i < |rows| :: Covers(rows[i], cols, sel)
  }

  lemma {:induction false} RestrictAllTwice(rows: seq<Tuple>, cols: set<TabCol>, sel: set<TabCol>)
    requires AllCover(rows, cols, sel)
    ensures RestrictAll(RestrictAll(rows, cols), sel) == RestrictAll(rows, sel)
  {
    if rows != [] {
      var rest := rows[1..];
      assert Covers(rows[0], cols, sel);
      forall i | 0 <= i < |rest| ensures Covers(rest[i], cols, sel) { assert rest[i] == rows[i + 1]; }
      RestrictAllTwice(rest, cols, sel);
      assert Restrict(Restrict(rows[0], cols), sel) == Restrict(rows[0], sel);
      assert ([Restrict(rows[0], cols)] + RestrictAll(rest, cols))[1..] == RestrictAll(rest, cols);
    }
  }

  /** The scan plans, in join order. */
  lemma OrderedPartsOk(q: Query, db: Db, schema: Schema, order: seq<nat>, tables: seq<string>)
    requires DbOk(db, schema) && TablesOk(q.tables, db) && QueryOk(q, schema) && IsOrder(order, |q.tables|)
    requires SameTableFirst(q.conds, q.tables)
    requires tables == Permuted(q.tables, order, |q.tables|) && forall i | 0 <= i < |tables| :: tables[i] in schema
    ensures PartsOk(OrderedParts(q, order), db, tables, OrderedSingles(q, order),
                    KeptAll(q, schema, tables, |tables|))
  {
    var parts, singles, kept := OrderedParts(q, order), OrderedSingles(q, order), KeptAll(q, schema, tables, |tables|);
    forall k | 0 <= k < |parts| ensures Denote(parts[k], db) == Some(Pushed(db[tables[k]], singles[k], kept[k])) {
      OrderedPartAt(q, order, k);
      OrderedSingleAt(q, order, k);
      JoinPartDenotes(q, db, schema, order[k]);
    }
  }

  /** Every condition pushed to a table is on that table. */
  predicate OwnConds(singles: seq<seq<Cond>>, tables: seq<string>) {
    && |singles| == |tables|
    && forall i, k | 0 <= i < |singles| && 0 <= k < |singles[i]| :: CondOf(singles[i][k], tables[i])
  }

  lemma OrderedOwnConds(q: Query, schema: Schema, order: seq<nat>, tables: seq<string>)
    requires QueryOk(q, schema) && SameTableFirst(q.conds, q.tables) && IsOrder(order, |q.tables|)
    requires tables == Permuted(q.tables, order, |q.tables|)
    ensures OwnConds(OrderedSingles(q, order), tables)
  {
    var singles := OrderedSingles(q, order);
    forall i, k | 0 <= i < |singles| && 0 <= k < |singles[i]| ensures CondOf(singles[i][k], tables[i]) {
      OrderedSingleAt(q, order, i);
      SingleIsOf(q.conds, q.tables, schema, order[i], k);
    }
  }

  /** The plan pushes only what may be pushed. */
  lemma OrderedPushOk(q: Query, db: Db, schema: Schema, singles: seq<seq<Cond>>, tables: seq<string>)
    requires DbOk(db, schema) && OwnConds(singles, tables) && forall i | 0 <= i < |tables| :: tables[i] in schema
    ensures PushOk(tables, schema, singles, Ons(q.on, tables, |tables|), KeptAll(q, schema, tables, |tables|))
  {
    var ons, kept := Ons(q.on, tables, |tables|), KeptAll(q, schema, tables, |tables|);
    forall i, k | 0 < i < |ons| && 0 <= k < |ons[i]|
      ensures CondWithin(ons[i][k], tables, i + 1) && KeptFor(ons[i][k].lhs, tables, i, schema, kept)
      ensures ons[i][k].rhs.ColRef? ==> KeptFor(ons[i][k].rhs.col, tables, i, schema, kept)
    {
      OnsAt(q.on, tables, |tables|, i);
      OnWithin(q, schema, tables, i, k);
    }
    forall i, c: TabCol | 0 <= i < |kept| && c in kept[i] ensures c.tab == tables[i] {
      KeptTab(q, schema, tables[i], c);
    }
  }

  lemma OnWithin(q: Query, schema: Schema, tables: seq<string>, i: nat, k: nat)
    requires 0 < i < |tables| && (forall j | 0 <= j < |tables| :: tables[j] in schema) && k < |OnAt(q.on, tables, i)|
    ensures var c := OnAt(q.on, tables, i)[k];
      && CondWithin(c, tables, i + 1) && KeptFor(c.lhs, tables, i, schema, KeptAll(q, schema, tables, |tables|))
      && (c.rhs.ColRef? ==> KeptFor(c.rhs.col, tables, i, schema, KeptAll(q, schema, tables, |tables|)))
  {
    var c := OnAt(q.on, tables, i)[k];
    TakenHas(q.on, ForJoin(tables[i], FirstTables(tables, i)), c);
    FirstTablesHas(tables, i, c.lhs.tab);
    FirstTablesHas(tables, i, c.rhs.col.tab);
    assert tables[..i + 1] == tables[..i] + [tables[i]];
    var j :| 0 <= j < |q.on| && q.on[j] == c;
    OnKept(q, schema, tables, i, j);
  }

  /** Selected columns are kept. */
  lemma SelectedKept(q: Query, schema: Schema, tables: seq<string>, m: nat, t: Tuple, c: TabCol, sel: set<TabCol>)
    requires |tables| == m + 1 && (forall j | 0 <= j < |tables| :: tables[j] in schema)
    requires Within(t, tables, m + 1, schema) && c in t && c in sel && (q.selectAll || sel <= q.cols)
    ensures c in Columns(KeptAll(q, schema, tables, m + 1), m)
  {
    ColumnsHave(KeptAll(q, schema, tables, m + 1), m, c);
    assert tables[..m + 1] == tables;
    var i :| 0 <= i < |tables| && tables[i] == c.tab;
    assert c in KeptOf(q, schema, tables[i]);
  }

  /** The selected columns of the rows that pass are among those kept. */
  lemma SelectedInRows(q: Query, db: Db, schema: Schema, tables: seq<string>, m: nat, cs: seq<Cond>, sel: set<TabCol>)
    requires DbOk(db, schema) && TablesOk(tables, db) && |tables| == m + 1
    requires (forall j | 0 <= j < |tables| :: tables[j] in schema)
    requires q.selectAll || sel <= q.cols
    ensures AllCover(Keep(Product(tables, m + 1, db), cs), Columns(KeptAll(q, schema, tables, m + 1), m), sel)
  {
    var all, cols := Product(tables, m + 1, db), Columns(KeptAll(q, schema, tables, m + 1), m);
    var rows := Keep(all, cs);
    forall i | 0 <= i < |rows| ensures Covers(rows[i], cols, sel) {
      KeepFrom(all, cs, i);
      var k :| 0 <= k < |all| && all[k] == rows[i];
      ProductWithin(tables, db, schema, m + 1, m + 1, k);
      forall c | c in rows[i] && c in sel ensures c in cols { SelectedKept(q, schema, tables, m, rows[i], c, sel); }
    }
  }

  /** What the tree of the reordered plan yields. */
  lemma OrderedTree(q: Query, db: Db, schema: Schema, order: seq<nat>, tables: seq<string>, parts: seq<Plan>,
                    singles: seq<seq<Cond>>, ons: seq<seq<Cond>>, kept: seq<set<TabCol>>, m: nat)
    requires DbOk(db, schema) && TablesOk(q.tables, db) && TablesOk(tables, db) && QueryOk(q, schema)
    requires SameTableFirst(q.conds, q.tables)
    requires IsOrder(order, |q.tables|) && tables == Permuted(q.tables, order, |q.tables|) && |tables| == m + 1
    requires parts == OrderedParts(q, order) && singles == OrderedSingles(q, order)
    requires ons == Ons(q.on, tables, |tables|) && kept == KeptAll(q, schema, tables, |tables|)
    ensures Denote(LeftDeep(parts, ons, m), db)
         == Some(Pushed(Product(tables, m + 1, db), Due(singles, ons, m), Columns(kept, m)))
  {
    OrderedPartsOk(q, db, schema, order, tables);
    OrderedOwnConds(q, schema, order, tables);
    OrderedPushOk(q, db, schema, singles, tables);
    LeftDeepDenotes(parts, db, tables, schema, singles, ons, kept, m);
  }

  /** The conditions in the reordered plan are those that take effect. */
  lemma OrderedConds(q: Query, schema: Schema, order: seq<nat>, tables: seq<string>, singles: seq<seq<Cond>>,
                     ons: seq<seq<Cond>>, m: nat)
    requires QueryOk(q, schema) && SameTableFirst(q.conds, q.tables) && DistinctTables(q.tables)
    requires IsOrder(order, |q.tables|) && |q.tables| == |tables| == m + 1
    requires DistinctTables(tables) && multiset(tables) == multiset(q.tables)
    requires singles == OrderedSingles(q, order) && ons == Ons(q.on, tables, |tables|)
    ensures SameMembers(Due(singles, ons, m), InEffect(q))
  {
    forall c ensures c in Due(singles, ons, m) <==> c in InEffect(q) {
      InEffectHas(q, c);
      if c in q.conds && WhereCounts(c, q.tables[0]) { PlanHasWhere(q, schema, order, singles, ons, m, c); }
      if c in q.on && OnCounts(c) { PlanHasOn(q, schema, tables, singles, ons, m, c); }
      if c in Due(singles, ons, m) { QueryHasConds(q, order, tables, singles, ons, m, c); }
    }
  }

  /** The rows of the reordered plan, on the selected columns. */
  lemma OrderedRows(q: Query, order: seq<nat>, db: Db, schema: Schema, sel: set<TabCol>, tables: seq<string>, m: nat)
    requires DbOk(db, schema) && TablesOk(q.tables, db) && TablesOk(tables, db) && QueryOk(q, schema)
    requires SameTableFirst(q.conds, q.tables)
    requires IsOrder(order, |q.tables|) && tables == Permuted(q.tables, order, |q.tables|) && |q.tables| == m + 1
    requires q.selectAll || sel <= q.cols
    ensures Denote(JoinPlanFor(q, order), db).Some?
    ensures RestrictAll(Denote(JoinPlanFor(q, order), db).value, sel)
         == RestrictAll(Keep(Product(tables, m + 1, db), Due(OrderedSingles(q, order), Ons(q.on, tables, m + 1), m)),
                        sel)
  {
    var singles, ons, kept := OrderedSingles(q, order), Ons(q.on, tables, m + 1), KeptAll(q, schema, tables, m + 1);
    var all, cs := Product(tables, m + 1, db), Due(singles, ons, m);
    assert Denote(JoinPlanFor(q, order), db) == Some(Pushed(all, cs, Columns(kept, m))) by {
      OrderedTree(q, db, schema, order, tables, OrderedParts(q, order), singles, ons, kept, m);
      PlanTree(q, order, tables, m);
    }
    assert RestrictAll(Pushed(all, cs, Columns(kept, m)), sel) == RestrictAll(Keep(all, cs), sel) by {
      SelectedInRows(q, db, schema, tables, m, cs, sel);
      RestrictAllTwice(Keep(all, cs), Columns(kept, m), sel);
    }
  }

  lemma PlanTree(q: Query, order: seq<nat>, tables: seq<string>, m: nat)
    requires IsOrder(order, |q.tables|) && tables == Permuted(q.tables, order, |q.tables|) && |q.tables| == m + 1
    ensures JoinPlanFor(q, order) == LeftDeep(OrderedParts(q, order), Ons(q.on, tables, m + 1), m)
  {
  }

  /** The rows of the product in one table order that pass are those of the product in another order that pass. */
  lemma ProductKeep(a: seq<string>, b: seq<string>, db: Db, schema: Schema, cs: seq<Cond>, ds: seq<Cond>)
    requires DbOk(db, schema) && TablesOk(a, db) && TablesOk(b, db) && multiset(a) == multiset(b) && a != []
    requires SameMembers(cs, ds)
    ensures |a| == |b| && multiset(Keep(Product(a, |a|, db), cs)) == multiset(Keep(Product(b, |b|, db), ds))
  {
    ProductReordered(a, b, db, schema);
    KeepSameMembers(Product(a, |a|, db), Product(b, |b|, db), cs, ds);
  }

  /** What the plan yields on the selected columns, for the conditions in it. */
  lemma OrderedAnswer(q: Query, order: seq<nat>, db: Db, schema: Schema, sel: set<TabCol>, tables: seq<string>, m: nat)
    returns (cs: seq<Cond>)
    requires DbOk(db, schema) && TablesOk(q.tables, db) && QueryOk(q, schema) && IsOrder(order, |q.tables|)
    requires SameTableFirst(q.conds, q.tables) && (q.selectAll || sel <= q.cols)
    requires tables == Permuted(q.tables, order, |q.tables|) && |q.tables| == m + 1
    requires TablesOk(tables, db) && multiset(tables) == multiset(q.tables)
    ensures Denote(JoinPlanFor(q, order), db).Some? && SameMembers(cs, InEffect(q))
    ensures RestrictAll(Denote(JoinPlanFor(q, order), db).value, sel)
         == RestrictAll(Keep(Product(tables, m + 1, db), cs), sel)
  {
    var singles, ons := OrderedSingles(q, order), Ons(q.on, tables, |tables|);
    cs := Due(singles, ons, m);
    assert SameMembers(cs, InEffect(q)) by { OrderedConds(q, schema, order, tables, singles, ons, m); }
    OrderedRows(q, order, db, schema, sel, tables, m);
  }

  /** And so for the selected columns of those rows. */
  lemma AnswerReordered(a: seq<string>, b: seq<string>, db: Db, schema: Schema, cs: seq<Cond>, ds: seq<Cond>,
                        sel: set<TabCol>)
    requires DbOk(db, schema) && TablesOk(a, db) && TablesOk(b, db) && multiset(a) == multiset(b) && a != []
    requires SameMembers(cs, ds)
    ensures |a| == |b|
    ensures multiset(RestrictAll(Keep(Product(a, |a|, db), cs), sel))
         == multiset(RestrictAll(Keep(Product(b, |b|, db), ds), sel))
  {
    ProductKeep(a, b, db, schema, cs, ds);
    RestrictReordered(Keep(Product(a, |a|, db), cs), Keep(Product(b, |b|, db), ds), sel);
  }

  /** The plan of a query whose same-table comparisons in WHERE are on the first table. */
  lemma OwnJoinDenotes(q: Query, order: seq<nat>, db: Db, schema: Schema, sel: set<TabCol>, tables: seq<string>, m: nat)
    requires DbOk(db, schema) && TablesOk(q.tables, db) && QueryOk(q, schema) && IsOrder(order, |q.tables|)
    requires SameTableFirst(q.conds, q.tables) && (q.selectAll || sel <= q.cols)
    requires tables == Permuted(q.tables, order, |q.tables|) && |q.tables| == m + 1
    requires TablesOk(tables, db) && multiset(tables) == multiset(q.tables)
    ensures Denote(JoinPlanFor(q, order), db).Some?
    ensures multiset(RestrictAll(Denote(JoinPlanFor(q, order), db).value, sel))
         == multiset(RestrictAll(Keep(Product(q.tables, |q.tables|, db), InEffect(q)), sel))
  {
    var cs := OrderedAnswer(q, order, db, schema, sel, tables, m);
    AnswerReordered(tables, q.tables, db, schema, cs, InEffect(q), sel);
  }
}
