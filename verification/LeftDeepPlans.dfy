// What a left-deep tree of joins yields, whatever was pushed below the joins.
module LeftDeepPlans {
  import opened IxDefs
  import opened PlanDefs

  type Db = map<string, seq<Tuple>>
  type Schema = map<string, set<TabCol>>

  /** The first n + 1 parts, joined from the left. */
  function LeftDeep(parts: seq<Plan>, jcs: seq<seq<Cond>>, n: nat): Plan
    requires n < |parts| == |jcs|
  {
    if n == 0 then parts[0] else Join(LeftDeep(parts, jcs, n - 1), parts[n], jcs[n])
  }

  /** Tables with their columns: every row of a table has just the table's columns. */
  ghost predicate DbOk(db: Db, schema: Schema) {
    && db.Keys == schema.Keys
    && (forall tab, c {:trigger c in schema[tab]} | tab in schema && c in schema[tab] :: c.tab == tab)
    && (forall tab, i {:trigger db[tab][i]} | tab in db && 0 <= i < |db[tab]| :: db[tab][i].Keys == schema[tab])
  }

  predicate Differ(tables: seq<string>, i: nat, j: nat)
    requires i < |tables| && j < |tables|
  {
    tables[i] != tables[j]
  }

  predicate DistinctTables(tables: seq<string>) {
    forall i, j {:trigger Differ(tables, i, j)} | 0 <= i < j < |tables| :: Differ(tables, i, j)
  }

  /** A query's tables are different ones of the database. */
  predicate TablesOk(tables: seq<string>, db: Db) {
    DistinctTables(tables) && forall i | 0 <= i < |tables| :: tables[i] in db
  }

  /** Every column of t is one of the first n tables' columns. */
  predicate Within(t: Tuple, tables: seq<string>, n: nat, schema: Schema)
    requires n <= |tables|
  {
    forall c | c in t :: c.tab in tables[..n] && c.tab in schema && c in schema[c.tab]
  }

  predicate CondWithin(c: Cond, tables: seq<string>, n: nat)
    requires n <= |tables|
  {
    c.lhs.tab in tables[..n] && (c.rhs.ColRef? ==> c.rhs.col.tab in tables[..n])
  }

  predicate CondOf(c: Cond, tab: string) {
    c.lhs.tab == tab && (c.rhs.ColRef? ==> c.rhs.col.tab == tab)
  }

  // ----- rows of the product -----

  lemma {:induction false} JoinRowWithin(l: Tuple, rs: seq<Tuple>, cs: seq<Cond>, tables: seq<string>, n: nat,
                                         schema: Schema, i: nat)
    requires n <= |tables| && Within(l, tables, n, schema)
    requires forall k | 0 <= k < |rs| :: Within(rs[k], tables, n, schema)
    requires i < |JoinRow(l, rs, cs)|
    ensures Within(JoinRow(l, rs, cs)[i], tables, n, schema)
  {
    var first := if AllPass(cs, l + rs[0]) then 1 else 0;
    assert Within(rs[0], tables, n, schema);
    if i >= first {
      forall k | 0 <= k < |rs[1..]| ensures Within(rs[1..][k], tables, n, schema) { assert rs[1..][k] == rs[k + 1]; }
      JoinRowWithin(l, rs[1..], cs, tables, n, schema, i - first);
    }
  }

  lemma {:induction false} JoinRowsWithin(ls: seq<Tuple>, rs: seq<Tuple>, cs: seq<Cond>, tables: seq<string>, n: nat,
                                          schema: Schema, i: nat)
    requires n <= |tables| && forall k | 0 <= k < |ls| :: Within(ls[k], tables, n, schema)
    requires forall k | 0 <= k < |rs| :: Within(rs[k], tables, n, schema)
    requires i < |JoinRows(ls, rs, cs)|
    ensures Within(JoinRows(ls, rs, cs)[i], tables, n, schema)
  {
    var first := JoinRow(ls[0], rs, cs);
    if i < |first| {
      JoinRowWithin(ls[0], rs, cs, tables, n, schema, i);
    } else {
      forall k | 0 <= k < |ls[1..]| ensures Within(ls[1..][k], tables, n, schema) { assert ls[1..][k] == ls[k + 1]; }
      JoinRowsWithin(ls[1..], rs, cs, tables, n, schema, i - |first|);
    }
  }

  lemma RowWithin(tables: seq<string>, db: Db, schema: Schema, n: nat, m: nat, i: nat)
    requires DbOk(db, schema) && TablesOk(tables, db) && n < m <= |tables| && i < |db[tables[n]]|
    ensures Within(db[tables[n]][i], tables, m, schema)
  {
    assert db[tables[n]][i].Keys == schema[tables[n]];
    assert tables[..m][n] == tables[n];
  }

  lemma {:induction false} ProductWithin(tables: seq<string>, db: Db, schema: Schema, n: nat, m: nat, i: nat)
    requires DbOk(db, schema) && TablesOk(tables, db) && 0 < n <= m <= |tables| && i < |Product(tables, n, db)|
    ensures Within(Product(tables, n, db)[i], tables, m, schema)
    decreases n
  {
    if n == 1 {
      RowWithin(tables, db, schema, 0, m, i);
    } else {
      var ls, rs := Product(tables, n - 1, db), db[tables[n - 1]];
      forall k | 0 <= k < |ls| ensures Within(ls[k], tables, m, schema) {
        ProductWithin(tables, db, schema, n - 1, m, k);
      }
      forall k | 0 <= k < |rs| ensures Within(rs[k], tables, m, schema) { RowWithin(tables, db, schema, n - 1, m, k); }
      JoinRowsWithin(ls, rs, [], tables, m, schema, i);
    }
  }

  // ----- pushing below one join -----

  /** A column of the first n + 1 tables is kept, if it exists. */
  ghost predicate KeptFor(c: TabCol, tables: seq<string>, n: nat, schema: Schema, kept: seq<set<TabCol>>)
    requires n < |tables| == |kept|
  {
    c.tab in schema && c in schema[c.tab] ==> forall i | 0 <= i <= n && tables[i] == c.tab :: c in kept[i]
  }

  /** The columns kept of a table belong to it. */
  predicate KeptOk(tables: seq<string>, kept: seq<set<TabCol>>) {
    |tables| == |kept| && forall i, c | 0 <= i < |kept| && c in kept[i] :: c.tab == tables[i]
  }

  function Columns(kept: seq<set<TabCol>>, n: nat): set<TabCol>
    requires n < |kept|
  {
    if n == 0 then kept[0] else Columns(kept, n - 1) + kept[n]
  }

  lemma {:induction false} ColumnsHave(kept: seq<set<TabCol>>, n: nat, c: TabCol)
    requires n < |kept|
    ensures c in Columns(kept, n) <==> exists i | 0 <= i <= n :: c in kept[i]
  {
    if n > 0 { ColumnsHave(kept, n - 1, c); }
  }

  /** A condition on columns that only l can have is the same on l + r. */
  lemma PassesLeft(c: Cond, l: Tuple, r: Tuple, tables: seq<string>, n: nat)
    requires n < |tables| && DistinctTables(tables) && CondWithin(c, tables, n)
    requires forall d | d in r :: d.tab == tables[n]
    ensures Passes(c, l + r) == Passes(c, l)
  {
    NotAmong(tables, n);
  }

  lemma NotAmong(tables: seq<string>, n: nat)
    requires n < |tables| && DistinctTables(tables)
    ensures tables[n] !in tables[..n]
  {
    forall i | 0 <= i < n ensures tables[..n][i] != tables[n] { assert Differ(tables, i, n); }
  }

  /** A condition on columns that only r can have is the same on l + r. */
  lemma PassesRight(c: Cond, l: Tuple, r: Tuple, tables: seq<string>, n: nat, schema: Schema)
    requires n < |tables| && DistinctTables(tables) && CondOf(c, tables[n]) && Within(l, tables, n, schema)
    ensures Passes(c, l + r) == Passes(c, r)
  {
    NotAmong(tables, n);
    assert c.lhs !in l;
  }

  /** A join condition is the same after a projection that keeps its columns. */
  lemma PassesKept(c: Cond, t: Tuple, tables: seq<string>, n: nat, schema: Schema, kept: seq<set<TabCol>>)
    requires n < |tables| == |kept| && KeptFor(c.lhs, tables, n, schema, kept)
    requires c.rhs.ColRef? ==> KeptFor(c.rhs.col, tables, n, schema, kept)
    requires Within(t, tables, n + 1, schema)
    ensures Passes(c, Restrict(t, Columns(kept, n))) == Passes(c, t)
  {
    KeptColumn(c.lhs, t, tables, n, schema, kept);
    if c.rhs.ColRef? { KeptColumn(c.rhs.col, t, tables, n, schema, kept); }
  }

  lemma KeptColumn(c: TabCol, t: Tuple, tables: seq<string>, n: nat, schema: Schema, kept: seq<set<TabCol>>)
    requires n < |tables| == |kept| && KeptFor(c, tables, n, schema, kept) && Within(t, tables, n + 1, schema)
    ensures c in t ==> c in Columns(kept, n)
  {
    ColumnsHave(kept, n, c);
    if c in t {
      var i :| 0 <= i < n + 1 && tables[..n + 1][i] == c.tab;
      assert tables[i] == c.tab;
    }
  }

  /** What a plan pushes to each table and attaches to each join: single conditions on the table's own columns, join
      conditions on columns that are kept. */
  ghost predicate PushOk(tables: seq<string>, schema: Schema, singles: seq<seq<Cond>>, jcs: seq<seq<Cond>>,
                         kept: seq<set<TabCol>>) {
    && |tables| == |singles| == |jcs| == |kept| && KeptOk(tables, kept)
    && (forall i, k | 0 <= i < |singles| && 0 <= k < |singles[i]| :: CondOf(singles[i][k], tables[i]))
    && (forall i, k | 0 < i < |jcs| && 0 <= k < |jcs[i]| ::
          && CondWithin(jcs[i][k], tables, i + 1)
          && KeptFor(jcs[i][k].lhs, tables, i, schema, kept)
          && (jcs[i][k].rhs.ColRef? ==> KeptFor(jcs[i][k].rhs.col, tables, i, schema, kept)))
  }

  /** The conditions applied up to table n. */
  function Due(singles: seq<seq<Cond>>, jcs: seq<seq<Cond>>, n: nat): seq<Cond>
    requires n < |singles| == |jcs|
  {
    if n == 0 then singles[0] else Due(singles, jcs, n - 1) + singles[n] + jcs[n]
  }

  lemma {:induction false} DueWithin(tables: seq<string>, schema: Schema, singles: seq<seq<Cond>>, jcs: seq<seq<Cond>>,
                                     kept: seq<set<TabCol>>, n: nat, m: nat, k: nat)
    requires PushOk(tables, schema, singles, jcs, kept) && n < m <= |tables| && k < |Due(singles, jcs, n)|
    ensures CondWithin(Due(singles, jcs, n)[k], tables, m)
    decreases n
  {
    var due := Due(singles, jcs, n);
    assert tables[..m][n] == tables[n];
    if n == 0 {
      assert CondOf(singles[0][k], tables[0]);
    } else {
      var before := Due(singles, jcs, n - 1);
      if k < |before| {
        DueWithin(tables, schema, singles, jcs, kept, n - 1, m, k);
      } else if k < |before| + |singles[n]| {
        assert CondOf(singles[n][k - |before|], tables[n]);
      } else {
        var c := jcs[n][k - |before| - |singles[n]|];
        assert due[k] == c && CondWithin(c, tables, n + 1);
        Wider(c, tables, n + 1, m);
      }
    }
  }

  lemma Wider(c: Cond, tables: seq<string>, n: nat, m: nat)
    requires n <= m <= |tables| && CondWithin(c, tables, n)
    ensures CondWithin(c, tables, m)
  {
    assert tables[..n] <= tables[..m];
    forall s | s in tables[..n] ensures s in tables[..m] {
      var i :| 0 <= i < n && tables[..n][i] == s;
      assert tables[..m][i] == s;
    }
  }

  /** The conditions so far are the same on l + r as on l. */
  lemma DuePasses(l: Tuple, r: Tuple, tables: seq<string>, schema: Schema, singles: seq<seq<Cond>>, jcs: seq<seq<Cond>>,
                  kept: seq<set<TabCol>>, due: seq<Cond>, n: nat)
    requires PushOk(tables, schema, singles, jcs, kept) && DistinctTables(tables) && n + 1 < |tables|
    requires (forall d | d in r :: d.tab == tables[n + 1]) && due == Due(singles, jcs, n)
    ensures AllPass(due, l + r) == AllPass(due, l)
  {
    forall k | 0 <= k < |due| ensures Passes(due[k], l + r) == Passes(due[k], l) {
      DueWithin(tables, schema, singles, jcs, kept, n, n + 1, k);
      PassesLeft(due[k], l, r, tables, n + 1);
    }
  }

  /** The next table's own conditions are the same on l + r as on r. */
  lemma SinglePasses(l: Tuple, r: Tuple, tables: seq<string>, schema: Schema, single: seq<Cond>, n: nat)
    requires n < |tables| && DistinctTables(tables) && Within(l, tables, n, schema)
    requires forall k | 0 <= k < |single| :: CondOf(single[k], tables[n])
    ensures AllPass(single, l + r) == AllPass(single, r)
  {
    forall k | 0 <= k < |single| ensures Passes(single[k], l + r) == Passes(single[k], r) {
      PassesRight(single[k], l, r, tables, n, schema);
    }
  }

  /** The join conditions are the same after the projections. */
  lemma JoinPasses(t: Tuple, tables: seq<string>, schema: Schema, jc: seq<Cond>, kept: seq<set<TabCol>>, n: nat)
    requires n < |tables| == |kept| && Within(t, tables, n + 1, schema)
    requires forall k | 0 <= k < |jc| :: KeptFor(jc[k].lhs, tables, n, schema, kept)
    requires forall k | 0 <= k < |jc| :: jc[k].rhs.ColRef? ==> KeptFor(jc[k].rhs.col, tables, n, schema, kept)
    ensures AllPass(jc, Restrict(t, Columns(kept, n))) == AllPass(jc, t)
  {
    forall k | 0 <= k < |jc| ensures Passes(jc[k], Restrict(t, Columns(kept, n))) == Passes(jc[k], t) {
      PassesKept(jc[k], t, tables, n, schema, kept);
    }
  }

  /** A row l of the tables so far and a row r of the next table: everything may be pushed below their join. */
  lemma PairSeparable(l: Tuple, r: Tuple, tables: seq<string>, schema: Schema, singles: seq<seq<Cond>>,
                      jcs: seq<seq<Cond>>, kept: seq<set<TabCol>>, n: nat)
    requires PushOk(tables, schema, singles, jcs, kept) && DistinctTables(tables) && n + 1 < |tables|
    requires Within(l, tables, n + 1, schema) && Within(r, tables, n + 2, schema)
    requires forall d | d in r :: d.tab == tables[n + 1]
    ensures Separable(l, r, Due(singles, jcs, n), singles[n + 1], jcs[n + 1], Columns(kept, n), kept[n + 1])
  {
    DuePasses(l, r, tables, schema, singles, jcs, kept, Due(singles, jcs, n), n);
    SinglePasses(l, r, tables, schema, singles[n + 1], n + 1);
    PairWithin(l, r, tables, schema, n + 1);
    JoinPasses(l + r, tables, schema, jcs[n + 1], kept, n + 1);
    RestrictPair(l, r, tables, schema, kept, n + 1);
  }

  lemma PairWithin(l: Tuple, r: Tuple, tables: seq<string>, schema: Schema, n: nat)
    requires n < |tables| && Within(l, tables, n, schema) && Within(r, tables, n + 1, schema)
    ensures Within(l + r, tables, n + 1, schema)
  {
    forall c | c in l ensures c.tab in tables[..n + 1] {
      var i :| 0 <= i < n && tables[..n][i] == c.tab;
      assert tables[..n + 1][i] == c.tab;
    }
  }

  lemma RestrictPair(l: Tuple, r: Tuple, tables: seq<string>, schema: Schema, kept: seq<set<TabCol>>, n: nat)
    requires 0 < n < |tables| && DistinctTables(tables) && KeptOk(tables, kept) && Within(l, tables, n, schema)
    requires forall d | d in r :: d.tab == tables[n]
    ensures Restrict(l, Columns(kept, n - 1)) + Restrict(r, kept[n]) == Restrict(l + r, Columns(kept, n - 1) + kept[n])
  {
    NotAmong(tables, n);
    forall d | d in r ensures d !in Columns(kept, n - 1) {
      if d in Columns(kept, n - 1) { ColumnsTab(tables, kept, n - 1, d); }
    }
    forall d | d in l ensures d !in kept[n] { assert d.tab in tables[..n]; }
    RestrictMerge(l, r, Columns(kept, n - 1), kept[n]);
  }

  lemma {:induction false} ColumnsTab(tables: seq<string>, kept: seq<set<TabCol>>, n: nat, d: TabCol)
    requires KeptOk(tables, kept) && n < |kept| && d in Columns(kept, n)
    ensures d.tab in tables[..n + 1]
  {
    if d in kept[n] {
      assert tables[..n + 1][n] == d.tab;
    } else {
      ColumnsTab(tables, kept, n - 1, d);
      var i :| 0 <= i < n && tables[..n][i] == d.tab;
      assert tables[..n + 1][i] == d.tab;
    }
  }

  lemma RestrictMerge(l: Tuple, r: Tuple, A: set<TabCol>, B: set<TabCol>)
    requires (forall d | d in r :: d !in A) && (forall d | d in l :: d !in B)
    ensures Restrict(l, A) + Restrict(r, B) == Restrict(l + r, A + B)
  {
  }

  // ----- the whole tree -----

  /** Each part yields its table's rows, filtered and projected. */
  ghost predicate PartsOk(parts: seq<Plan>, db: Db, tables: seq<string>, singles: seq<seq<Cond>>,
                          kept: seq<set<TabCol>>) {
    && |parts| == |tables| == |singles| == |kept| && (forall i | 0 <= i < |tables| :: tables[i] in db)
    && (forall i {:trigger parts[i]} | 0 <= i < |parts| ::
          Denote(parts[i], db) == Some(Pushed(db[tables[i]], singles[i], kept[i])))
  }

  lemma AllSeparable(ls: seq<Tuple>, rs: seq<Tuple>, db: Db, tables: seq<string>, schema: Schema,
                     singles: seq<seq<Cond>>, jcs: seq<seq<Cond>>, kept: seq<set<TabCol>>, n: nat)
    requires DbOk(db, schema) && TablesOk(tables, db) && PushOk(tables, schema, singles, jcs, kept) && n + 1 < |tables|
    requires ls == Product(tables, n + 1, db) && rs == db[tables[n + 1]]
    ensures forall i, k | 0 <= i < |ls| && 0 <= k < |rs| ::
      Separable(ls[i], rs[k], Due(singles, jcs, n), singles[n + 1], jcs[n + 1], Columns(kept, n), kept[n + 1])
  {
    forall i, k | 0 <= i < |ls| && 0 <= k < |rs|
      ensures Separable(ls[i], rs[k], Due(singles, jcs, n), singles[n + 1], jcs[n + 1], Columns(kept, n), kept[n + 1])
    {
      ProductWithin(tables, db, schema, n + 1, n + 1, i);
      RowWithin(tables, db, schema, n + 1, n + 2, k);
      assert rs[k].Keys == schema[tables[n + 1]];
      PairSeparable(ls[i], rs[k], tables, schema, singles, jcs, kept, n);
    }
  }

  /** One table more. */
  lemma LeftDeepStep(parts: seq<Plan>, db: Db, tables: seq<string>, schema: Schema,
      singles: seq<seq<Cond>>, jcs: seq<seq<Cond>>, kept: seq<set<TabCol>>, n: nat)
    requires DbOk(db, schema) && TablesOk(tables, db) && PartsOk(parts, db, tables, singles, kept)
    requires PushOk(tables, schema, singles, jcs, kept) && n + 1 < |tables|
    requires Denote(LeftDeep(parts, jcs, n), db)
          == Some(Pushed(Product(tables, n + 1, db), Due(singles, jcs, n), Columns(kept, n)))
    ensures Denote(LeftDeep(parts, jcs, n + 1), db)
         == Some(Pushed(Product(tables, n + 2, db), Due(singles, jcs, n + 1), Columns(kept, n + 1)))
  {
    assert Denote(parts[n + 1], db) == Some(Pushed(db[tables[n + 1]], singles[n + 1], kept[n + 1]));
    var ls, rs := Product(tables, n + 1, db), db[tables[n + 1]];
    AllSeparable(ls, rs, db, tables, schema, singles, jcs, kept, n);
    PushThrough(ls, rs, Due(singles, jcs, n), singles[n + 1], jcs[n + 1], Columns(kept, n), kept[n + 1]);
    JoinDenotes(LeftDeep(parts, jcs, n), parts[n + 1], jcs[n + 1], db);
  }

  /** A left-deep tree yields the product of its tables, filtered by all the conditions in it, in the order of the
      product. */
  lemma {:induction false} LeftDeepDenotes(parts: seq<Plan>, db: Db, tables: seq<string>, schema: Schema,
      singles: seq<seq<Cond>>, jcs: seq<seq<Cond>>, kept: seq<set<TabCol>>, n: nat)
    requires DbOk(db, schema) && TablesOk(tables, db) && PartsOk(parts, db, tables, singles, kept)
    requires PushOk(tables, schema, singles, jcs, kept) && n < |tables|
    ensures Denote(LeftDeep(parts, jcs, n), db)
         == Some(Pushed(Product(tables, n + 1, db), Due(singles, jcs, n), Columns(kept, n)))
  {
    if n == 0 {
      assert Denote(parts[0], db) == Some(Pushed(db[tables[0]], singles[0], kept[0]));
    } else {
      LeftDeepDenotes(parts, db, tables, schema, singles, jcs, kept, n - 1);
      LeftDeepStep(parts, db, tables, schema, singles, jcs, kept, n - 1);
    }
  }
}
