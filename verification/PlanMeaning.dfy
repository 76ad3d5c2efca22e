// What the plan of a query without explicit joins yields: the product of its tables, filtered by its conditions.
module PlanMeaning {
  import opened IxDefs
  import opened ScanDefs
  import opened PlanDefs
  import opened LeftDeepPlans
  import opened FirstTable
  import opened PlanOrder
  import opened Planner

  // ----- picked and left conditions -----

  lemma {:induction false} TakeHas(conds: seq<Cond>, p: Pick, n: nat, c: Cond)
    requires n <= |conds|
    ensures c in Take(conds, p, n) <==> c in conds[..n] && Picks(p, c)
    ensures c in Leave(conds, p, n) <==> c in conds[..n] && !Picks(p, c)
  {
    if n > 0 {
      TakeHas(conds, p, n - 1, c);
      assert conds[..n] == conds[..n - 1] + [conds[n - 1]];
    }
  }

  lemma TakenHas(conds: seq<Cond>, p: Pick, c: Cond)
    ensures c in Taken(conds, p) <==> c in conds && Picks(p, c)
    ensures c in Rest(conds, p) <==> c in conds && !Picks(p, c)
  {
    TakeHas(conds, p, |conds|, c);
    assert conds[..|conds|] == conds;
  }

  /** A comparison of two columns of one table. */
  predicate SameTable(c: Cond) { c.lhs.tab == RhsTab(c) }

  lemma {:induction false} AfterTablesHas(conds: seq<Cond>, tables: seq<string>, n: nat, c: Cond)
    requires n <= |tables|
    ensures c in AfterTables(conds, tables, n) <==>
      c in conds && !(c.rhs.Value? && c.lhs.tab in tables[..n]) && !(n > 0 && SameTable(c))
  {
    if n > 0 {
      AfterTablesHas(conds, tables, n - 1, c);
      TakenHas(AfterTables(conds, tables, n - 1), ForTable(tables[n - 1]), c);
      assert tables[..n] == tables[..n - 1] + [tables[n - 1]];
    }
  }

  lemma {:induction false} FirstTablesHas(tables: seq<string>, n: nat, s: string)
    requires n <= |tables|
    ensures s in FirstTables(tables, n) <==> s in tables[..n]
  {
    if n > 0 {
      FirstTablesHas(tables, n - 1, s);
      assert tables[..n] == tables[..n - 1] + [tables[n - 1]];
    }
  }

  lemma {:induction false} AfterJoinsHas(conds: seq<Cond>, tables: seq<string>, n: nat, j: nat, c: Cond)
    requires n < |tables| && c in AfterJoins(conds, tables, n) && j <= n
    ensures c in AfterTables(conds, tables, |tables|)
    ensures j > 0 ==> !Picks(ForJoin(tables[j], FirstTables(tables, j)), c)
  {
    if n > 0 {
      TakenHas(AfterJoins(conds, tables, n - 1), ForJoin(tables[n], FirstTables(tables, n)), c);
      AfterJoinsHas(conds, tables, n - 1, if j == n then n - 1 else j, c);
    }
  }

  // ----- queries -----

  /** The columns of a condition exist, in tables of the query. */
  predicate CondOk(c: Cond, tables: seq<string>, schema: Schema) {
    && c.lhs.tab in tables && c.lhs.tab in schema && c.lhs in schema[c.lhs.tab] && c.lhs.tab != ""
    && (c.rhs.ColRef? ==> c.rhs.col.tab in tables && c.rhs.col.tab in schema && c.rhs.col in schema[c.rhs.col.tab])
  }

  predicate CondsOk(conds: seq<Cond>, tables: seq<string>, schema: Schema) {
    forall k | 0 <= k < |conds| :: CondOk(conds[k], tables, schema)
  }

  /** Comparisons of two columns of one table are only made for the first table. */
  predicate SameTableFirst(conds: seq<Cond>, tables: seq<string>)
    requires tables != []
  {
    forall k | 0 <= k < |conds| && SameTable(conds[k]) :: conds[k].lhs.tab == tables[0]
  }

  /** pop_conds takes every comparison of two columns of one table for the first table. So all conditions popped for a
      table are conditions on that table exactly when there is none for another table. */
  lemma PoppedWhereTheyBelong(conds: seq<Cond>, tables: seq<string>, schema: Schema)
    requires tables != [] && CondsOk(conds, tables, schema)
    ensures (forall i, k | 0 <= i < |tables| && 0 <= k < |SingleAt(conds, tables, i)| ::
               CondOf(SingleAt(conds, tables, i)[k], tables[i]))
       <==> SameTableFirst(conds, tables)
  {
    forall i, k | 0 <= i < |tables| && 0 <= k < |SingleAt(conds, tables, i)|
      ensures SameTableFirst(conds, tables) ==> CondOf(SingleAt(conds, tables, i)[k], tables[i])
    {
      if SameTableFirst(conds, tables) { SingleIsOf(conds, tables, schema, i, k); }
    }
    if !SameTableFirst(conds, tables) {
      var k :| 0 <= k < |conds| && SameTable(conds[k]) && conds[k].lhs.tab != tables[0];
      TakenHas(conds, ForTable(tables[0]), conds[k]);
      var single := SingleAt(conds, tables, 0);
      assert conds[k] in single;
      var j :| 0 <= j < |single| && single[j] == conds[k];
      assert !CondOf(SingleAt(conds, tables, 0)[j], tables[0]);
    }
  }

  lemma SingleIsOf(conds: seq<Cond>, tables: seq<string>, schema: Schema, i: nat, k: nat)
    requires CondsOk(conds, tables, schema) && i < |tables| && k < |SingleAt(conds, tables, i)|
    requires i > 0 || SameTableFirst(conds, tables)
    ensures SingleAt(conds, tables, i)[k] in conds && CondOf(SingleAt(conds, tables, i)[k], tables[i])
  {
    var c := SingleAt(conds, tables, i)[k];
    TakenHas(AfterTables(conds, tables, i), ForTable(tables[i]), c);
    AfterTablesHas(conds, tables, i, c);
  }

  lemma NotBefore(tables: seq<string>, i: nat, j: nat)
    requires DistinctTables(tables) && i <= j < |tables|
    ensures tables[j] !in tables[..i]
  {
    forall k | 0 <= k < i ensures tables[..i][k] != tables[j] { assert Differ(tables, k, j); }
  }

  /** A condition between two tables is gone after the join of the later one. */
  lemma TakenByLater(conds: seq<Cond>, tables: seq<string>, a: nat, b: nat, c: Cond)
    requires c.rhs.ColRef? && a < |tables| && b < |tables| && a != b
    requires c.lhs.tab == tables[a] && c.rhs.col.tab == tables[b]
    ensures c !in AfterJoins(conds, tables, |tables| - 1)
  {
    var first, later := if a < b then a else b, if a < b then b else a;
    assert tables[..later][first] == tables[first];
    FirstTablesHas(tables, later, tables[first]);
    if c in AfterJoins(conds, tables, |tables| - 1) { AfterJoinsHas(conds, tables, |tables| - 1, later, c); }
  }

  /** Nothing is left over when every condition is on tables of the query. */
  lemma NothingLeft(conds: seq<Cond>, tables: seq<string>, schema: Schema)
    requires tables != [] && CondsOk(conds, tables, schema)
    ensures AfterJoins(conds, tables, |tables| - 1) == []
  {
    var rest, n := AfterJoins(conds, tables, |tables| - 1), |tables|;
    if rest != [] {
      var c := rest[0];
      AfterJoinsHas(conds, tables, n - 1, 0, c);
      AfterTablesHas(conds, tables, n, c);
      assert tables[..n] == tables;
      var a :| 0 <= a < n && tables[a] == c.lhs.tab;
      var b :| 0 <= b < n && tables[b] == c.rhs.col.tab;
      TakenByLater(conds, tables, a, b, c);
    }
  }

  // ----- every condition once -----

  /** How often a condition occurs in the first n lists. */
  function Occurs(c: Cond, lists: seq<seq<Cond>>, n: nat): nat
    requires n <= |lists|
  {
    if n == 0 then 0 else Occurs(c, lists, n - 1) + multiset(lists[n - 1])[c]
  }

  lemma OccursNext(c: Cond, lists: seq<seq<Cond>>, n: nat, k: nat)
    requires k == n + 1 <= |lists|
    ensures Occurs(c, lists, k) == Occurs(c, lists, n) + multiset(lists[n])[c]
  {
  }

  lemma Partition(conds: seq<Cond>, p: Pick, c: Cond)
    ensures multiset(Taken(conds, p))[c] + multiset(Rest(conds, p))[c] == multiset(conds)[c]
  {
    TakeLeave(conds, p, |conds|);
    assert conds[..|conds|] == conds;
    var taken, rest := multiset(Taken(conds, p)), multiset(Rest(conds, p));
    assert (taken + rest)[c] == taken[c] + rest[c];
  }

  lemma SinglesStep(conds: seq<Cond>, tables: seq<string>, m: nat, n: nat, c: Cond)
    requires n == m + 1 <= |tables|
    ensures multiset(SingleAt(conds, tables, m))[c] + multiset(AfterTables(conds, tables, n))[c]
         == multiset(AfterTables(conds, tables, m))[c]
  {
    Partition(AfterTables(conds, tables, m), ForTable(tables[m]), c);
  }

  lemma {:induction false} SinglesSum(conds: seq<Cond>, tables: seq<string>, singles: seq<seq<Cond>>, n: nat, c: Cond)
    requires n <= |singles| == |tables| && forall i | 0 <= i < |tables| :: singles[i] == SingleAt(conds, tables, i)
    ensures Occurs(c, singles, n) + multiset(AfterTables(conds, tables, n))[c] == multiset(conds)[c]
  {
    if n > 0 {
      var m := n - 1;
      SinglesSum(conds, tables, singles, m, c);
      SinglesStep(conds, tables, m, n, c);
      OccursNext(c, singles, m, n);
    }
  }

  lemma JoinsStep(conds: seq<Cond>, tables: seq<string>, m: nat, n: nat, c: Cond)
    requires n == m + 1 < |tables|
    ensures multiset(JoinAt(conds, tables, n))[c] + multiset(AfterJoins(conds, tables, n))[c]
         == multiset(AfterJoins(conds, tables, m))[c]
  {
    Partition(AfterJoins(conds, tables, m), ForJoin(tables[n], FirstTables(tables, n)), c);
  }

  /** How often a condition is left after each join. */
  function JoinsLeft(conds: seq<Cond>, tables: seq<string>, n: nat, c: Cond): (left: seq<nat>)
    requires n <= |tables|
    ensures |left| == n && forall i | 0 <= i < n :: left[i] == multiset(AfterJoins(conds, tables, i))[c]
  {
    if n == 0 then [] else JoinsLeft(conds, tables, n - 1, c) + [multiset(AfterJoins(conds, tables, n - 1))[c]]
  }

  /** List i has what disappears at step i. */
  predicate Disappears(c: Cond, lists: seq<seq<Cond>>, left: seq<nat>, i: nat)
    requires 0 < i < |lists| == |left|
  {
    multiset(lists[i])[c] + left[i] == left[i - 1]
  }

  lemma {:induction false} Telescope(c: Cond, lists: seq<seq<Cond>>, left: seq<nat>, n: nat, k: nat)
    requires k == n + 1 <= |lists| == |left| && lists[0] == []
    requires forall i {:trigger Disappears(c, lists, left, i)} | 0 < i < |lists| :: Disappears(c, lists, left, i)
    ensures Occurs(c, lists, k) + left[n] == left[0]
  {
    OccursNext(c, lists, n, k);
    if n > 0 {
      Telescope(c, lists, left, n - 1, n);
      assert Disappears(c, lists, left, n);
    }
  }

  lemma JoinsSum(conds: seq<Cond>, tables: seq<string>, joins: seq<seq<Cond>>, left: seq<nat>, n: nat, k: nat, c: Cond)
    requires k == n + 1 == |joins| == |tables| && joins[0] == [] && left == JoinsLeft(conds, tables, |tables|, c)
    requires forall i {:trigger joins[i]} | 0 <= i < |tables| :: joins[i] == JoinAt(conds, tables, i)
    ensures Occurs(c, joins, k) + left[n] == left[0]
  {
    forall i | 0 < i < |joins| ensures Disappears(c, joins, left, i) {
      JoinsStep(conds, tables, i - 1, i, c);
    }
    Telescope(c, joins, left, n, k);
  }

  lemma CountThree(a: seq<Cond>, b: seq<Cond>, d: seq<Cond>, c: Cond)
    ensures multiset(a + b + d)[c] == multiset(a)[c] + multiset(b)[c] + multiset(d)[c]
  {
    assert multiset(a + b + d) == multiset(a) + multiset(b) + multiset(d);
  }

  lemma {:induction false} DueSum(singles: seq<seq<Cond>>, jcs: seq<seq<Cond>>, n: nat, c: Cond)
    requires n < |singles| == |jcs| && jcs[0] == []
    ensures multiset(Due(singles, jcs, n))[c] == Occurs(c, singles, n + 1) + Occurs(c, jcs, n + 1)
  {
    if n == 0 {
      assert Occurs(c, singles, 0) == 0 && Occurs(c, jcs, 0) == 0;
    } else {
      DueSum(singles, jcs, n - 1, c);
      CountThree(Due(singles, jcs, n - 1), singles[n], jcs[n], c);
    }
  }

  lemma NoLeftover(conds: seq<Cond>, tables: seq<string>, schema: Schema)
    requires tables != [] && CondsOk(conds, tables, schema)
    ensures JoinsAndLeftover(conds, tables) == Joins(conds, tables, |tables|)
  {
    NothingLeft(conds, tables, schema);
    var last := JoinAt(conds, tables, |tables| - 1);
    assert last + Leftover(conds, tables) == last;
  }

  /** Every condition of the query is attached exactly once: to a scan, or to one join. */
  lemma AttachedOnce(conds: seq<Cond>, tables: seq<string>, schema: Schema)
    requires tables != [] && CondsOk(conds, tables, schema)
    ensures multiset(Due(Singles(conds, tables, |tables|), Joins(conds, tables, |tables|), |tables| - 1))
         == multiset(conds)
  {
    var due := Due(Singles(conds, tables, |tables|), Joins(conds, tables, |tables|), |tables| - 1);
    var singles, jcs, n := Singles(conds, tables, |tables|), Joins(conds, tables, |tables|), |tables|;
    NothingLeft(conds, tables, schema);
    forall c ensures multiset(due)[c] == multiset(conds)[c] {
      SinglesSum(conds, tables, singles, n, c);
      JoinsTakeRest(conds, tables, jcs, n - 1, c);
      OccursOnce(conds, singles, jcs, n, multiset(AfterTables(conds, tables, n))[c], c);
    }
  }

  /** The joins take everything the scans leave. */
  lemma JoinsTakeRest(conds: seq<Cond>, tables: seq<string>, joins: seq<seq<Cond>>, m: nat, c: Cond)
    requires m + 1 == |joins| == |tables| && forall i | 0 <= i < |tables| :: joins[i] == JoinAt(conds, tables, i)
    requires AfterJoins(conds, tables, m) == []
    ensures Occurs(c, joins, |joins|) == multiset(AfterTables(conds, tables, |tables|))[c]
  {
    JoinsSum(conds, tables, joins, JoinsLeft(conds, tables, |tables|, c), m, |joins|, c);
  }

  lemma OccursOnce(conds: seq<Cond>, singles: seq<seq<Cond>>, jcs: seq<seq<Cond>>, n: nat, left: nat, c: Cond)
    requires n == |singles| == |jcs| > 0 && jcs[0] == []
    requires Occurs(c, singles, n) + left == multiset(conds)[c] && Occurs(c, jcs, n) == left
    ensures multiset(Due(singles, jcs, n - 1))[c] == multiset(conds)[c]
  {
    DueSum(singles, jcs, n - 1, c);
  }

  /** A condition between two tables is attached at the join that adds the later of them. */
  lemma AttachedAtLater(conds: seq<Cond>, tables: seq<string>, a: nat, b: nat, c: Cond)
    requires DistinctTables(tables) && a < b < |tables| && c in conds && c.rhs.ColRef?
    requires {c.lhs.tab, c.rhs.col.tab} == {tables[a], tables[b]} && "" !in tables
    ensures forall i | 0 <= i < |tables| :: c in JoinAt(conds, tables, i) <==> i == b
  {
    forall i | 0 <= i < |tables| ensures c in JoinAt(conds, tables, i) <==> i == b {
      if i > 0 {
        TakenHas(AfterJoins(conds, tables, i - 1), ForJoin(tables[i], FirstTables(tables, i)), c);
        PickedAt(tables, a, b, c, i);
        if i == b { StillThere(conds, tables, a, b, c, b - 1); }
      }
    }
  }

  lemma PickedAt(tables: seq<string>, a: nat, b: nat, c: Cond, i: nat)
    requires DistinctTables(tables) && a < b < |tables| && i < |tables| && c.rhs.ColRef?
    requires {c.lhs.tab, c.rhs.col.tab} == {tables[a], tables[b]}
    ensures Picks(ForJoin(tables[i], FirstTables(tables, i)), c) <==> i == b
  {
    FirstTablesHas(tables, i, tables[a]);
    FirstTablesHas(tables, i, tables[b]);
    assert Differ(tables, a, b);
    if i != a { assert if i < a then Differ(tables, i, a) else Differ(tables, a, i); }
    if i != b { assert if i < b then Differ(tables, i, b) else Differ(tables, b, i); }
    assert c.lhs.tab in {tables[a], tables[b]} && c.rhs.col.tab in {tables[a], tables[b]};
    assert tables[a] in {c.lhs.tab, c.rhs.col.tab} && tables[b] in {c.lhs.tab, c.rhs.col.tab};
    if i == b { assert tables[..i][a] == tables[a]; }
    if i <= b { NotBefore(tables, i, b); }
  }

  lemma {:induction false} StillThere(conds: seq<Cond>, tables: seq<string>, a: nat, b: nat, c: Cond, n: nat)
    requires DistinctTables(tables) && a < b < |tables| && n < b && c in conds && c.rhs.ColRef?
    requires {c.lhs.tab, c.rhs.col.tab} == {tables[a], tables[b]} && "" !in tables
    ensures c in AfterJoins(conds, tables, n)
  {
    if n == 0 {
      AfterTablesHas(conds, tables, |tables|, c);
      assert Differ(tables, a, b);
      assert tables[a] in {c.lhs.tab, c.rhs.col.tab} && tables[b] in {c.lhs.tab, c.rhs.col.tab};
    } else {
      StillThere(conds, tables, a, b, c, n - 1);
      PickedAt(tables, a, b, c, n);
      TakenHas(AfterJoins(conds, tables, n - 1), ForJoin(tables[n], FirstTables(tables, n)), c);
    }
  }

  // ----- what the plan yields -----

  /** All columns of each table. */
  function AllColumns(tables: seq<string>, schema: Schema, n: nat): (r: seq<set<TabCol>>)
    requires n <= |tables| && forall i | 0 <= i < |tables| :: tables[i] in schema
    ensures |r| == n && forall i | 0 <= i < n :: r[i] == schema[tables[i]]
  {
    if n == 0 then [] else AllColumns(tables, schema, n - 1) + [schema[tables[n - 1]]]
  }

  lemma RestrictNothing(t: Tuple, cols: set<TabCol>)
    requires t.Keys <= cols
    ensures Restrict(t, cols) == t
  {
  }

  lemma {:induction false} RestrictAllNothing(rows: seq<Tuple>, cols: set<TabCol>)
    requires forall i | 0 <= i < |rows| :: rows[i].Keys <= cols
    ensures RestrictAll(rows, cols) == rows
  {
    if rows != [] {
      RestrictNothing(rows[0], cols);
      RestrictAllNothing(rows[1..], cols);
    }
  }

  lemma {:induction false} KeepFrom(rows: seq<Tuple>, cs: seq<Cond>, i: nat)
    requires i < |Keep(rows, cs)|
    ensures Keep(rows, cs)[i] in rows && AllPass(cs, Keep(rows, cs)[i])
  {
    var first := if AllPass(cs, rows[0]) then 1 else 0;
    if i >= first { KeepFrom(rows[1..], cs, i - first); }
  }

  lemma {:induction false} KeepTwice(rows: seq<Tuple>, cs: seq<Cond>)
    ensures Keep(Keep(rows, cs), cs) == Keep(rows, cs)
  {
    if rows != [] {
      var rest := Keep(rows[1..], cs);
      KeepTwice(rows[1..], cs);
      if AllPass(cs, rows[0]) {
        assert Keep(rows, cs) == [rows[0]] + rest && ([rows[0]] + rest)[1..] == rest;
      } else {
        assert Keep(rows, cs) == rest;
      }
    }
  }

  lemma {:induction false} KeepSame(rows: seq<Tuple>, cs: seq<Cond>, ds: seq<Cond>)
    requires multiset(cs) == multiset(ds)
    ensures Keep(rows, cs) == Keep(rows, ds)
  {
    if rows != [] {
      SameConds(cs, ds, rows[0]);
      KeepSame(rows[1..], cs, ds);
    }
  }

  /** A table's conditions have their columns in every row of the table. */
  lemma SingleFits(conds: seq<Cond>, tables: seq<string>, db: Db, schema: Schema, i: nat, r: nat)
    requires DbOk(db, schema) && TablesOk(tables, db) && CondsOk(conds, tables, schema)
    requires i < |tables| && (i > 0 || SameTableFirst(conds, tables)) && r < |db[tables[i]]|
    ensures AllHave(SingleAt(conds, tables, i), db[tables[i]][r])
  {
    var single := SingleAt(conds, tables, i);
    forall k | 0 <= k < |single| ensures Has(db[tables[i]][r], single[k]) {
      SingleIsOf(conds, tables, schema, i, k);
      var j :| 0 <= j < |conds| && conds[j] == single[k];
      assert CondOk(conds[j], tables, schema);
      assert db[tables[i]][r].Keys == schema[tables[i]];
    }
  }

  /** What the scan plan of a table yields. */
  lemma PartDenotes(conds: seq<Cond>, tables: seq<string>, indexes: map<string, seq<seq<string>>>, db: Db,
                    schema: Schema, i: nat)
    requires DbOk(db, schema) && TablesOk(tables, db) && CondsOk(conds, tables, schema)
    requires i < |tables| && (i > 0 || SameTableFirst(conds, tables))
    ensures Denote(PartAt(conds, tables, indexes, i), db)
         == Some(Pushed(db[tables[i]], SingleAt(conds, tables, i), schema[tables[i]]))
  {
    var rows, single := db[tables[i]], SingleAt(conds, tables, i);
    forall r | 0 <= r < |rows| ensures AllHave(single, rows[r]) { SingleFits(conds, tables, db, schema, i, r); }
    FilterKeeps(rows, single);
    var kept := Keep(rows, single);
    forall r | 0 <= r < |kept| ensures AllHave(single, kept[r]) && kept[r].Keys <= schema[tables[i]] {
      KeepFrom(rows, single, r);
      var k :| 0 <= k < |rows| && rows[k] == kept[r];
      assert rows[k].Keys == schema[tables[i]];
    }
    FilterKeeps(kept, single);
    KeepTwice(rows, single);
    RestrictAllNothing(kept, schema[tables[i]]);
  }

  lemma JoinIsWithin(conds: seq<Cond>, tables: seq<string>, i: nat, k: nat)
    requires 0 < i < |tables| && k < |JoinAt(conds, tables, i)|
    ensures CondWithin(JoinAt(conds, tables, i)[k], tables, i + 1)
  {
    var c := JoinAt(conds, tables, i)[k];
    TakenHas(AfterJoins(conds, tables, i - 1), ForJoin(tables[i], FirstTables(tables, i)), c);
    FirstTablesHas(tables, i, c.lhs.tab);
    FirstTablesHas(tables, i, c.rhs.col.tab);
    assert tables[..i + 1] == tables[..i] + [tables[i]];
  }

  /** The plan pushes only what may be pushed. */
  lemma OneRelPushOk(conds: seq<Cond>, tables: seq<string>, db: Db, schema: Schema)
    requires DbOk(db, schema) && TablesOk(tables, db) && CondsOk(conds, tables, schema) && tables != []
    requires SameTableFirst(conds, tables)
    ensures PushOk(tables, schema, Singles(conds, tables, |tables|), Joins(conds, tables, |tables|),
                   AllColumns(tables, schema, |tables|))
  {
    var n := |tables|;
    var kept := AllColumns(tables, schema, n);
    forall i, k | 0 <= i < n && 0 <= k < |Singles(conds, tables, n)[i]|
      ensures CondOf(Singles(conds, tables, n)[i][k], tables[i])
    {
      SingleIsOf(conds, tables, schema, i, k);
    }
    forall i, k | 0 < i < n && 0 <= k < |Joins(conds, tables, n)[i]|
      ensures CondWithin(Joins(conds, tables, n)[i][k], tables, i + 1)
    {
      JoinIsWithin(conds, tables, i, k);
    }
    assert forall c: TabCol, i | 0 <= i < n :: KeptFor(c, tables, i, schema, kept);
  }

  lemma ColumnsAll(tables: seq<string>, schema: Schema, n: nat)
    requires n < |tables| && forall i | 0 <= i < |tables| :: tables[i] in schema
    ensures Columns(AllColumns(tables, schema, |tables|), n) == SchemaOf(tables, schema, n + 1)
  {
    if n == 0 {
      assert SchemaOf(tables, schema, 1) == SchemaOf(tables, schema, 0) + schema[tables[0]];
    } else {
      ColumnsAll(tables, schema, n - 1);
    }
  }

  lemma OneRelPartsOk(tables: seq<string>, conds: seq<Cond>, indexes: map<string, seq<seq<string>>>, db: Db,
                      schema: Schema)
    requires DbOk(db, schema) && TablesOk(tables, db) && CondsOk(conds, tables, schema) && tables != []
    requires SameTableFirst(conds, tables)
    ensures PartsOk(Parts(conds, tables, indexes, |tables|), db, tables, Singles(conds, tables, |tables|),
                    AllColumns(tables, schema, |tables|))
  {
    var parts := Parts(conds, tables, indexes, |tables|);
    forall i | 0 <= i < |parts|
      ensures Denote(parts[i], db) == Some(Pushed(db[tables[i]], SingleAt(conds, tables, i), schema[tables[i]]))
    {
      PartDenotes(conds, tables, indexes, db, schema, i);
    }
  }

  /** What the tree of the plan yields, before the conditions are put in order and the columns counted. */
  lemma OneRelTree(tables: seq<string>, conds: seq<Cond>, parts: seq<Plan>, db: Db, schema: Schema,
                   singles: seq<seq<Cond>>, jcs: seq<seq<Cond>>, kept: seq<set<TabCol>>)
    requires DbOk(db, schema) && TablesOk(tables, db) && CondsOk(conds, tables, schema) && tables != []
    requires SameTableFirst(conds, tables) && PartsOk(parts, db, tables, singles, kept)
    requires singles == Singles(conds, tables, |tables|) && jcs == Joins(conds, tables, |tables|)
    requires kept == AllColumns(tables, schema, |tables|)
    ensures Denote(LeftDeep(parts, jcs, |tables| - 1), db) == Some(Keep(Product(tables, |tables|, db), conds))
  {
    OneRelPushOk(conds, tables, db, schema);
    LeftDeepDenotes(parts, db, tables, schema, singles, jcs, kept, |tables| - 1);
    AttachedOnce(conds, tables, schema);
    KeepSame(Product(tables, |tables|, db), Due(singles, jcs, |tables| - 1), conds);
    WholeRows(tables, db, schema, conds);
  }

  lemma PlanIsTree(tables: seq<string>, conds: seq<Cond>, indexes: map<string, seq<seq<string>>>, schema: Schema)
    requires CondsOk(conds, tables, schema) && tables != []
    ensures OneRelPlan(tables, conds, indexes)
         == LeftDeep(Parts(conds, tables, indexes, |tables|), Joins(conds, tables, |tables|), |tables| - 1)
  {
    NoLeftover(conds, tables, schema);
  }

  /** The plan of a query whose same-table comparisons are on the first table. */
  lemma OwnTablesDenote(tables: seq<string>, conds: seq<Cond>, indexes: map<string, seq<seq<string>>>, db: Db,
                        schema: Schema)
    requires DbOk(db, schema) && TablesOk(tables, db) && tables != []
    requires CondsOk(conds, tables, schema) && SameTableFirst(conds, tables)
    ensures Denote(OneRelPlan(tables, conds, indexes), db) == Some(Keep(Product(tables, |tables|, db), conds))
  {
    OneRelPartsOk(tables, conds, indexes, db, schema);
    OneRelTree(tables, conds, Parts(conds, tables, indexes, |tables|), db, schema, Singles(conds, tables, |tables|),
               Joins(conds, tables, |tables|), AllColumns(tables, schema, |tables|));
    PlanIsTree(tables, conds, indexes, schema);
  }

  /** No row of the first table gets as far as a comparison of two columns of another table. */
  predicate FirstTableScans(conds: seq<Cond>, tables: seq<string>, db: Db)
    requires tables != [] && tables[0] in db
  {
    AllEvaluate(db[tables[0]], SingleAt(conds, tables, 0))
  }

  /** There is no such comparison among the conditions of most queries. */
  lemma OwnConditionsScan(conds: seq<Cond>, tables: seq<string>, db: Db, schema: Schema)
    requires DbOk(db, schema) && TablesOk(tables, db) && CondsOk(conds, tables, schema) && tables != []
    requires SameTableFirst(conds, tables)
    ensures FirstTableScans(conds, tables, db)
  {
    forall r | 0 <= r < |db[tables[0]]| ensures Evaluate(db[tables[0]][r], SingleAt(conds, tables, 0), 0).Some? {
      SingleFits(conds, tables, db, schema, 0, r);
      EvaluateAll(db[tables[0]][r], SingleAt(conds, tables, 0), 0);
    }
  }

  /** If there is one, and no row of the first table gets to it, then every row has failed a condition before. */
  lemma MisplacedFails(conds: seq<Cond>, tables: seq<string>, db: Db, schema: Schema)
    requires DbOk(db, schema) && TablesOk(tables, db) && tables != []
    requires !SameTableFirst(conds, tables) && FirstTableScans(conds, tables, db)
    ensures Keep(db[tables[0]], SingleAt(conds, tables, 0)) == [] && AllFail(db[tables[0]], SingleAt(conds, tables, 0))
  {
    var rows, single := db[tables[0]], SingleAt(conds, tables, 0);
    var k :| 0 <= k < |conds| && SameTable(conds[k]) && conds[k].lhs.tab != tables[0];
    TakenHas(conds, ForTable(tables[0]), conds[k]);
    assert conds[k] in single;
    var j :| 0 <= j < |single| && single[j] == conds[k];
    forall r | 0 <= r < |rows| ensures !Has(rows[r], single[j]) { assert rows[r].Keys == schema[tables[0]]; }
    NoneKept(rows, single, j);
    forall r | 0 <= r < |rows| ensures FailsOne(rows[r], single) {
      EvaluateSome(rows[r], single, 0);
    }
  }

  /** What the scan of the first table yields, whatever its conditions. */
  lemma FirstPartDenotes(conds: seq<Cond>, tables: seq<string>, indexes: map<string, seq<seq<string>>>, db: Db)
    requires tables != [] && tables[0] in db
    ensures Denote(PartAt(conds, tables, indexes, 0), db)
         == if FirstTableScans(conds, tables, db) then Some(Keep(db[tables[0]], SingleAt(conds, tables, 0))) else None
  {
    var rows, single := db[tables[0]], SingleAt(conds, tables, 0);
    FilterSome(rows, single);
    if FirstTableScans(conds, tables, db) {
      KeptEvaluate(rows, single);
      FilterSome(Keep(rows, single), single);
      KeepTwice(rows, single);
    }
  }

  /** The plan of a query with a comparison that throws or is not reached. */
  lemma MisplacedDenotes(tables: seq<string>, conds: seq<Cond>, indexes: map<string, seq<seq<string>>>, db: Db,
                         schema: Schema)
    requires DbOk(db, schema) && TablesOk(tables, db) && tables != [] && CondsOk(conds, tables, schema)
    requires !SameTableFirst(conds, tables) && FirstTableScans(conds, tables, db)
    ensures Denote(OneRelPlan(tables, conds, indexes), db) == Some([])
    ensures Keep(Product(tables, |tables|, db), conds) == []
  {
    var n := |tables|;
    var parts, rows, single := Parts(conds, tables, indexes, n), db[tables[0]], SingleAt(conds, tables, 0);
    MisplacedFails(conds, tables, db, schema);
    FirstPartDenotes(conds, tables, indexes, db);
    forall i | 0 <= i < n ensures Denote(parts[i], db).Some? {
      if i > 0 { PartDenotes(conds, tables, indexes, db, schema, i); }
    }
    PlanIsTree(tables, conds, indexes, schema);
    EmptyPart(parts, Joins(conds, tables, n), db, 0, n - 1);
    forall r, j | 0 <= r < |rows| && 0 <= j < |single| && Has(rows[r], single[j]) ensures single[j] in conds {
      TakenHas(conds, ForTable(tables[0]), single[j]);
    }
    FailIn(rows, single, conds);
    ProductExtends(tables, db, schema, n);
    ExtendedFail(Product(tables, n, db), rows, conds);
  }

  lemma FirstScanThrows(tables: seq<string>, conds: seq<Cond>, indexes: map<string, seq<seq<string>>>, db: Db,
                        schema: Schema)
    requires tables != [] && tables[0] in db && CondsOk(conds, tables, schema) && !FirstTableScans(conds, tables, db)
    ensures Denote(OneRelPlan(tables, conds, indexes), db) == None
  {
    var n := |tables|;
    var parts, jcs := Parts(conds, tables, indexes, n), Joins(conds, tables, n);
    assert Denote(parts[0], db) == None by { FirstPartDenotes(conds, tables, indexes, db); }
    assert OneRelPlan(tables, conds, indexes) == LeftDeep(parts, jcs, n - 1) by {
      PlanIsTree(tables, conds, indexes, schema);
    }
    ThrowingPart(parts, jcs, db, 0, n - 1);
  }

  /** The plan make_one_rel builds yields the product of the listed tables filtered by all conditions, in the order of
      the product, exactly when no row of the first table gets as far as a comparison of two columns of another table;
      otherwise it throws. */
  lemma OneRelDenotes(tables: seq<string>, conds: seq<Cond>, indexes: map<string, seq<seq<string>>>, db: Db,
                      schema: Schema)
    requires DbOk(db, schema) && TablesOk(tables, db) && tables != [] && CondsOk(conds, tables, schema)
    ensures Denote(OneRelPlan(tables, conds, indexes), db)
         == if FirstTableScans(conds, tables, db) then Some(Keep(Product(tables, |tables|, db), conds)) else None
  {
    if !FirstTableScans(conds, tables, db) {
      FirstScanThrows(tables, conds, indexes, db, schema);
    } else if SameTableFirst(conds, tables) {
      OwnTablesDenote(tables, conds, indexes, db, schema);
    } else {
      MisplacedDenotes(tables, conds, indexes, db, schema);
    }
  }

  /** Keeping all columns changes nothing. */
  lemma WholeRows(tables: seq<string>, db: Db, schema: Schema, cs: seq<Cond>)
    requires DbOk(db, schema) && TablesOk(tables, db) && tables != []
    ensures var rows := Keep(Product(tables, |tables|, db), cs);
      RestrictAll(rows, Columns(AllColumns(tables, schema, |tables|), |tables| - 1)) == rows
  {
    var n := |tables|;
    var rows := Keep(Product(tables, n, db), cs);
    ColumnsAll(tables, schema, n - 1);
    ProductKeys(tables, db, schema, n);
    forall i | 0 <= i < |rows| ensures rows[i].Keys <= SchemaOf(tables, schema, n) {
      KeepFrom(Product(tables, n, db), cs, i);
      var k :| 0 <= k < |Product(tables, n, db)| && Product(tables, n, db)[k] == rows[i];
    }
    RestrictAllNothing(rows, SchemaOf(tables, schema, n));
  }

  /** Where it goes wrong: B.x = B.z is checked by the scan of A, which has no such columns and throws. */
  lemma WrongTable()
    ensures var ax, bx, bz := TabCol("A", "x"), TabCol("B", "x"), TabCol("B", "z");
      var db: Db := map["A" := [map[ax := 1]], "B" := [map[bx := 2, bz := 2]]];
      var schema: Schema := map["A" := {ax}, "B" := {bx, bz}];
      var conds := [Cond(bx, OP_EQ, ColRef(bz))];
      && DbOk(db, schema) && TablesOk(["A", "B"], db) && CondsOk(conds, ["A", "B"], schema)
      && !SameTableFirst(conds, ["A", "B"])
      && Denote(OneRelPlan(["A", "B"], conds, map[]), db) == None
      && Keep(Product(["A", "B"], 2, db), conds) == [map[ax := 1, bx := 2, bz := 2]]
  {
    var ax, bx, bz := TabCol("A", "x"), TabCol("B", "x"), TabCol("B", "z");
    var ra: Tuple, rb: Tuple := map[ax := 1], map[bx := 2, bz := 2];
    var db: Db := map["A" := [ra], "B" := [rb]];
    var c := Cond(bx, OP_EQ, ColRef(bz));
    var conds, tables := [c], ["A", "B"];
    assert !SameTableFirst(conds, tables) by { assert SameTable(conds[0]) && conds[0].lhs.tab != tables[0]; }
    assert ra.Keys == {ax} && rb.Keys == {bx, bz};
    ThrowsAtFirst(db, tables, conds, c, ra);
    assert Product(tables, 2, db) == [ra + rb] by { ProductOfTwo(ra, rb, db, tables); }
    assert ra + rb == map[ax := 1, bx := 2, bz := 2];
    KeepOne(ra + rb, c);
  }

  lemma KeepOne(row: Tuple, c: Cond)
    requires Passes(c, row)
    ensures Keep([row], [c]) == [row]
  {
    assert [row][1..] == [];
  }

  lemma ThrowsAtFirst(db: Db, tables: seq<string>, conds: seq<Cond>, c: Cond, row: Tuple)
    requires |tables| == 2 && tables[0] in db && db[tables[0]] == [row] && conds == [c] && SameTable(c) && !Has(row, c)
    ensures Denote(OneRelPlan(tables, conds, map[]), db) == None
  {
    assert Take(conds, ForTable(tables[0]), 1) == Take(conds, ForTable(tables[0]), 0) + [c] == [c];
    assert SingleAt(conds, tables, 0) == [c];
    assert Evaluate(row, [c], 0) == None;
    assert FilterRows([row], [c]) == None;
    var part := PartAt(conds, tables, map[], 0);
    assert Denote(part, db) == None;
    var parts, jcs := Parts(conds, tables, map[], 2), JoinsAndLeftover(conds, tables);
    assert LeftDeep(parts, jcs, 1) == Join(LeftDeep(parts, jcs, 0), parts[1], jcs[1]);
  }

  lemma ProductOfTwo(ra: Tuple, rb: Tuple, db: Db, tables: seq<string>)
    requires |tables| == 2 && (forall i | 0 <= i < |tables| :: tables[i] in db) && db[tables[0]] == [ra]
    requires db[tables[1]] == [rb]
    ensures Product(tables, 2, db) == [ra + rb]
  {
    assert Product(tables, 2, db) == JoinRows([ra], [rb], []);
    assert [ra][1..] == [] && [rb][1..] == [];
    assert JoinRow(ra, [rb], []) == [ra + rb] + JoinRow(ra, [], []);
    assert JoinRows([ra], [rb], []) == JoinRow(ra, [rb], []) + JoinRows([], [rb], []);
  }
}
