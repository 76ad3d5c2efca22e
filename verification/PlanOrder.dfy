// The order of the tables does not matter for the rows of their product, as a multiset.
module PlanOrder {
  import opened PlanDefs
  import opened LeftDeepPlans

  // ----- counting rows of a join -----

  /** Rows with columns A only on the left, B only on the right. */
  predicate AllKeys(rows: seq<Tuple>, cols: set<TabCol>) {
    forall i | 0 <= i < |rows| :: rows[i].Keys == cols
  }

  lemma MergeSplits(l: Tuple, r: Tuple, t: Tuple, A: set<TabCol>, B: set<TabCol>)
    requires A !! B && l.Keys == A && r.Keys == B
    ensures l + r == t <==> t.Keys == A + B && l == Restrict(t, A) && r == Restrict(t, B)
  {
    if l + r == t {
      assert l == Restrict(t, A) && r == Restrict(t, B);
    }
    if t.Keys == A + B && l == Restrict(t, A) && r == Restrict(t, B) {
      assert l + r == t;
    }
  }

  lemma CountConcat(a: seq<Tuple>, b: seq<Tuple>, t: Tuple)
    ensures multiset(a + b)[t] == multiset(a)[t] + multiset(b)[t]
  {
  }

  lemma CountCons(x: Tuple, s: seq<Tuple>, t: Tuple)
    ensures multiset([x] + s)[t] == (if x == t then 1 else 0) + multiset(s)[t]
  {
  }

  lemma {:induction false} JoinRowCount(l: Tuple, rs: seq<Tuple>, t: Tuple, A: set<TabCol>, B: set<TabCol>)
    requires A !! B && l.Keys == A && AllKeys(rs, B)
    ensures multiset(JoinRow(l, rs, []))[t]
         == if t.Keys == A + B && l == Restrict(t, A) then multiset(rs)[Restrict(t, B)] else 0
  {
    if rs != [] {
      var r, rest := rs[0], rs[1..];
      assert AllKeys(rest, B) by { AllKeysRest(rs, B); }
      JoinRowCount(l, rest, t, A, B);
      MergeSplits(l, r, t, A, B);
      JoinRowCons(l, r, rest, []);
      CountCons(l + r, JoinRow(l, rest, []), t);
      CountCons(r, rest, Restrict(t, B));
      assert rs == [r] + rest;
    }
  }

  lemma AllKeysRest(rows: seq<Tuple>, cols: set<TabCol>)
    requires rows != [] && AllKeys(rows, cols)
    ensures AllKeys(rows[1..], cols)
  {
  }

  /** One left row more. */
  lemma JoinRowsSplit(l: Tuple, rest: seq<Tuple>, rs: seq<Tuple>, t: Tuple)
    ensures multiset(JoinRows([l] + rest, rs, []))[t]
         == multiset(JoinRow(l, rs, []))[t] + multiset(JoinRows(rest, rs, []))[t]
  {
    JoinRowsCons(l, rest, rs, []);
    CountConcat(JoinRow(l, rs, []), JoinRows(rest, rs, []), t);
  }

  /** The same, in numbers: row is its own contribution, total and left are with it, total' and left' without it. */
  lemma Contribution(matches: bool, row: nat, total: nat, total': nat, left: nat, left': nat, right: nat)
    requires row == (if matches then right else 0) && total == row + total'
    requires left == (if matches then 1 else 0) + left'
    requires total' == left' * right
    ensures total == left * right
  {
  }

  /** A row occurs in a join as often as its left part on the left times its right part on the right. */
  lemma {:induction false} JoinRowsCount(ls: seq<Tuple>, rs: seq<Tuple>, t: Tuple, A: set<TabCol>, B: set<TabCol>)
    requires A !! B && AllKeys(ls, A) && AllKeys(rs, B)
    ensures multiset(JoinRows(ls, rs, []))[t]
         == if t.Keys == A + B then multiset(ls)[Restrict(t, A)] * multiset(rs)[Restrict(t, B)] else 0
  {
    if ls != [] {
      var l, rest := ls[0], ls[1..];
      var u, v := Restrict(t, A), Restrict(t, B);
      assert l.Keys == A && AllKeys(rest, A) by { AllKeysRest(ls, A); }
      JoinRowsCount(rest, rs, t, A, B);
      JoinRowCount(l, rs, t, A, B);
      assert ls == [l] + rest;
      JoinRowsSplit(l, rest, rs, t);
      CountCons(l, rest, u);
      if t.Keys == A + B {
        Contribution(l == u, multiset(JoinRow(l, rs, []))[t], multiset(JoinRows(ls, rs, []))[t],
                     multiset(JoinRows(rest, rs, []))[t], multiset(ls)[u], multiset(rest)[u], multiset(rs)[v]);
      }
    }
  }

  // ----- counting rows of a product -----

  function SchemaOf(tables: seq<string>, schema: Schema, n: nat): set<TabCol>
    requires n <= |tables| && forall i | 0 <= i < |tables| :: tables[i] in schema
  {
    if n == 0 then {} else SchemaOf(tables, schema, n - 1) + schema[tables[n - 1]]
  }

  /** How often the part of t that belongs to a table occurs in it. */
  function PartCount(t: Tuple, tab: string, db: Db, schema: Schema): nat
    requires tab in db && tab in schema
  {
    multiset(db[tab])[Restrict(t, schema[tab])]
  }

  function PartCounts(t: Tuple, tables: seq<string>, n: nat, db: Db, schema: Schema): nat
    requires n <= |tables| && forall i | 0 <= i < |tables| :: tables[i] in db && tables[i] in schema
  {
    if n == 0 then 1 else PartCounts(t, tables, n - 1, db, schema) * PartCount(t, tables[n - 1], db, schema)
  }

  lemma {:induction false} SchemaTabs(tables: seq<string>, schema: Schema, n: nat, c: TabCol)
    requires n <= |tables| && (forall i | 0 <= i < |tables| :: tables[i] in schema)
    requires forall tab, d {:trigger d in schema[tab]} | tab in schema && d in schema[tab] :: d.tab == tab
    ensures c in SchemaOf(tables, schema, n) <==> c.tab in tables[..n] && c.tab in schema && c in schema[c.tab]
  {
    if n > 0 {
      SchemaTabs(tables, schema, n - 1, c);
      assert tables[..n] == tables[..n - 1] + [tables[n - 1]];
    }
  }

  /** The columns of the next table are new. */
  lemma NewColumns(tables: seq<string>, db: Db, schema: Schema, n: nat)
    requires DbOk(db, schema) && TablesOk(tables, db) && 0 < n < |tables|
    ensures SchemaOf(tables, schema, n) !! schema[tables[n]]
  {
    forall c | c in schema[tables[n]] ensures c !in SchemaOf(tables, schema, n) {
      SchemaTabs(tables, schema, n, c);
      NotAmong(tables, n);
    }
  }

  lemma {:induction false} JoinRowKeys(l: Tuple, rs: seq<Tuple>, A: set<TabCol>, B: set<TabCol>)
    requires l.Keys == A && AllKeys(rs, B)
    ensures AllKeys(JoinRow(l, rs, []), A + B)
  {
    if rs != [] {
      var rest := rs[1..];
      forall i | 0 <= i < |rest| ensures rest[i].Keys == B { assert rest[i] == rs[i + 1]; }
      JoinRowKeys(l, rest, A, B);
      assert (l + rs[0]).Keys == A + B;
    }
  }

  lemma {:induction false} JoinRowsKeys(ls: seq<Tuple>, rs: seq<Tuple>, A: set<TabCol>, B: set<TabCol>)
    requires AllKeys(ls, A) && AllKeys(rs, B)
    ensures AllKeys(JoinRows(ls, rs, []), A + B)
  {
    if ls != [] {
      var rest := ls[1..];
      forall i | 0 <= i < |rest| ensures rest[i].Keys == A { assert rest[i] == ls[i + 1]; }
      JoinRowsKeys(rest, rs, A, B);
      JoinRowKeys(ls[0], rs, A, B);
    }
  }

  lemma TableKeys(tab: string, db: Db, schema: Schema)
    requires DbOk(db, schema) && tab in db
    ensures tab in schema && AllKeys(db[tab], schema[tab])
  {
    forall i | 0 <= i < |db[tab]| ensures db[tab][i].Keys == schema[tab] {}
  }

  lemma {:induction false} ProductKeys(tables: seq<string>, db: Db, schema: Schema, n: nat)
    requires DbOk(db, schema) && TablesOk(tables, db) && 0 < n <= |tables|
    ensures AllKeys(Product(tables, n, db), SchemaOf(tables, schema, n))
  {
    TableKeys(tables[n - 1], db, schema);
    if n == 1 {
      assert SchemaOf(tables, schema, 1) == schema[tables[0]];
    } else {
      ProductKeys(tables, db, schema, n - 1);
      JoinRowsKeys(Product(tables, n - 1, db), db[tables[n - 1]], SchemaOf(tables, schema, n - 1),
                   schema[tables[n - 1]]);
    }
  }

  lemma RestrictTwice(t: Tuple, A: set<TabCol>, B: set<TabCol>)
    requires B <= A
    ensures Restrict(Restrict(t, A), B) == Restrict(t, B)
  {
  }

  lemma {:induction false} PartCountsSame(t: Tuple, u: Tuple, tables: seq<string>, n: nat, db: Db, schema: Schema)
    requires n <= |tables| && forall i | 0 <= i < |tables| :: tables[i] in db && tables[i] in schema
    requires u == Restrict(t, SchemaOf(tables, schema, n))
    ensures PartCounts(u, tables, n, db, schema) == PartCounts(t, tables, n, db, schema)
  {
    if n > 0 {
      var all, rest := SchemaOf(tables, schema, n), SchemaOf(tables, schema, n - 1);
      RestrictTwice(t, all, schema[tables[n - 1]]);
      RestrictTwice(t, all, rest);
      PartCountsSame(t, Restrict(t, rest), tables, n - 1, db, schema);
      PartCountsSame(u, Restrict(t, rest), tables, n - 1, db, schema);
    }
  }

  /** One table more. */
  lemma ProductCountStep(tables: seq<string>, db: Db, schema: Schema, k: nat, n: nat, t: Tuple, u: Tuple)
    requires DbOk(db, schema) && TablesOk(tables, db) && 0 < k && n == k + 1 <= |tables|
    requires u == Restrict(t, SchemaOf(tables, schema, k))
    requires multiset(Product(tables, k, db))[u]
          == if u.Keys == SchemaOf(tables, schema, k) then PartCounts(u, tables, k, db, schema) else 0
    ensures multiset(Product(tables, n, db))[t]
         == if t.Keys == SchemaOf(tables, schema, n) then PartCounts(t, tables, n, db, schema) else 0
  {
    var A, B, ls, rs := SchemaOf(tables, schema, k), schema[tables[k]], Product(tables, k, db), db[tables[k]];
    var inLeft, inRight := multiset(ls)[u], multiset(rs)[Restrict(t, B)];
    assert multiset(JoinRows(ls, rs, []))[t] == if t.Keys == A + B then inLeft * inRight else 0 by {
      NewColumns(tables, db, schema, k);
      ProductKeys(tables, db, schema, k);
      TableKeys(tables[k], db, schema);
      JoinRowsCount(ls, rs, t, A, B);
    }
    if t.Keys == A + B {
      assert u.Keys == A;
      assert inLeft == PartCounts(t, tables, k, db, schema) by { PartCountsSame(t, u, tables, k, db, schema); }
      assert PartCounts(t, tables, n, db, schema) == inLeft * inRight;
    }
  }

  /** A row occurs in a product as often as its parts occur in the tables, multiplied. */
  lemma {:induction false} ProductCount(tables: seq<string>, db: Db, schema: Schema, n: nat, t: Tuple)
    requires DbOk(db, schema) && TablesOk(tables, db) && 0 < n <= |tables|
    ensures multiset(Product(tables, n, db))[t]
         == if t.Keys == SchemaOf(tables, schema, n) then PartCounts(t, tables, n, db, schema) else 0
  {
    if n == 1 {
      TableKeys(tables[0], db, schema);
      assert SchemaOf(tables, schema, 1) == schema[tables[0]];
      assert PartCounts(t, tables, 1, db, schema) == PartCount(t, tables[0], db, schema);
      if t.Keys == schema[tables[0]] { assert Restrict(t, schema[tables[0]]) == t; }
    } else {
      var u := Restrict(t, SchemaOf(tables, schema, n - 1));
      ProductCount(tables, db, schema, n - 1, u);
      ProductCountStep(tables, db, schema, n - 1, n, t, u);
    }
  }

  // ----- reordering -----

  predicate Known(tables: seq<string>, db: Db, schema: Schema) {
    forall k | 0 <= k < |tables| :: tables[k] in db && tables[k] in schema
  }

  /** Without table i, the other factors remain. */
  lemma {:induction false} TakeOut(t: Tuple, tables: seq<string>, rest: seq<string>, i: nat, n: nat, db: Db,
                                   schema: Schema)
    requires i < n <= |tables| && rest == tables[..i] + tables[i + 1..]
    requires Known(tables, db, schema) && Known(rest, db, schema)
    ensures PartCounts(t, tables, n, db, schema)
         == PartCounts(t, rest, n - 1, db, schema) * PartCount(t, tables[i], db, schema)
    decreases n
  {
    if i == n - 1 {
      SamePrefix(t, tables, rest, i, db, schema);
    } else {
      TakeOut(t, tables, rest, i, n - 1, db, schema);
      assert rest[n - 2] == tables[n - 1];
      Swap(PartCounts(t, rest, n - 2, db, schema), PartCount(t, tables[i], db, schema),
           PartCount(t, tables[n - 1], db, schema));
    }
  }

  lemma Swap(x: nat, y: nat, z: nat)
    ensures x * y * z == x * z * y
  {
  }

  lemma {:induction false} SamePrefix(t: Tuple, a: seq<string>, b: seq<string>, n: nat, db: Db, schema: Schema)
    requires n <= |a| && n <= |b| && a[..n] == b[..n] && Known(a, db, schema) && Known(b, db, schema)
    ensures PartCounts(t, a, n, db, schema) == PartCounts(t, b, n, db, schema)
  {
    if n > 0 {
      assert a[..n][n - 1] == b[..n][n - 1];
      assert a[..n - 1] == a[..n][..n - 1] && b[..n - 1] == b[..n][..n - 1];
      SamePrefix(t, a, b, n - 1, db, schema);
    }
  }

  /** An element of one list, taken out of another list with the same elements. */
  lemma Match<T>(a: seq<T>, x: T, b: seq<T>) returns (i: nat)
    requires multiset(a) + multiset{x} == multiset(b)
    ensures i < |b| && b[i] == x && multiset(a) == multiset(b[..i] + b[i + 1..])
  {
    assert x in multiset(b);
    i :| 0 <= i < |b| && b[i] == x;
    assert b == b[..i] + [x] + b[i + 1..];
    assert multiset(b) - multiset{x} == multiset(b[..i] + b[i + 1..]);
    assert multiset(a) + multiset{x} - multiset{x} == multiset(a);
  }

  lemma {:induction false} Reordered(t: Tuple, a: seq<string>, b: seq<string>, db: Db, schema: Schema)
    requires multiset(a) == multiset(b) && Known(a, db, schema) && Known(b, db, schema)
    ensures |a| == |b| && PartCounts(t, a, |a|, db, schema) == PartCounts(t, b, |b|, db, schema)
    decreases |a|
  {
    assert |multiset(a)| == |a| && |multiset(b)| == |b|;
    if a != [] {
      var n := |a|;
      var x, a' := a[n - 1], a[..n - 1];
      assert a == a' + [x];
      var i := Match(a', x, b);
      var b' := b[..i] + b[i + 1..];
      Reordered(t, a', b', db, schema);
      TakeOut(t, b, b', i, n, db, schema);
      SamePrefix(t, a, a', n - 1, db, schema);
    }
  }

  lemma SameSchema(a: seq<string>, b: seq<string>, db: Db, schema: Schema)
    requires DbOk(db, schema) && TablesOk(a, db) && TablesOk(b, db) && multiset(a) == multiset(b)
    ensures SchemaOf(a, schema, |a|) == SchemaOf(b, schema, |b|)
  {
    assert a[..|a|] == a && b[..|b|] == b;
    forall c ensures c in SchemaOf(a, schema, |a|) <==> c in SchemaOf(b, schema, |b|) {
      SchemaTabs(a, schema, |a|, c);
      SchemaTabs(b, schema, |b|, c);
      assert c.tab in a <==> c.tab in multiset(a);
      assert c.tab in b <==> c.tab in multiset(b);
    }
  }

  /** The product of the same tables in another order has the same rows, each as often. */
  lemma ProductReordered(a: seq<string>, b: seq<string>, db: Db, schema: Schema)
    requires DbOk(db, schema) && TablesOk(a, db) && TablesOk(b, db) && multiset(a) == multiset(b) && a != []
    ensures |a| == |b| && multiset(Product(a, |a|, db)) == multiset(Product(b, |b|, db))
  {
    assert |multiset(a)| == |a| && |multiset(b)| == |b|;
    SameSchema(a, b, db, schema);
    forall t ensures multiset(Product(a, |a|, db))[t] == multiset(Product(b, |b|, db))[t] {
      ProductCount(a, db, schema, |a|, t);
      ProductCount(b, db, schema, |b|, t);
      Reordered(t, a, b, db, schema);
    }
  }

  // ----- filters and projections on reordered rows -----

  lemma {:induction false} KeepCount(rows: seq<Tuple>, cs: seq<Cond>, t: Tuple)
    ensures multiset(Keep(rows, cs))[t] == if AllPass(cs, t) then multiset(rows)[t] else 0
  {
    if rows != [] {
      KeepCount(rows[1..], cs, t);
      assert rows == [rows[0]] + rows[1..];
      var first := if AllPass(cs, rows[0]) then [rows[0]] else [];
      assert multiset(first + Keep(rows[1..], cs)) == multiset(first) + multiset(Keep(rows[1..], cs));
    }
  }

  lemma SameConds(cs: seq<Cond>, ds: seq<Cond>, t: Tuple)
    requires multiset(cs) == multiset(ds)
    ensures AllPass(cs, t) == AllPass(ds, t)
  {
    forall i | 0 <= i < |cs| ensures cs[i] in ds { assert cs[i] in multiset(cs); }
    forall i | 0 <= i < |ds| ensures ds[i] in cs { assert ds[i] in multiset(ds); }
  }

  lemma {:induction false} RestrictReordered(a: seq<Tuple>, b: seq<Tuple>, cols: set<TabCol>)
    requires multiset(a) == multiset(b)
    ensures multiset(RestrictAll(a, cols)) == multiset(RestrictAll(b, cols))
    decreases |a|
  {
    if a == [] {
      assert |multiset(a)| == |multiset(b)|;
    } else {
      var x, a' := a[0], a[1..];
      assert a == [x] + a';
      var i := Match(a', x, b);
      RestrictReordered(a', b[..i] + b[i + 1..], cols);
      assert RestrictAll(a, cols) == [Restrict(x, cols)] + RestrictAll(a', cols);
      RestrictSplit(b, i, cols);
    }
  }

  lemma RestrictSplit(b: seq<Tuple>, i: nat, cols: set<TabCol>)
    requires i < |b|
    ensures multiset(RestrictAll(b, cols))
         == multiset(RestrictAll(b[..i] + b[i + 1..], cols)) + multiset{Restrict(b[i], cols)}
  {
    assert b == b[..i] + ([b[i]] + b[i + 1..]);
    RestrictConcat(b[..i], [b[i]] + b[i + 1..], cols);
    RestrictConcat([b[i]], b[i + 1..], cols);
    RestrictConcat(b[..i], b[i + 1..], cols);
    assert RestrictAll([b[i]], cols) == [Restrict(b[i], cols)];
  }
}
