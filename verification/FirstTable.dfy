// What conditions that a table's rows cannot answer do to a plan: they throw, unless an earlier condition fails first.
module FirstTable {
  import opened IxDefs
  import opened PlanDefs
  import opened LeftDeepPlans

  /** No row of the table gets as far as a condition whose columns it lacks. */
  predicate AllEvaluate(rows: seq<Tuple>, cs: seq<Cond>) {
    forall r | 0 <= r < |rows| :: Evaluate(rows[r], cs, 0).Some?
  }

  /** The columns are there, and the comparison is false. */
  predicate Fails(c: Cond, t: Tuple) { Has(t, c) && !Holds(c, t) }

  /** A row that is evaluated without an error passes just when it passes all conditions, and then it has all their
      columns. */
  lemma {:induction false} EvaluateSome(t: Tuple, cs: seq<Cond>, i: nat)
    requires i <= |cs| && Evaluate(t, cs, i).Some?
    ensures Evaluate(t, cs, i).value <==> forall j | i <= j < |cs| :: Passes(cs[j], t)
    ensures Evaluate(t, cs, i).value ==> forall j | i <= j < |cs| :: Has(t, cs[j])
    ensures !Evaluate(t, cs, i).value ==> exists j | i <= j < |cs| :: Fails(cs[j], t)
    decreases |cs| - i
  {
    if i < |cs| && Holds(cs[i], t) { EvaluateSome(t, cs, i + 1); }
  }

  /** Filtering throws exactly when some row does; otherwise it keeps what passes. */
  lemma {:induction false} FilterSome(rows: seq<Tuple>, cs: seq<Cond>)
    ensures FilterRows(rows, cs) == if AllEvaluate(rows, cs) then Some(Keep(rows, cs)) else None
  {
    if rows != [] {
      var rest := rows[1..];
      FilterSome(rest, cs);
      assert AllEvaluate(rows, cs) <==> Evaluate(rows[0], cs, 0).Some? && AllEvaluate(rest, cs) by {
        forall r | 0 <= r < |rows| ensures rows[r] == if r == 0 then rows[0] else rest[r - 1] {}
        if Evaluate(rows[0], cs, 0).Some? && AllEvaluate(rest, cs) {
          forall r | 0 <= r < |rows| ensures Evaluate(rows[r], cs, 0).Some? {
            if r > 0 { assert rows[r] == rest[r - 1]; }
          }
        }
        if AllEvaluate(rows, cs) {
          forall r | 0 <= r < |rest| ensures Evaluate(rest[r], cs, 0).Some? { assert rest[r] == rows[r + 1]; }
        }
      }
      if Evaluate(rows[0], cs, 0).Some? { EvaluateSome(rows[0], cs, 0); }
    }
  }

  /** What was kept can be filtered again. */
  lemma {:induction false} KeptEvaluate(rows: seq<Tuple>, cs: seq<Cond>)
    requires AllEvaluate(rows, cs)
    ensures AllEvaluate(Keep(rows, cs), cs)
  {
    if rows != [] {
      var rest := rows[1..];
      forall r | 0 <= r < |rest| ensures Evaluate(rest[r], cs, 0).Some? { assert rest[r] == rows[r + 1]; }
      KeptEvaluate(rest, cs);
    }
  }

  /** If no row could have a column of some condition and all rows are evaluated, then all of them fail before it. */
  lemma {:induction false} NoneKept(rows: seq<Tuple>, cs: seq<Cond>, k: nat)
    requires k < |cs| && AllEvaluate(rows, cs) && forall r | 0 <= r < |rows| :: !Has(rows[r], cs[k])
    ensures Keep(rows, cs) == []
  {
    if rows != [] {
      var rest := rows[1..];
      EvaluateSome(rows[0], cs, 0);
      forall r | 0 <= r < |rest| ensures Evaluate(rest[r], cs, 0).Some? && !Has(rest[r], cs[k]) {
        assert rest[r] == rows[r + 1];
      }
      NoneKept(rest, cs, k);
    }
  }

  // ----- a left-deep tree with such a part -----

  lemma {:induction false} JoinNothing(ls: seq<Tuple>, cs: seq<Cond>)
    ensures JoinRows(ls, [], cs) == [] && JoinRows([], ls, cs) == []
  {
    if ls != [] {
      JoinNothing(ls[1..], cs);
      assert JoinRow(ls[0], [], cs) == [];
    }
  }

  lemma EmptyRight(left: Plan, right: Plan, cs: seq<Cond>, db: Db)
    requires Denote(left, db).Some? && Denote(right, db) == Some([])
    ensures Denote(Join(left, right, cs), db) == Some([])
  {
    JoinNothing(Denote(left, db).value, cs);
  }

  /** A part without rows makes the whole tree yield nothing. */
  lemma {:induction false} EmptyPart(parts: seq<Plan>, jcs: seq<seq<Cond>>, db: Db, p: nat, n: nat)
    requires p <= n < |parts| == |jcs| && Denote(parts[p], db) == Some([])
    requires forall i | 0 <= i < |parts| :: Denote(parts[i], db).Some?
    ensures Denote(LeftDeep(parts, jcs, n), db) == Some([])
  {
    if p < n {
      EmptyPart(parts, jcs, db, p, n - 1);
    } else if n > 0 {
      AllYield(parts, jcs, db, n - 1);
      EmptyRight(LeftDeep(parts, jcs, n - 1), parts[n], jcs[n], db);
    }
  }

  lemma {:induction false} AllYield(parts: seq<Plan>, jcs: seq<seq<Cond>>, db: Db, n: nat)
    requires n < |parts| == |jcs| && forall i | 0 <= i < |parts| :: Denote(parts[i], db).Some?
    ensures Denote(LeftDeep(parts, jcs, n), db).Some?
  {
    if n > 0 { AllYield(parts, jcs, db, n - 1); }
  }

  /** Parts without a row, joined, make the whole tree yield nothing. */
  lemma {:induction false} EmptyBefore(parts: seq<Plan>, jcs: seq<seq<Cond>>, db: Db, p: nat, n: nat)
    requires p <= n < |parts| == |jcs| && Denote(LeftDeep(parts, jcs, p), db) == Some([])
    ensures Denote(LeftDeep(parts, jcs, n), db) == Some([])
  {
    if p < n { EmptyBefore(parts, jcs, db, p, n - 1); }
  }

  /** A part that throws makes the whole tree throw, unless the parts before it, joined, have no row. */
  lemma {:induction false} ThrowingPart(parts: seq<Plan>, jcs: seq<seq<Cond>>, db: Db, p: nat, n: nat)
    requires p <= n < |parts| == |jcs| && Denote(parts[p], db) == None
    requires p > 0 ==> Denote(LeftDeep(parts, jcs, p - 1), db) != Some([])
    ensures Denote(LeftDeep(parts, jcs, n), db) == None
  {
    if p < n { ThrowingPart(parts, jcs, db, p, n - 1); }
  }

  // ----- the product -----

  /** Row t extends a row of rows by columns of its own. */
  predicate Extends(t: Tuple, rows: seq<Tuple>) {
    exists r :: 0 <= r < |rows| && RowWith(t, rows[r])
  }

  predicate RowWith(t: Tuple, row: Tuple) {
    forall c | c in row :: c in t && t[c] == row[c]
  }

  /** Every row of s extends one of rows. */
  predicate AllExtend(s: seq<Tuple>, rows: seq<Tuple>) {
    forall i | 0 <= i < |s| :: Extends(s[i], rows)
  }

  lemma AllExtendConcat(a: seq<Tuple>, b: seq<Tuple>, rows: seq<Tuple>)
    requires AllExtend(a, rows) && AllExtend(b, rows)
    ensures AllExtend(a + b, rows)
  {
  }

  lemma {:induction false} JoinRowExtends(l: Tuple, rs: seq<Tuple>, rows: seq<Tuple>, cols: set<TabCol>)
    requires Extends(l, rows) && l.Keys !! cols && forall i | 0 <= i < |rs| :: rs[i].Keys <= cols
    ensures AllExtend(JoinRow(l, rs, []), rows)
  {
    if rs != [] {
      var rest := rs[1..];
      forall i | 0 <= i < |rest| ensures rest[i].Keys <= cols { assert rest[i] == rs[i + 1]; }
      JoinRowExtends(l, rest, rows, cols);
      var r :| 0 <= r < |rows| && RowWith(l, rows[r]);
      assert RowWith(l + rs[0], rows[r]) by {
        forall c | c in rows[r] ensures c in l + rs[0] && (l + rs[0])[c] == rows[r][c] {
          assert c in l.Keys && c !in rs[0].Keys;
        }
      }
      AllExtendConcat([l + rs[0]], JoinRow(l, rest, []), rows);
    }
  }

  lemma {:induction false} JoinRowsExtend(ls: seq<Tuple>, rs: seq<Tuple>, rows: seq<Tuple>, cols: set<TabCol>)
    requires AllExtend(ls, rows) && (forall i | 0 <= i < |ls| :: ls[i].Keys !! cols)
    requires forall i | 0 <= i < |rs| :: rs[i].Keys <= cols
    ensures AllExtend(JoinRows(ls, rs, []), rows)
  {
    if ls != [] {
      var rest := ls[1..];
      forall i | 0 <= i < |rest| ensures Extends(rest[i], rows) && rest[i].Keys !! cols { assert rest[i] == ls[i + 1]; }
      JoinRowsExtend(rest, rs, rows, cols);
      JoinRowExtends(ls[0], rs, rows, cols);
      AllExtendConcat(JoinRow(ls[0], rs, []), JoinRows(rest, rs, []), rows);
    }
  }

  /** Every row of the product extends a row of the first table. */
  lemma {:induction false} ProductExtends(tables: seq<string>, db: Db, schema: Schema, n: nat)
    requires DbOk(db, schema) && TablesOk(tables, db) && 0 < n <= |tables|
    ensures AllExtend(Product(tables, n, db), db[tables[0]])
  {
    var first := db[tables[0]];
    if n == 1 {
      forall i | 0 <= i < |first| ensures Extends(first[i], first) { assert RowWith(first[i], first[i]); }
    } else {
      var ls, rs := Product(tables, n - 1, db), db[tables[n - 1]];
      ProductExtends(tables, db, schema, n - 1);
      NotAmong(tables, n - 1);
      forall i | 0 <= i < |ls| ensures ls[i].Keys !! schema[tables[n - 1]] {
        ProductWithin(tables, db, schema, n - 1, n - 1, i);
      }
      forall i | 0 <= i < |rs| ensures rs[i].Keys <= schema[tables[n - 1]] {
        assert rs[i].Keys == schema[tables[n - 1]];
      }
      JoinRowsExtend(ls, rs, first, schema[tables[n - 1]]);
    }
  }

  /** Some condition of ds fails on every row that a row of s extends. */
  predicate AllFail(rows: seq<Tuple>, ds: seq<Cond>) {
    forall r | 0 <= r < |rows| :: FailsOne(rows[r], ds)
  }

  predicate FailsOne(t: Tuple, ds: seq<Cond>) {
    exists j :: 0 <= j < |ds| && Fails(ds[j], t)
  }

  lemma FailIn(rows: seq<Tuple>, cs: seq<Cond>, ds: seq<Cond>)
    requires AllFail(rows, cs)
    requires forall r, j | 0 <= r < |rows| && 0 <= j < |cs| && Has(rows[r], cs[j]) :: cs[j] in ds
    ensures AllFail(rows, ds)
  {
    forall r | 0 <= r < |rows| ensures FailsOne(rows[r], ds) {
      assert FailsOne(rows[r], cs);
      var j :| 0 <= j < |cs| && Fails(cs[j], rows[r]);
      assert cs[j] in ds;
      var i :| 0 <= i < |ds| && ds[i] == cs[j];
      assert Fails(ds[i], rows[r]);
    }
  }

  /** What the rows of a table do not pass, rows that extend them do not pass either. */
  lemma {:induction false} ExtendedFail(s: seq<Tuple>, rows: seq<Tuple>, ds: seq<Cond>)
    requires AllExtend(s, rows) && AllFail(rows, ds)
    ensures Keep(s, ds) == []
  {
    if s != [] {
      var rest := s[1..];
      forall i | 0 <= i < |rest| ensures Extends(rest[i], rows) { assert rest[i] == s[i + 1]; }
      ExtendedFail(rest, rows, ds);
      assert Extends(s[0], rows);
      var r :| 0 <= r < |rows| && RowWith(s[0], rows[r]);
      assert FailsOne(rows[r], ds);
      var j :| 0 <= j < |ds| && Fails(ds[j], rows[r]);
      assert !Passes(ds[j], s[0]);
    }
  }
}
