// Query plans and the rows they stand for. A row is a map from columns to values, so the order of columns is left out.
module PlanDefs {
  import opened IxDefs
  import opened ScanDefs

  datatype TabCol = TabCol(tab: string, col: string)

  datatype Operand = Value(value: int) | ColRef(col: TabCol)

  datatype Cond = Cond(lhs: TabCol, op: CompOp, rhs: Operand)

  type Tuple = map<TabCol, int>

  datatype Plan =
    | Scan(tab: string, conds: seq<Cond>)
    | Filter(sub: Plan, conds: seq<Cond>)
    | Projection(sub: Plan, cols: set<TabCol>)
    | Join(left: Plan, right: Plan, conds: seq<Cond>)

  // ----- conditions -----

  /** The columns of a condition are there. */
  predicate Has(t: Tuple, c: Cond) {
    c.lhs in t && (c.rhs.ColRef? ==> c.rhs.col in t)
  }

  predicate Holds(c: Cond, t: Tuple)
    requires Has(t, c)
  {
    Compares(t[c.lhs], c.op, match c.rhs case Value(v) => v case ColRef(d) => t[d])
  }

  /** A condition without its columns is passed over. */
  predicate Passes(c: Cond, t: Tuple) {
    Has(t, c) ==> Holds(c, t)
  }

  predicate AllPass(cs: seq<Cond>, t: Tuple) {
    forall i | 0 <= i < |cs| :: Passes(cs[i], t)
  }

  predicate AllHave(cs: seq<Cond>, t: Tuple) {
    forall i | 0 <= i < |cs| :: Has(t, cs[i])
  }

  /** eval_conds of a scan or a filter: the conditions from i on, up to one that fails; none if a column
      is not found. */
  function Evaluate(t: Tuple, cs: seq<Cond>, i: nat): Option<bool>
    requires i <= |cs|
    decreases |cs| - i
  {
    if i == |cs| then Some(true)
    else if !Has(t, cs[i]) then None
    else if Holds(cs[i], t) then Evaluate(t, cs, i + 1)
    else Some(false)
  }

  /** The rows a scan or a filter lets through; none if it throws. */
  function FilterRows(rows: seq<Tuple>, cs: seq<Cond>): Option<seq<Tuple>> {
    if rows == [] then Some([])
    else
      match (Evaluate(rows[0], cs, 0), FilterRows(rows[1..], cs))
      case (Some(b), Some(rest)) => Some(if b then [rows[0]] + rest else rest)
      case _ => None
  }

  function Keep(rows: seq<Tuple>, cs: seq<Cond>): seq<Tuple> {
    if rows == [] then []
    else if AllPass(cs, rows[0]) then [rows[0]] + Keep(rows[1..], cs)
    else Keep(rows[1..], cs)
  }

  lemma {:induction false} EvaluateAll(t: Tuple, cs: seq<Cond>, i: nat)
    requires i <= |cs| && AllHave(cs, t)
    ensures Evaluate(t, cs, i) == Some(forall j | i <= j < |cs| :: Passes(cs[j], t))
    decreases |cs| - i
  {
    if i < |cs| { EvaluateAll(t, cs, i + 1); }
  }

  /** With all columns there, nothing is thrown. */
  lemma {:induction false} FilterKeeps(rows: seq<Tuple>, cs: seq<Cond>)
    requires forall i | 0 <= i < |rows| :: AllHave(cs, rows[i])
    ensures FilterRows(rows, cs) == Some(Keep(rows, cs))
  {
    if rows != [] {
      EvaluateAll(rows[0], cs, 0);
      FilterKeeps(rows[1..], cs);
    }
  }

  // ----- projections and joins -----

  function Restrict(t: Tuple, cols: set<TabCol>): Tuple {
    map c | c in t && c in cols :: t[c]
  }

  function RestrictAll(rows: seq<Tuple>, cols: set<TabCol>): seq<Tuple> {
    if rows == [] then [] else [Restrict(rows[0], cols)] + RestrictAll(rows[1..], cols)
  }

  /** The matches of one left row. */
  function JoinRow(l: Tuple, rs: seq<Tuple>, cs: seq<Cond>): seq<Tuple> {
    if rs == [] then []
    else if AllPass(cs, l + rs[0]) then [l + rs[0]] + JoinRow(l, rs[1..], cs)
    else JoinRow(l, rs[1..], cs)
  }

  function JoinRows(ls: seq<Tuple>, rs: seq<Tuple>, cs: seq<Cond>): seq<Tuple> {
    if ls == [] then [] else JoinRow(ls[0], rs, cs) + JoinRows(ls[1..], rs, cs)
  }

  /** What a plan yields; none if it throws. The rows of a table come in the order its scan delivers them. A join with
      no left row never starts its right side. */
  function Denote(p: Plan, db: map<string, seq<Tuple>>): Option<seq<Tuple>> {
    match p
    case Scan(tab, conds) => if tab in db then FilterRows(db[tab], conds) else None
    case Filter(sub, conds) =>
      (match Denote(sub, db) case Some(rows) => FilterRows(rows, conds) case None => None)
    case Projection(sub, cols) =>
      (match Denote(sub, db) case Some(rows) => Some(RestrictAll(rows, cols)) case None => None)
    case Join(left, right, conds) =>
      match Denote(left, db)
      case None => None
      case Some(ls) =>
        if ls == [] then Some([]) else
          match Denote(right, db) case Some(rs) => Some(JoinRows(ls, rs, conds)) case None => None
  }

  /** When neither side throws, a join yields the matching pairs. */
  lemma JoinDenotes(left: Plan, right: Plan, cs: seq<Cond>, db: map<string, seq<Tuple>>)
    requires Denote(left, db).Some? && Denote(right, db).Some?
    ensures Denote(Join(left, right, cs), db) == Some(JoinRows(Denote(left, db).value, Denote(right, db).value, cs))
  {
    if Denote(left, db).value == [] { assert JoinRows([], Denote(right, db).value, cs) == []; }
  }

  // ----- the meaning of a query -----

  /** The Cartesian product of the first n tables, the last one running fastest. */
  function Product(tables: seq<string>, n: nat, db: map<string, seq<Tuple>>): seq<Tuple>
    requires 0 < n <= |tables| && forall i | 0 <= i < |tables| :: tables[i] in db
  {
    if n == 1 then db[tables[0]] else JoinRows(Product(tables, n - 1, db), db[tables[n - 1]], [])
  }

  // ----- how filters and projections get along with concatenation and joins -----

  lemma {:induction false} KeepConcat(a: seq<Tuple>, b: seq<Tuple>, cs: seq<Cond>)
    ensures Keep(a + b, cs) == Keep(a, cs) + Keep(b, cs)
  {
    if a == [] {
      assert a + b == b;
    } else {
      assert (a + b)[1..] == a[1..] + b;
      KeepConcat(a[1..], b, cs);
      var first := if AllPass(cs, a[0]) then [a[0]] else [];
      assert first + (Keep(a[1..], cs) + Keep(b, cs)) == (first + Keep(a[1..], cs)) + Keep(b, cs);
    }
  }

  lemma {:induction false} RestrictConcat(a: seq<Tuple>, b: seq<Tuple>, cols: set<TabCol>)
    ensures RestrictAll(a + b, cols) == RestrictAll(a, cols) + RestrictAll(b, cols)
  {
    if a == [] {
      assert a + b == b;
    } else {
      assert (a + b)[1..] == a[1..] + b;
      RestrictConcat(a[1..], b, cols);
    }
  }

  /** For the pair (l, r): filters a and b and the projections to A and B can be made before the join on j. */
  predicate Separable(l: Tuple, r: Tuple, a: seq<Cond>, b: seq<Cond>, j: seq<Cond>, A: set<TabCol>, B: set<TabCol>) {
    && AllPass(a, l + r) == AllPass(a, l) && AllPass(b, l + r) == AllPass(b, r)
    && Restrict(l, A) + Restrict(r, B) == Restrict(l + r, A + B)
    && AllPass(j, Restrict(l + r, A + B)) == AllPass(j, l + r)
  }

  function Pushed(rows: seq<Tuple>, cs: seq<Cond>, cols: set<TabCol>): seq<Tuple> {
    RestrictAll(Keep(rows, cs), cols)
  }

  lemma PushedCons(t: Tuple, rows: seq<Tuple>, cs: seq<Cond>, cols: set<TabCol>)
    ensures Pushed([t] + rows, cs, cols)
         == (if AllPass(cs, t) then [Restrict(t, cols)] else []) + Pushed(rows, cs, cols)
  {
    assert ([t] + rows)[1..] == rows;
    var kept := Keep(rows, cs);
    if AllPass(cs, t) {
      assert Keep([t] + rows, cs) == [t] + kept;
      assert ([t] + kept)[1..] == kept;
    } else {
      assert Keep([t] + rows, cs) == kept;
    }
  }

  lemma JoinRowCons(l: Tuple, r: Tuple, rest: seq<Tuple>, j: seq<Cond>)
    ensures JoinRow(l, [r] + rest, j) == (if AllPass(j, l + r) then [l + r] else []) + JoinRow(l, rest, j)
  {
    assert ([r] + rest)[1..] == rest;
  }

  /** One right row more. */
  lemma PushThroughPair(l: Tuple, r: Tuple, rest: seq<Tuple>, a: seq<Cond>, b: seq<Cond>, j: seq<Cond>,
                        A: set<TabCol>, B: set<TabCol>)
    requires Separable(l, r, a, b, j, A, B)
    requires Pushed(JoinRow(l, rest, []), a + b + j, A + B)
          == if AllPass(a, l) then JoinRow(Restrict(l, A), Pushed(rest, b, B), j) else []
    ensures Pushed(JoinRow(l, [r] + rest, []), a + b + j, A + B)
         == if AllPass(a, l) then JoinRow(Restrict(l, A), Pushed([r] + rest, b, B), j) else []
  {
    PassConcat(a, b, j, l + r);
    JoinRowCons(l, r, rest, []);
    PushedCons(l + r, JoinRow(l, rest, []), a + b + j, A + B);
    PushedCons(r, rest, b, B);
    JoinRowCons(Restrict(l, A), Restrict(r, B), Pushed(rest, b, B), j);
    assert [] + Pushed(rest, b, B) == Pushed(rest, b, B);
  }

  lemma {:induction false} PushThroughRow(l: Tuple, rs: seq<Tuple>, a: seq<Cond>, b: seq<Cond>, j: seq<Cond>,
                                          A: set<TabCol>, B: set<TabCol>)
    requires forall i | 0 <= i < |rs| :: Separable(l, rs[i], a, b, j, A, B)
    ensures Pushed(JoinRow(l, rs, []), a + b + j, A + B)
         == if AllPass(a, l) then JoinRow(Restrict(l, A), Pushed(rs, b, B), j) else []
  {
    if rs != [] {
      var r, rest := rs[0], rs[1..];
      forall i | 0 <= i < |rest| ensures Separable(l, rest[i], a, b, j, A, B) { assert rest[i] == rs[i + 1]; }
      PushThroughRow(l, rest, a, b, j, A, B);
      PushThroughPair(l, r, rest, a, b, j, A, B);
      assert rs == [r] + rest;
    }
  }

  lemma PassConcat(a: seq<Cond>, b: seq<Cond>, j: seq<Cond>, t: Tuple)
    ensures AllPass(a + b + j, t) <==> AllPass(a, t) && AllPass(b, t) && AllPass(j, t)
  {
    var all := a + b + j;
    if AllPass(all, t) {
      forall i | 0 <= i < |a| ensures Passes(a[i], t) { assert all[i] == a[i]; }
      forall i | 0 <= i < |b| ensures Passes(b[i], t) { assert all[|a| + i] == b[i]; }
      forall i | 0 <= i < |j| ensures Passes(j[i], t) { assert all[|a| + |b| + i] == j[i]; }
    }
  }

  lemma PushedConcat(x: seq<Tuple>, y: seq<Tuple>, cs: seq<Cond>, cols: set<TabCol>)
    ensures Pushed(x + y, cs, cols) == Pushed(x, cs, cols) + Pushed(y, cs, cols)
  {
    KeepConcat(x, y, cs);
    RestrictConcat(Keep(x, cs), Keep(y, cs), cols);
  }

  lemma JoinRowsCons(l: Tuple, rest: seq<Tuple>, rs: seq<Tuple>, j: seq<Cond>)
    ensures JoinRows([l] + rest, rs, j) == JoinRow(l, rs, j) + JoinRows(rest, rs, j)
  {
    assert ([l] + rest)[1..] == rest;
  }

  /** One left row more. */
  lemma PushThroughLeft(l: Tuple, rest: seq<Tuple>, rs: seq<Tuple>, a: seq<Cond>, b: seq<Cond>, j: seq<Cond>,
                        A: set<TabCol>, B: set<TabCol>)
    requires forall i | 0 <= i < |rs| :: Separable(l, rs[i], a, b, j, A, B)
    requires JoinRows(Pushed(rest, a, A), Pushed(rs, b, B), j) == Pushed(JoinRows(rest, rs, []), a + b + j, A + B)
    ensures JoinRows(Pushed([l] + rest, a, A), Pushed(rs, b, B), j)
         == Pushed(JoinRows([l] + rest, rs, []), a + b + j, A + B)
  {
    PushThroughRow(l, rs, a, b, j, A, B);
    JoinRowsCons(l, rest, rs, []);
    PushedConcat(JoinRow(l, rs, []), JoinRows(rest, rs, []), a + b + j, A + B);
    PushedCons(l, rest, a, A);
    JoinRowsCons(Restrict(l, A), Pushed(rest, a, A), Pushed(rs, b, B), j);
    assert [] + Pushed(rest, a, A) == Pushed(rest, a, A);
  }

  /** Filtering and projecting the inputs and joining them on j is filtering by all conditions and projecting after. */
  lemma {:induction false} PushThrough(ls: seq<Tuple>, rs: seq<Tuple>, a: seq<Cond>, b: seq<Cond>, j: seq<Cond>,
                                       A: set<TabCol>, B: set<TabCol>)
    requires forall i, k | 0 <= i < |ls| && 0 <= k < |rs| :: Separable(ls[i], rs[k], a, b, j, A, B)
    ensures JoinRows(Pushed(ls, a, A), Pushed(rs, b, B), j) == Pushed(JoinRows(ls, rs, []), a + b + j, A + B)
  {
    if ls != [] {
      var l, rest := ls[0], ls[1..];
      forall i, k | 0 <= i < |rest| && 0 <= k < |rs| ensures Separable(rest[i], rs[k], a, b, j, A, B) {
        assert rest[i] == ls[i + 1];
      }
      PushThrough(rest, rs, a, b, j, A, B);
      PushThroughLeft(l, rest, rs, a, b, j, A, B);
      assert ls == [l] + rest;
    }
  }
}
