// What running a plan gives: the runs of the iterators put together, and why they are what the plan denotes.
module PlanRuns {
  import opened IxDefs
  import opened ScanDefs
  import opened PlanDefs
  import opened FirstTable
  import opened Joins
  import F = Filter
  import P = Planner
  import S = SeqScan
  import SJ = SemiJoin

  /** A table as a scan delivers it: its columns, and its rows in the order of the scan. For an index scan that is the
      order of the index. The scan is one that does not throw for want of an entry to start at, and whose conditions are
      of a sound shape; see IndexScan. */
  datatype Table = Table(cols: seq<TabCol>, rows: seq<Row>)

  predicate DistinctCols(cols: seq<TabCol>) {
    forall i, j | 0 <= i < j < |cols| :: cols[i] != cols[j]
  }

  predicate TableFits(t: Table, tab: string) {
    DistinctCols(t.cols) && RowsFit(t.rows, |t.cols|) && forall i | 0 <= i < |t.cols| :: t.cols[i].tab == tab
  }

  predicate StoreOk(store: map<string, Table>) {
    forall tab | tab in store :: TableFits(store[tab], tab)
  }

  // ----- rows as tuples -----

  lemma FoundCol(cols: seq<TabCol>, c: TabCol)
    ensures c in cols <==> FindCol(cols, c, 0) < |cols|
  {
  }

  function ToTuple(cols: seq<TabCol>, row: Row): (t: Tuple)
    requires |row| == |cols|
    ensures forall c :: c in t <==> c in cols
    ensures forall c | c in cols :: FindCol(cols, c, 0) < |cols| && t[c] == row[FindCol(cols, c, 0)]
  {
    assert forall c | c in cols :: FindCol(cols, c, 0) < |cols| by {
      forall c | c in cols ensures FindCol(cols, c, 0) < |cols| { FoundCol(cols, c); }
    }
    map c | c in cols :: row[FindCol(cols, c, 0)]
  }

  function ToTuples(cols: seq<TabCol>, rows: seq<Row>): (ts: seq<Tuple>)
    requires RowsFit(rows, |cols|)
    ensures |ts| == |rows| && forall i | 0 <= i < |rows| :: ts[i] == ToTuple(cols, rows[i])
  {
    if rows == [] then [] else [ToTuple(cols, rows[0])] + ToTuples(cols, rows[1..])
  }

  lemma ToTuplesTail(cols: seq<TabCol>, rows: seq<Row>, i: nat)
    requires RowsFit(rows, |cols|) && i < |rows|
    ensures RowsFit(rows[i..], |cols|) && RowsFit(rows[i + 1..], |cols|)
    ensures ToTuples(cols, rows[i..]) == [ToTuple(cols, rows[i])] + ToTuples(cols, rows[i + 1..])
  {
    assert rows[i..][1..] == rows[i + 1..];
  }

  /** The database of tuples for a store. */
  function DbOf(store: map<string, Table>): (db: map<string, seq<Tuple>>)
    requires StoreOk(store)
    ensures db.Keys == store.Keys && forall tab | tab in store :: db[tab] == ToTuples(store[tab].cols, store[tab].rows)
  {
    map tab | tab in store :: ToTuples(store[tab].cols, store[tab].rows)
  }

  // ----- conditions -----

  predicate HasCols(c: Cond, cols: seq<TabCol>) {
    c.lhs in cols && (c.rhs.ColRef? ==> c.rhs.col in cols)
  }

  predicate AllHaveCols(cs: seq<Cond>, cols: seq<TabCol>) {
    forall i | 0 <= i < |cs| :: HasCols(cs[i], cols)
  }

  /** A condition with its columns looked up. */
  function Resolve(c: Cond, cols: seq<TabCol>): Condition {
    Condition(FindCol(cols, c.lhs, 0), c.op,
              match c.rhs case Value(v) => Literal(v) case ColRef(d) => Column(FindCol(cols, d, 0)))
  }

  function ResolveAll(cs: seq<Cond>, cols: seq<TabCol>): (r: seq<Condition>)
    ensures |r| == |cs| && forall i | 0 <= i < |cs| :: r[i] == Resolve(cs[i], cols)
  {
    if cs == [] then [] else [Resolve(cs[0], cols)] + ResolveAll(cs[1..], cols)
  }

  lemma ResolvedFit(cs: seq<Cond>, cols: seq<TabCol>)
    requires AllHaveCols(cs, cols)
    ensures AllFit(ResolveAll(cs, cols), |cols|)
  {
    forall i | 0 <= i < |cs| ensures Fits(ResolveAll(cs, cols)[i], |cols|) {
      assert HasCols(cs[i], cols);
      FoundCol(cols, cs[i].lhs);
      if cs[i].rhs.ColRef? { FoundCol(cols, cs[i].rhs.col); }
    }
  }

  lemma ResolvedHolds(c: Cond, cols: seq<TabCol>, row: Row)
    requires HasCols(c, cols) && |row| == |cols|
    ensures Fits(Resolve(c, cols), |row|) && Has(ToTuple(cols, row), c)
    ensures ScanDefs.Holds(Resolve(c, cols), row) <==> PlanDefs.Holds(c, ToTuple(cols, row))
  {
    FoundCol(cols, c.lhs);
    if c.rhs.ColRef? { FoundCol(cols, c.rhs.col); }
  }

  /** A row satisfies the conditions when its tuple passes them. */
  lemma ResolvedPass(cs: seq<Cond>, cols: seq<TabCol>, row: Row)
    requires AllHaveCols(cs, cols) && |row| == |cols|
    ensures AllFit(ResolveAll(cs, cols), |row|) && AllHave(cs, ToTuple(cols, row))
    ensures Satisfies(row, ResolveAll(cs, cols)) <==> AllPass(cs, ToTuple(cols, row))
  {
    ResolvedFit(cs, cols);
    var rs, t := ResolveAll(cs, cols), ToTuple(cols, row);
    forall i | 0 <= i < |cs| ensures Has(t, cs[i]) && (ScanDefs.Holds(rs[i], row) <==> Passes(cs[i], t)) {
      ResolvedHolds(cs[i], cols, row);
    }
    if Satisfies(row, rs) {
      forall i | 0 <= i < |cs| ensures Passes(cs[i], t) { assert ScanDefs.Holds(rs[i], row); }
    }
    if AllPass(cs, t) {
      forall i | 0 <= i < |rs| ensures ScanDefs.Holds(rs[i], row) { assert Passes(cs[i], t); }
    }
  }

  // ----- filter -----

  lemma FitRows(rows: seq<Row>, cs: seq<Cond>, cols: seq<TabCol>)
    requires RowsFit(rows, |cols|) && AllHaveCols(cs, cols)
    ensures F.AllRowsFit(rows, ResolveAll(cs, cols))
  {
    ResolvedFit(cs, cols);
  }

  /** The rows of records. */
  function RowsAt(records: seq<Rid>, table: map<Rid, Row>): (rows: seq<Row>)
    requires forall i | 0 <= i < |records| :: records[i] in table
    ensures |rows| == |records| && forall i | 0 <= i < |records| :: rows[i] == table[records[i]]
  {
    if records == [] then [] else [table[records[0]]] + RowsAt(records[1..], table)
  }

  /** The records a scan selects have the rows a filter would keep: of a sequential scan, in the order of the records,
      and of an index scan that does not throw, in the order of the entries. */
  lemma {:induction false} ScanYields(records: seq<Rid>, table: map<Rid, Row>, conds: seq<Condition>, i: nat)
    requires (forall r | r in table :: AllFit(conds, |table[r]|))
    requires forall k | 0 <= k < |records| :: records[k] in table
    requires i <= |records| && F.AllRowsFit(RowsAt(records, table), conds)
    ensures forall k | 0 <= k < |S.Select(records[i..], table, conds)| ::
      S.Select(records[i..], table, conds)[k] in table
    ensures RowsAt(S.Select(records[i..], table, conds), table) == F.KeepFrom(RowsAt(records, table), i, conds)
    decreases |records| - i
  {
    if i < |records| {
      ScanYields(records, table, conds, i + 1);
      assert records[i..][1..] == records[i + 1..];
      var rest := S.Select(records[i + 1..], table, conds);
      if S.Passes(records[i], table, conds) { assert ([records[i]] + rest)[1..] == rest; }
      assert S.Select(records[i..], table, conds)
          == if S.Passes(records[i], table, conds) then [records[i]] + rest else rest;
    }
  }

  // ----- join -----

  predicate Disjoint(a: seq<TabCol>, b: seq<TabCol>) {
    forall i, j | 0 <= i < |a| && 0 <= j < |b| :: a[i] != b[j]
  }

  lemma {:induction false} FindInLeft(a: seq<TabCol>, b: seq<TabCol>, c: TabCol, i: nat)
    requires i <= |a|
    ensures FindCol(a + b, c, i) == if FindCol(a, c, i) < |a| then FindCol(a, c, i) else |a| + FindCol(b, c, 0)
    decreases |a| - i
  {
    if i < |a| {
      if a[i] != c { FindInLeft(a, b, c, i + 1); }
    } else {
      FindInRight(a, b, c, 0);
    }
  }

  lemma {:induction false} FindInRight(a: seq<TabCol>, b: seq<TabCol>, c: TabCol, j: nat)
    requires j <= |b|
    ensures FindCol(a + b, c, |a| + j) == |a| + FindCol(b, c, j)
    decreases |b| - j
  {
    if j < |b| { FindInRight(a, b, c, j + 1); }
  }

  lemma JoinedValue(a: seq<TabCol>, b: seq<TabCol>, l: Row, r: Row, c: TabCol)
    requires Disjoint(a, b) && |l| == |a| && |r| == |b| && (c in a || c in b)
    ensures c in a <==> c !in b
    ensures var i, j := FindCol(a, c, 0), FindCol(b, c, 0);
      && FindCol(a + b, c, 0) < |a + b| && (if c in a then i < |a| else j < |b|)
      && (l + r)[FindCol(a + b, c, 0)] == if c in a then l[i] else r[j]
  {
    FindInLeft(a, b, c, 0);
    FoundCol(a, c);
    FoundCol(b, c);
  }

  /** The tuple of a joined row. */
  lemma JoinedTuple(a: seq<TabCol>, b: seq<TabCol>, l: Row, r: Row)
    requires Disjoint(a, b) && |l| == |a| && |r| == |b|
    ensures ToTuple(a + b, l + r) == ToTuple(a, l) + ToTuple(b, r)
  {
    var t, u := ToTuple(a + b, l + r), ToTuple(a, l) + ToTuple(b, r);
    forall c ensures c in t <==> c in u {}
    forall c | c in t ensures t[c] == u[c] { JoinedValue(a, b, l, r, c); }
    assert t == u;
  }

  lemma LookedUp(spec: JoinSpec, l: Row, r: Row, c: TabCol)
    requires Disjoint(spec.leftCols, spec.rightCols) && |l| == |spec.leftCols| && |r| == |spec.rightCols|
    ensures var t := ToTuple(spec.leftCols, l) + ToTuple(spec.rightCols, r);
      Lookup(spec, l, r, c) == if c in t then Some(t[c]) else None
  {
    FoundCol(spec.leftCols, c);
    FoundCol(spec.rightCols, c);
  }

  predicate AllColRefs(cs: seq<Cond>) {
    forall i | 0 <= i < |cs| :: cs[i].rhs.ColRef?
  }

  /** A pair matches when the merged tuple passes the join conditions. */
  lemma MatchesPass(spec: JoinSpec, l: Row, r: Row)
    requires Disjoint(spec.leftCols, spec.rightCols) && |l| == |spec.leftCols| && |r| == |spec.rightCols|
    requires AllColRefs(spec.conds)
    ensures Matches(spec, l, r) <==> AllPass(spec.conds, ToTuple(spec.leftCols, l) + ToTuple(spec.rightCols, r))
  {
    var t := ToTuple(spec.leftCols, l) + ToTuple(spec.rightCols, r);
    forall k | 0 <= k < |spec.conds| ensures PairHolds(spec, l, r, spec.conds[k]) <==> Passes(spec.conds[k], t) {
      LookedUp(spec, l, r, spec.conds[k].lhs);
      LookedUp(spec, l, r, spec.conds[k].rhs.col);
    }
    if Matches(spec, l, r) {
      forall k | 0 <= k < |spec.conds| ensures Passes(spec.conds[k], t) { assert PairHolds(spec, l, r, spec.conds[k]); }
    }
    if AllPass(spec.conds, t) {
      forall k | 0 <= k < |spec.conds| ensures PairHolds(spec, l, r, spec.conds[k]) { assert Passes(spec.conds[k], t); }
    }
  }

  /** And for the semi-join, whose conditions may compare with literals, when it passes all of them. */
  lemma SemiMatchesPass(spec: JoinSpec, l: Row, r: Row)
    requires Disjoint(spec.leftCols, spec.rightCols) && |l| == |spec.leftCols| && |r| == |spec.rightCols|
    ensures SJ.SemiMatches(spec, l, r) <==>
      AllPass(spec.conds, ToTuple(spec.leftCols, l) + ToTuple(spec.rightCols, r))
  {
    var t := ToTuple(spec.leftCols, l) + ToTuple(spec.rightCols, r);
    forall k | 0 <= k < |spec.conds| ensures SJ.SemiHolds(spec, l, r, spec.conds[k]) <==> Passes(spec.conds[k], t) {
      LookedUp(spec, l, r, spec.conds[k].lhs);
      if spec.conds[k].rhs.ColRef? { LookedUp(spec, l, r, spec.conds[k].rhs.col); }
    }
    if SJ.SemiMatches(spec, l, r) {
      forall k | 0 <= k < |spec.conds| ensures Passes(spec.conds[k], t) {
        assert SJ.SemiHolds(spec, l, r, spec.conds[k]);
      }
    }
    if AllPass(spec.conds, t) {
      forall k | 0 <= k < |spec.conds| ensures SJ.SemiHolds(spec, l, r, spec.conds[k]) {
        assert Passes(spec.conds[k], t);
      }
    }
  }

  lemma {:induction false} JoinedFit(spec: JoinSpec, ls: seq<Row>, i: nat, rs: seq<Row>, j: nat)
    requires Inputs(spec, ls, rs) && i <= |ls| && j <= |rs|
    ensures RowsFit(JoinFrom(spec, ls, i, rs, j), |spec.leftCols| + |spec.rightCols|)
    decreases |ls| - i, |rs| - j
  {
    if i == |ls| {
    } else if j == |rs| {
      JoinedFit(spec, ls, i + 1, rs, 0);
    } else {
      JoinedFit(spec, ls, i, rs, j + 1);
    }
  }

  ghost predicate Joinable(spec: JoinSpec, ls: seq<Row>, rs: seq<Row>) {
    Inputs(spec, ls, rs) && Disjoint(spec.leftCols, spec.rightCols) && AllColRefs(spec.conds)
  }

  ghost function JoinedTuples(spec: JoinSpec, ls: seq<Row>, i: nat, rs: seq<Row>, j: nat): seq<Tuple>
    requires Inputs(spec, ls, rs) && i <= |ls| && j <= |rs|
  {
    JoinedFit(spec, ls, i, rs, j);
    assert |spec.leftCols + spec.rightCols| == |spec.leftCols| + |spec.rightCols|;
    ToTuples(spec.leftCols + spec.rightCols, JoinFrom(spec, ls, i, rs, j))
  }

  /** The pairs of left row i from right row j on. */
  lemma {:induction false} JoinRowYields(spec: JoinSpec, ls: seq<Row>, i: nat, rs: seq<Row>, j: nat)
    requires Joinable(spec, ls, rs) && i < |ls| && j <= |rs|
    ensures RowsFit(rs[j..], |spec.rightCols|)
    ensures JoinedTuples(spec, ls, i, rs, j)
         == JoinRow(ToTuple(spec.leftCols, ls[i]), ToTuples(spec.rightCols, rs[j..]), spec.conds)
            + JoinedTuples(spec, ls, i + 1, rs, 0)
    decreases |rs| - j
  {
    if j < |rs| {
      JoinRowYields(spec, ls, i, rs, j + 1);
      var l := ToTuple(spec.leftCols, ls[i]);
      var now := if Matches(spec, ls[i], rs[j]) then [l + ToTuple(spec.rightCols, rs[j])] else [];
      var row, later := JoinedTuples(spec, ls, i, rs, j), JoinedTuples(spec, ls, i, rs, j + 1);
      assert row == now + later by { JoinOne(spec, ls, i, rs, j); }
      MatchedRow(spec, ls[i], rs, j);
      Regroup(now, JoinRow(l, ToTuples(spec.rightCols, rs[j + 1..]), spec.conds), JoinedTuples(spec, ls, i + 1, rs, 0));
    }
  }

  lemma MatchedRow(spec: JoinSpec, l: Row, rs: seq<Row>, j: nat)
    requires |l| == |spec.leftCols| && RowsFit(rs, |spec.rightCols|) && j < |rs|
    requires Disjoint(spec.leftCols, spec.rightCols) && AllColRefs(spec.conds)
    ensures RowsFit(rs[j..], |spec.rightCols|) && RowsFit(rs[j + 1..], |spec.rightCols|)
    ensures var t := ToTuple(spec.leftCols, l);
      JoinRow(t, ToTuples(spec.rightCols, rs[j..]), spec.conds)
      == (if Matches(spec, l, rs[j]) then [t + ToTuple(spec.rightCols, rs[j])] else [])
         + JoinRow(t, ToTuples(spec.rightCols, rs[j + 1..]), spec.conds)
  {
    MatchesPass(spec, l, rs[j]);
    ToTuplesTail(spec.rightCols, rs, j);
    JoinRowCons(ToTuple(spec.leftCols, l), ToTuple(spec.rightCols, rs[j]),
                ToTuples(spec.rightCols, rs[j + 1..]), spec.conds);
  }

  lemma ToTuplesCons(cols: seq<TabCol>, row: Row, rest: seq<Row>)
    requires RowsFit(rest, |cols|) && |row| == |cols|
    ensures RowsFit([row] + rest, |cols|) && ToTuples(cols, [row] + rest) == [ToTuple(cols, row)] + ToTuples(cols, rest)
  {
    assert ([row] + rest)[1..] == rest;
  }

  /** What the pair (i, j) adds. */
  lemma JoinOne(spec: JoinSpec, ls: seq<Row>, i: nat, rs: seq<Row>, j: nat)
    requires Joinable(spec, ls, rs) && i < |ls| && j < |rs|
    ensures JoinedTuples(spec, ls, i, rs, j)
         == (if Matches(spec, ls[i], rs[j])
             then [ToTuple(spec.leftCols, ls[i]) + ToTuple(spec.rightCols, rs[j])] else [])
            + JoinedTuples(spec, ls, i, rs, j + 1)
  {
    if Matches(spec, ls[i], rs[j]) {
      var cols, later := spec.leftCols + spec.rightCols, JoinFrom(spec, ls, i, rs, j + 1);
      JoinedFit(spec, ls, i, rs, j + 1);
      JoinedTuple(spec.leftCols, spec.rightCols, ls[i], rs[j]);
      assert JoinFrom(spec, ls, i, rs, j) == [ls[i] + rs[j]] + later;
      ToTuplesCons(cols, ls[i] + rs[j], later);
    } else {
      assert JoinFrom(spec, ls, i, rs, j) == JoinFrom(spec, ls, i, rs, j + 1);
    }
  }

  /** What the nested-loop join yields is what joining the tuples yields. */
  lemma {:induction false} JoinYields(spec: JoinSpec, ls: seq<Row>, i: nat, rs: seq<Row>)
    requires Joinable(spec, ls, rs) && i <= |ls|
    ensures RowsFit(ls[i..], |spec.leftCols|)
    ensures JoinedTuples(spec, ls, i, rs, 0)
         == JoinRows(ToTuples(spec.leftCols, ls[i..]), ToTuples(spec.rightCols, rs), spec.conds)
    decreases |ls| - i
  {
    if i < |ls| {
      JoinYields(spec, ls, i + 1, rs);
      JoinRowYields(spec, ls, i, rs, 0);
      assert rs[0..] == rs;
      ToTuplesTail(spec.leftCols, ls, i);
      assert ToTuples(spec.leftCols, ls[i..])[1..] == ToTuples(spec.leftCols, ls[i + 1..]);
    }
  }

  // ----- projection -----

  /** The columns that are kept, in their order. */
  function ColsIn(cols: seq<TabCol>, keep: set<TabCol>): seq<TabCol> {
    if cols == [] then []
    else if cols[0] in keep then [cols[0]] + ColsIn(cols[1..], keep)
    else ColsIn(cols[1..], keep)
  }

  function ValsIn(cols: seq<TabCol>, row: Row, keep: set<TabCol>): (r: Row)
    requires |row| == |cols|
    ensures |r| == |ColsIn(cols, keep)|
  {
    if cols == [] then []
    else if cols[0] in keep then [row[0]] + ValsIn(cols[1..], row[1..], keep)
    else ValsIn(cols[1..], row[1..], keep)
  }

  function ProjectRows(cols: seq<TabCol>, rows: seq<Row>, keep: set<TabCol>): (r: seq<Row>)
    requires RowsFit(rows, |cols|)
    ensures |r| == |rows| && RowsFit(r, |ColsIn(cols, keep)|)
  {
    if rows == [] then [] else [ValsIn(cols, rows[0], keep)] + ProjectRows(cols, rows[1..], keep)
  }

  lemma {:induction false} ColsInHas(cols: seq<TabCol>, keep: set<TabCol>, c: TabCol)
    ensures c in ColsIn(cols, keep) <==> c in cols && c in keep
  {
    if cols != [] { ColsInHas(cols[1..], keep, c); }
  }

  lemma {:induction false} ColsInDistinct(cols: seq<TabCol>, keep: set<TabCol>)
    requires DistinctCols(cols)
    ensures DistinctCols(ColsIn(cols, keep))
  {
    if cols != [] {
      var rest := cols[1..];
      forall i, j | 0 <= i < j < |rest| ensures rest[i] != rest[j] { assert cols[i + 1] != cols[j + 1]; }
      ColsInDistinct(rest, keep);
      forall i | 0 <= i < |ColsIn(rest, keep)| ensures ColsIn(rest, keep)[i] != cols[0] {
        ColsInHas(rest, keep, ColsIn(rest, keep)[i]);
        var k :| 0 <= k < |rest| && rest[k] == ColsIn(rest, keep)[i];
        assert cols[0] != cols[k + 1];
      }
    }
  }

  lemma FindTail(cols: seq<TabCol>, c: TabCol)
    requires cols != [] && cols[0] != c
    ensures FindCol(cols, c, 0) == 1 + FindCol(cols[1..], c, 0)
  {
    assert cols == [cols[0]] + cols[1..];
    FindInRight([cols[0]], cols[1..], c, 0);
    assert FindCol(cols, c, 0) == FindCol(cols, c, 1);
  }

  lemma ColsInCons(cols: seq<TabCol>, row: Row, keep: set<TabCol>)
    requires cols != [] && |row| == |cols|
    ensures ColsIn(cols, keep) == (if cols[0] in keep then [cols[0]] else []) + ColsIn(cols[1..], keep)
    ensures ValsIn(cols, row, keep) == (if cols[0] in keep then [row[0]] else []) + ValsIn(cols[1..], row[1..], keep)
  {
  }

  /** The value of a column in a row. */
  predicate HasValue(cols: seq<TabCol>, row: Row, c: TabCol, v: int) {
    var i := FindCol(cols, c, 0);
    i < |cols| && i < |row| && row[i] == v
  }

  lemma HasValueCons(first: TabCol, cols: seq<TabCol>, u: int, row: Row, c: TabCol, v: int)
    requires |row| == |cols|
    ensures HasValue([first] + cols, [u] + row, c, v) <==> if first == c then u == v else HasValue(cols, row, c, v)
  {
    if first != c {
      FindTail([first] + cols, c);
      assert ([first] + cols)[1..] == cols;
    }
  }

  /** The value of a column is the same after the projection. */
  lemma {:induction false} ProjectedValue(cols: seq<TabCol>, row: Row, keep: set<TabCol>, c: TabCol, v: int)
    requires |row| == |cols| && c in keep && HasValue(cols, row, c, v)
    ensures HasValue(ColsIn(cols, keep), ValsIn(cols, row, keep), c, v)
  {
    if cols != [] {
      assert cols == [cols[0]] + cols[1..] && row == [row[0]] + row[1..];
      HasValueCons(cols[0], cols[1..], row[0], row[1..], c, v);
      ColsInCons(cols, row, keep);
      if cols[0] != c { ProjectedValue(cols[1..], row[1..], keep, c, v); }
      var restCols, rest := ColsIn(cols[1..], keep), ValsIn(cols[1..], row[1..], keep);
      if cols[0] in keep {
        HasValueCons(cols[0], restCols, row[0], rest, c, v);
      } else {
        assert [] + restCols == restCols && [] + rest == rest;
      }
    }
  }

  lemma ProjectedTuple(cols: seq<TabCol>, row: Row, keep: set<TabCol>)
    requires |row| == |cols|
    ensures ToTuple(ColsIn(cols, keep), ValsIn(cols, row, keep)) == Restrict(ToTuple(cols, row), keep)
  {
    var t, u := ToTuple(ColsIn(cols, keep), ValsIn(cols, row, keep)), Restrict(ToTuple(cols, row), keep);
    forall c ensures c in t <==> c in u { ColsInHas(cols, keep, c); }
    forall c | c in t ensures t[c] == u[c] {
      ColsInHas(cols, keep, c);
      FoundCol(cols, c);
      ProjectedValue(cols, row, keep, c, row[FindCol(cols, c, 0)]);
    }
    assert t == u;
  }

  lemma {:induction false} ProjectYields(cols: seq<TabCol>, rows: seq<Row>, keep: set<TabCol>)
    requires RowsFit(rows, |cols|)
    ensures ToTuples(ColsIn(cols, keep), ProjectRows(cols, rows, keep)) == RestrictAll(ToTuples(cols, rows), keep)
  {
    if rows != [] {
      ProjectYields(cols, rows[1..], keep);
      ProjectedTuple(cols, rows[0], keep);
      assert ProjectRows(cols, rows, keep)[1..] == ProjectRows(cols, rows[1..], keep);
      assert ToTuples(cols, rows)[1..] == ToTuples(cols, rows[1..]);
    }
  }

  // ----- whole plans -----

  /** The rows whose tuples pass. */
  function Kept(cols: seq<TabCol>, rows: seq<Row>, cs: seq<Cond>): (kept: seq<Row>)
    requires RowsFit(rows, |cols|)
    ensures RowsFit(kept, |cols|)
  {
    if rows == [] then []
    else if AllPass(cs, ToTuple(cols, rows[0])) then [rows[0]] + Kept(cols, rows[1..], cs)
    else Kept(cols, rows[1..], cs)
  }

  lemma {:induction false} KeptYields(cols: seq<TabCol>, rows: seq<Row>, cs: seq<Cond>)
    requires RowsFit(rows, |cols|)
    ensures ToTuples(cols, Kept(cols, rows, cs)) == Keep(ToTuples(cols, rows), cs)
  {
    if rows != [] {
      KeptYields(cols, rows[1..], cs);
      var rest := Kept(cols, rows[1..], cs);
      ToTuplesTail(cols, rows, 0);
      assert rows[0..] == rows && ToTuples(cols, rows)[1..] == ToTuples(cols, rows[1..]);
      if AllPass(cs, ToTuple(cols, rows[0])) { ToTuplesCons(cols, rows[0], rest); }
    }
  }

  /** With all columns there, they are the rows the scans and the filter iterator yield. */
  lemma {:induction false} KeptIsFiltered(cols: seq<TabCol>, rows: seq<Row>, cs: seq<Cond>, i: nat)
    requires i <= |rows| && RowsFit(rows, |cols|) && AllHaveCols(cs, cols)
    ensures F.AllRowsFit(rows, ResolveAll(cs, cols)) && RowsFit(rows[i..], |cols|)
    ensures Kept(cols, rows[i..], cs) == F.KeepFrom(rows, i, ResolveAll(cs, cols))
    decreases |rows| - i
  {
    FitRows(rows, cs, cols);
    if i < |rows| {
      KeptIsFiltered(cols, rows, cs, i + 1);
      ResolvedPass(cs, cols, rows[i]);
      assert rows[i..][1..] == rows[i + 1..];
    }
  }

  /** What a caller gets from an iterator: rows, and maybe one null, when there were rows and none was left. */
  datatype Output = Output(rows: seq<Row>, null_: bool)

  /** A caller finds the iterator not at its end and asks for a row. */
  predicate Pulls(out: Output) { out.rows != [] || out.null_ }

  function OutCols(p: Plan, store: map<string, Table>): seq<TabCol> {
    match p
    case Scan(tab, _) => if tab in store then store[tab].cols else []
    case Filter(sub, _) => OutCols(sub, store)
    case Projection(sub, keep) => ColsIn(OutCols(sub, store), keep)
    case Join(left, right, _) => OutCols(left, store) + OutCols(right, store)
  }

  predicate NoJoin(p: Plan) {
    match p
    case Scan(_, _) => true
    case Filter(sub, _) => NoJoin(sub)
    case Projection(sub, _) => NoJoin(sub)
    case Join(_, _, _) => false
  }

  /** The planner's trees: joins of different tables that nest to the left only, as a join iterator cannot be started
      again, and whose conditions compare columns; no filter above a join. */
  predicate Runnable(p: Plan) {
    match p
    case Scan(_, _) => true
    case Filter(sub, _) => NoJoin(sub) && Runnable(sub)
    case Projection(sub, _) => Runnable(sub)
    case Join(left, right, cs) =>
      Runnable(left) && Runnable(right) && NoJoin(right) && AllColRefs(cs) && P.TablesIn(left) !! P.TablesIn(right)
  }

  function FilterRun(cols: seq<TabCol>, rows: seq<Row>, cs: seq<Cond>): (r: Option<seq<Row>>)
    requires RowsFit(rows, |cols|)
    ensures r.Some? ==> RowsFit(r.value, |cols|)
  {
    if AllEvaluate(ToTuples(cols, rows), cs) then Some(Kept(cols, rows, cs)) else None
  }

  function JoinRun(left: seq<TabCol>, a: Output, right: seq<TabCol>, b: Output, cs: seq<Cond>): (r: Option<Output>)
    requires RowsFit(a.rows, |left|) && RowsFit(b.rows, |right|)
    ensures r.Some? ==> RowsFit(r.value.rows, |left + right|)
  {
    if b.null_ || (a.null_ && Pulls(b)) then None
    else
      JoinedFit(JoinSpec(left, right, cs), a.rows, 0, b.rows, 0);
      Some(Output(Joined(JoinSpec(left, right, cs), a.rows, b.rows), false))
  }

  /** A run of a plan to its end, put together from the runs of its iterators. There is none when a row gets as far as a
      condition whose column is not there, or when a join gets a null, which it takes for a row. The right side of a
      join is started only when the left side is not at its end. */
  function Runs(p: Plan, store: map<string, Table>): (r: Option<Output>)
    requires StoreOk(store)
    ensures r.Some? ==> RowsFit(r.value.rows, |OutCols(p, store)|)
  {
    match p
    case Scan(tab, cs) =>
      if tab !in store then None
      else
        assert TableFits(store[tab], tab);
        (match FilterRun(store[tab].cols, store[tab].rows, cs)
         case None => None
         case Some(rows) => Some(Output(rows, false)))
    case Filter(sub, cs) =>
      (match Runs(sub, store)
       case None => None
       case Some(out) =>
         match FilterRun(OutCols(sub, store), out.rows, cs)
         case None => None
         case Some(rows) => Some(Output(rows, out.null_ || (out.rows != [] && rows == []))))
    case Projection(sub, keep) =>
      (match Runs(sub, store)
       case None => None
       case Some(out) => Some(Output(ProjectRows(OutCols(sub, store), out.rows, keep), out.null_)))
    case Join(left, right, cs) =>
      match Runs(left, store)
      case None => None
      case Some(a) =>
        if !Pulls(a) then Some(Output([], false)) else
          match Runs(right, store)
          case None => None
          case Some(b) => JoinRun(OutCols(left, store), a, OutCols(right, store), b, cs)
  }

  lemma FilterRunYields(cols: seq<TabCol>, rows: seq<Row>, cs: seq<Cond>)
    requires RowsFit(rows, |cols|)
    ensures FilterRun(cols, rows, cs).Some? <==> FilterRows(ToTuples(cols, rows), cs).Some?
    ensures FilterRun(cols, rows, cs).Some? ==>
      FilterRows(ToTuples(cols, rows), cs) == Some(ToTuples(cols, FilterRun(cols, rows, cs).value))
  {
    FilterSome(ToTuples(cols, rows), cs);
    KeptYields(cols, rows, cs);
  }

  predicate ColsOf(cols: seq<TabCol>, tabs: set<string>) {
    forall i | 0 <= i < |cols| :: cols[i].tab in tabs
  }

  lemma {:induction false} OutColsOf(p: Plan, store: map<string, Table>)
    requires StoreOk(store)
    ensures ColsOf(OutCols(p, store), P.TablesIn(p))
  {
    match p
    case Scan(tab, _) => if tab in store { assert TableFits(store[tab], tab); }
    case Filter(sub, _) => OutColsOf(sub, store);
    case Projection(sub, keep) =>
      OutColsOf(sub, store);
      var cols := OutCols(p, store);
      forall i | 0 <= i < |cols| ensures cols[i].tab in P.TablesIn(p) { ColsInHas(OutCols(sub, store), keep, cols[i]); }
    case Join(left, right, _) =>
      OutColsOf(left, store);
      OutColsOf(right, store);
  }

  /** A run that comes to its end yields the rows the plan denotes. */
  lemma {:induction false} RunsDenote(p: Plan, store: map<string, Table>)
    requires StoreOk(store) && Runnable(p) && Runs(p, store).Some?
    ensures Denote(p, DbOf(store)) == Some(ToTuples(OutCols(p, store), Runs(p, store).value.rows))
    ensures Runs(p, store).value.null_ ==> Runs(p, store).value.rows == []
  {
    match p
    case Scan(tab, cs) =>
      assert TableFits(store[tab], tab);
      FilterRunYields(store[tab].cols, store[tab].rows, cs);
    case Filter(sub, cs) =>
      RunsDenote(sub, store);
      FilterRunYields(OutCols(sub, store), Runs(sub, store).value.rows, cs);
    case Projection(sub, keep) =>
      RunsDenote(sub, store);
      ProjectYields(OutCols(sub, store), Runs(sub, store).value.rows, keep);
    case Join(left, right, cs) =>
      RunsDenote(left, store);
      var a := Runs(left, store).value;
      if Pulls(a) {
        RunsDenote(right, store);
        JoinRunDenotes(left, right, cs, store);
      }
  }

  lemma JoinRunDenotes(left: Plan, right: Plan, cs: seq<Cond>, store: map<string, Table>)
    requires StoreOk(store) && Runnable(Join(left, right, cs)) && Runs(left, store).Some? && Runs(right, store).Some?
    requires var a, b := Runs(left, store).value, Runs(right, store).value;
      && JoinRun(OutCols(left, store), a, OutCols(right, store), b, cs).Some?
      && Denote(left, DbOf(store)) == Some(ToTuples(OutCols(left, store), a.rows))
      && Denote(right, DbOf(store)) == Some(ToTuples(OutCols(right, store), b.rows))
    ensures var rows := Joined(JoinSpec(OutCols(left, store), OutCols(right, store), cs), Runs(left, store).value.rows,
                               Runs(right, store).value.rows);
      && RowsFit(rows, |OutCols(left, store) + OutCols(right, store)|)
      && Denote(Join(left, right, cs), DbOf(store))
         == Some(ToTuples(OutCols(left, store) + OutCols(right, store), rows))
  {
    OutColsOf(left, store);
    OutColsOf(right, store);
    JoinDenotes(left, right, cs, DbOf(store));
    JoinAll(OutCols(left, store), Runs(left, store).value.rows, OutCols(right, store), Runs(right, store).value.rows,
            cs, P.TablesIn(left), P.TablesIn(right));
  }

  lemma JoinAll(left: seq<TabCol>, ls: seq<Row>, right: seq<TabCol>, rs: seq<Row>, cs: seq<Cond>, ta: set<string>,
                tb: set<string>)
    requires RowsFit(ls, |left|) && RowsFit(rs, |right|) && AllColRefs(cs)
    requires ColsOf(left, ta) && ColsOf(right, tb) && ta !! tb
    ensures var rows := Joined(JoinSpec(left, right, cs), ls, rs);
      && RowsFit(rows, |left + right|)
      && ToTuples(left + right, rows) == JoinRows(ToTuples(left, ls), ToTuples(right, rs), cs)
  {
    var spec := JoinSpec(left, right, cs);
    JoinedFit(spec, ls, 0, rs, 0);
    JoinYields(spec, ls, 0, rs);
    assert ls[0..] == ls;
  }
}
