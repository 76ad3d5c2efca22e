// The columns get_index_cols chooses, against the key range a scan of that index derives from the same conditions.
module IndexChoice {
  import opened ScanDefs
  import opened KeyRange
  import opened PlanDefs
  import opened Joins
  import opened PlanRuns
  import P = Planner

  /** Conditions as a scan on the table gets them when no condition compares two columns. */
  predicate OwnLiterals(conds: seq<Cond>, tab: string, cols: seq<TabCol>) {
    forall j | 0 <= j < |conds| :: conds[j].rhs.Value? && conds[j].lhs.tab == tab && conds[j].lhs in cols
  }

  /** The place of a column of the table. */
  function Place(cols: seq<TabCol>, tab: string, col: string): nat { FindCol(cols, TabCol(tab, col), 0) }

  function Places(cols: seq<TabCol>, tab: string, index: seq<string>): (at: seq<nat>)
    ensures |at| == |index| && forall i | 0 <= i < |index| :: at[i] == Place(cols, tab, index[i])
  {
    if index == [] then [] else [Place(cols, tab, index[0])] + Places(cols, tab, index[1..])
  }

  /** At most one condition is on the column. */
  predicate OneCond(conds: seq<Cond>, x: TabCol) {
    forall j, k | 0 <= j < k < |conds| :: conds[j].lhs != x || conds[k].lhs != x
  }

  lemma SamePlace(cols: seq<TabCol>, x: TabCol, y: TabCol)
    requires x in cols
    ensures FindCol(cols, x, 0) == FindCol(cols, y, 0) <==> x == y
  {
    FoundCol(cols, x);
  }

  predicate OrderBound(b: Bound) { b.Exact? || b.From? || b.UpTo? }

  /** The first condition on a column, and what it makes the bound. */
  lemma FirstCond(conds: seq<Cond>, tab: string, cols: seq<TabCol>, col: string) returns (i: nat)
    requires OwnLiterals(conds, tab, cols)
    ensures i <= |conds| && (forall j | 0 <= j < i :: conds[j].lhs != TabCol(tab, col))
    ensures i < |conds| ==> conds[i].lhs == TabCol(tab, col)
    ensures var b := BoundOn(ResolveAll(conds, cols), Place(cols, tab, col));
      && (b.NoCond? <==> i == |conds|) && (b.Exact? <==> i < |conds| && conds[i].op == OP_EQ)
      && (OrderBound(b) <==> i < |conds| && conds[i].op != OP_NE)
  {
    var rs, at := ResolveAll(conds, cols), Place(cols, tab, col);
    forall j | 0 <= j < |conds| ensures KeyRange.Usable(rs[j], at) <==> conds[j].lhs == TabCol(tab, col) {
      SamePlace(cols, conds[j].lhs, TabCol(tab, col));
    }
    i := FirstOn(rs, at, 0);
  }

  lemma OwnSide(conds: seq<Cond>, tab: string, cols: seq<TabCol>, x: TabCol, ops: set<CompOp>)
    requires OwnLiterals(conds, tab, cols)
    ensures P.ComparedBy(conds, x, ops) <==> exists j :: 0 <= j < |conds| && conds[j].op in ops && conds[j].lhs == x
  {
  }

  /** What the planner asks of a column and what the scan takes from the conditions on it. */
  lemma ColumnChosen(conds: seq<Cond>, tab: string, cols: seq<TabCol>, col: string)
    requires OwnLiterals(conds, tab, cols)
    ensures var b, x := BoundOn(ResolveAll(conds, cols), Place(cols, tab, col)), TabCol(tab, col);
      && (OrderBound(b) ==> P.ComparedBy(conds, x, P.ORDERED))
      && (b.Exact? ==> P.ComparedBy(conds, x, {OP_EQ}))
      && (b.NoCond? ==> !P.ComparedBy(conds, x, P.ORDERED) && !P.ComparedBy(conds, x, {OP_EQ}))
      && (OneCond(conds, x) ==>
           (OrderBound(b) <==> P.ComparedBy(conds, x, P.ORDERED)) && (b.Exact? <==> P.ComparedBy(conds, x, {OP_EQ})))
  {
    var x := TabCol(tab, col);
    var i := FirstCond(conds, tab, cols, col);
    OwnSide(conds, tab, cols, x, P.ORDERED);
    OwnSide(conds, tab, cols, x, {OP_EQ});
  }

  lemma {:induction false} EqualRun(bs: seq<Bound>, i: nat, r: nat)
    requires i <= r <= |bs| && (forall k | i <= k < r :: bs[k].Exact?) && (r < |bs| ==> !bs[r].Exact?)
    ensures Equalities(bs, i) == r
    decreases r - i
  {
    if i < r { EqualRun(bs, i + 1, r); }
  }

  /** With at most one condition on a column, the columns chosen are those the scan goes by: none if there is no bound
      on the first, else the first and the equalities behind it. */
  lemma ChosenByBounds(conds: seq<Cond>, tab: string, cols: seq<TabCol>, index: seq<string>)
    requires OwnLiterals(conds, tab, cols) && forall i | 0 <= i < |index| :: OneCond(conds, TabCol(tab, index[i]))
    ensures var bs := Bounds(ResolveAll(conds, cols), Places(cols, tab, index));
      P.MatchLen(conds, tab, index, 0) == if bs == [] || !OrderBound(bs[0]) then 0 else Equalities(bs, 1)
  {
    var bs := Bounds(ResolveAll(conds, cols), Places(cols, tab, index));
    var r := P.MatchLen(conds, tab, index, 0);
    P.MatchedCols(conds, tab, index);
    if index != [] { ColumnChosen(conds, tab, cols, index[0]); }
    if r > 0 {
      forall i | 0 < i < r ensures bs[i].Exact? {
        assert P.ComparedBy(conds, TabCol(tab, index[..r][i]), {OP_EQ});
        ColumnChosen(conds, tab, cols, index[i]);
      }
      if r < |index| { ColumnChosen(conds, tab, cols, index[r]); }
      EqualRun(bs, 1, r);
    }
  }
}
