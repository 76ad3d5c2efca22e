// The planner: which conditions go to which scan and which join.
module Planner {
  import opened IxDefs
  import opened ScanDefs
  import opened PlanDefs
  import opened LeftDeepPlans

  // ----- picking conditions out of the list -----

  /** What pop_conds takes for a table, and what a join takes for its new table and the tables to its left. */
  datatype Pick = ForTable(tab: string) | ForJoin(newTable: string, left: set<string>)

  /** The table of the right-hand side; a literal has none. */
  function RhsTab(c: Cond): string { if c.rhs.ColRef? then c.rhs.col.tab else "" }

  predicate Picks(p: Pick, c: Cond) {
    match p
    case ForTable(tab) => (tab == c.lhs.tab && c.rhs.Value?) || c.lhs.tab == RhsTab(c)
    case ForJoin(newTable, left) =>
      c.rhs.ColRef?
      && ((c.lhs.tab == newTable && c.rhs.col.tab in left) || (c.rhs.col.tab == newTable && c.lhs.tab in left))
  }

  /** Of the first n conditions, those picked. */
  function Take(conds: seq<Cond>, p: Pick, n: nat): seq<Cond>
    requires n <= |conds|
  {
    if n == 0 then []
    else if Picks(p, conds[n - 1]) then Take(conds, p, n - 1) + [conds[n - 1]]
    else Take(conds, p, n - 1)
  }

  /** And those left. */
  function Leave(conds: seq<Cond>, p: Pick, n: nat): seq<Cond>
    requires n <= |conds|
  {
    if n == 0 then []
    else if Picks(p, conds[n - 1]) then Leave(conds, p, n - 1)
    else Leave(conds, p, n - 1) + [conds[n - 1]]
  }

  /** cs are the conditions at the given places, which are below n and rising. */
  predicate TakenFrom(cs: seq<Cond>, conds: seq<Cond>, n: nat, at: seq<nat>) {
    && |cs| == |at| && n <= |conds|
    && (forall k | 0 <= k < |at| :: at[k] < n && cs[k] == conds[at[k]])
    && (forall k, l | 0 <= k < l < |at| :: at[k] < at[l])
  }

  lemma TakeOne(cs: seq<Cond>, conds: seq<Cond>, k: nat, at: seq<nat>)
    requires k < |conds| && TakenFrom(cs, conds, k, at)
    ensures TakenFrom(cs + [conds[k]], conds, k + 1, at + [k])
  {
  }

  /** Both keep the order of the vector: picked are the conditions at the places that are to be picked, left those at
      the others. */
  lemma {:induction false} PickedPlaces(conds: seq<Cond>, p: Pick, n: nat) returns (picked: seq<nat>, left: seq<nat>)
    requires n <= |conds|
    ensures TakenFrom(Take(conds, p, n), conds, n, picked) && TakenFrom(Leave(conds, p, n), conds, n, left)
    ensures forall i: nat {:trigger i in picked} {:trigger i in left} | i < n ::
      (i in picked <==> Picks(p, conds[i])) && (i in left <==> !Picks(p, conds[i]))
  {
    picked, left := [], [];
    if n > 0 {
      var k: nat := n - 1;
      picked, left := PickedPlaces(conds, p, k);
      if Picks(p, conds[k]) {
        TakeOne(Take(conds, p, k), conds, k, picked);
        picked := picked + [k];
      } else {
        TakeOne(Leave(conds, p, k), conds, k, left);
        left := left + [k];
      }
    }
  }

  function Taken(conds: seq<Cond>, p: Pick): seq<Cond> { Take(conds, p, |conds|) }
  function Rest(conds: seq<Cond>, p: Pick): seq<Cond> { Leave(conds, p, |conds|) }

  lemma Append(s: seq<Cond>, c: Cond)
    ensures multiset(s + [c]) == multiset(s) + multiset{c}
  {
  }

  lemma Longer(conds: seq<Cond>, n: nat)
    requires 0 < n <= |conds|
    ensures multiset(conds[..n]) == multiset(conds[..n - 1]) + multiset{conds[n - 1]}
  {
    assert conds[..n] == conds[..n - 1] + [conds[n - 1]];
  }

  lemma AddToOne(a: multiset<Cond>, b: multiset<Cond>, all: multiset<Cond>, c: Cond)
    requires a + b == all
    ensures (a + multiset{c}) + b == all + multiset{c} && a + (b + multiset{c}) == all + multiset{c}
  {
  }

  /** Nothing is lost or doubled. */
  lemma {:induction false} TakeLeave(conds: seq<Cond>, p: Pick, n: nat)
    requires n <= |conds|
    ensures multiset(Take(conds, p, n)) + multiset(Leave(conds, p, n)) == multiset(conds[..n])
  {
    if n > 0 {
      var c, taken, left := conds[n - 1], Take(conds, p, n - 1), Leave(conds, p, n - 1);
      TakeLeave(conds, p, n - 1);
      AddToOne(multiset(taken), multiset(left), multiset(conds[..n - 1]), c);
      Longer(conds, n);
      if Picks(p, c) {
        Append(taken, c);
        assert Take(conds, p, n) == taken + [c] && Leave(conds, p, n) == left;
      } else {
        Append(left, c);
        assert Take(conds, p, n) == taken && Leave(conds, p, n) == left + [c];
      }
    }
  }

  /** The vector while it is walked: what was left before position it, and what is still to be looked at. */
  predicate Walking(conds: seq<Cond>, p: Pick, n: nat, it: nat, solved: seq<Cond>, rest: seq<Cond>)
    requires n <= |conds|
  {
    it == |Leave(conds, p, n)| && solved == Take(conds, p, n) && rest == Leave(conds, p, n) + conds[n..]
  }

  lemma WalkOn(conds: seq<Cond>, p: Pick, n: nat, it: nat, solved: seq<Cond>, rest: seq<Cond>)
    requires n < |conds| && Walking(conds, p, n, it, solved, rest)
    ensures it < |rest| && rest[it] == conds[n]
    ensures Picks(p, conds[n]) ==> Walking(conds, p, n + 1, it, solved + [conds[n]], rest[..it] + rest[it + 1..])
    ensures !Picks(p, conds[n]) ==> Walking(conds, p, n + 1, it + 1, solved, rest)
  {
    var before := Leave(conds, p, n);
    assert conds[n..] == [conds[n]] + conds[n + 1..];
    assert rest == before + [conds[n]] + conds[n + 1..];
    assert rest[..it] == before && rest[it + 1..] == conds[n + 1..];
  }

  lemma WalkEnd(conds: seq<Cond>, p: Pick, n: nat, it: nat, solved: seq<Cond>, rest: seq<Cond>)
    requires n <= |conds| && Walking(conds, p, n, it, solved, rest) && it >= |rest|
    ensures solved == Taken(conds, p) && rest == Rest(conds, p)
  {
    assert conds[n..] == [];
    assert n == |conds|;
  }

  /** The loop of pop_conds and of make_one_rel's joins: take the picked conditions out of the vector as
      it is walked. */
  method PopConds(conds: seq<Cond>, p: Pick) returns (solved: seq<Cond>, rest: seq<Cond>)
    ensures solved == Taken(conds, p) && rest == Rest(conds, p)
  {
    solved, rest := [], conds;
    var it := 0;
    ghost var n := 0;
    while it < |rest|
      invariant n <= |conds| && Walking(conds, p, n, it, solved, rest)
      decreases |conds| - n
    {
      WalkOn(conds, p, n, it, solved, rest);
      if Picks(p, rest[it]) {
        solved := solved + [rest[it]];
        rest := rest[..it] + rest[it + 1..];
      } else {
        it := it + 1;
      }
      n := n + 1;
    }
    WalkEnd(conds, p, n, it, solved, rest);
  }

  // ----- what make_one_rel attaches where -----

  function AfterTables(conds: seq<Cond>, tables: seq<string>, n: nat): seq<Cond>
    requires n <= |tables|
  {
    if n == 0 then conds else Rest(AfterTables(conds, tables, n - 1), ForTable(tables[n - 1]))
  }

  /** The conditions popped for table i. */
  function SingleAt(conds: seq<Cond>, tables: seq<string>, i: nat): seq<Cond>
    requires i < |tables|
  {
    Taken(AfterTables(conds, tables, i), ForTable(tables[i]))
  }

  function FirstTables(tables: seq<string>, n: nat): set<string>
    requires n <= |tables|
  {
    if n == 0 then {} else FirstTables(tables, n - 1) + {tables[n - 1]}
  }

  function AfterJoins(conds: seq<Cond>, tables: seq<string>, n: nat): seq<Cond>
    requires n < |tables|
  {
    if n == 0 then AfterTables(conds, tables, |tables|)
    else Rest(AfterJoins(conds, tables, n - 1), ForJoin(tables[n], FirstTables(tables, n)))
  }

  /** The conditions attached to the join that adds table i. */
  function JoinAt(conds: seq<Cond>, tables: seq<string>, i: nat): seq<Cond>
    requires i < |tables|
  {
    if i == 0 then [] else Taken(AfterJoins(conds, tables, i - 1), ForJoin(tables[i], FirstTables(tables, i)))
  }

  function NonLiteral(conds: seq<Cond>, n: nat): (r: seq<Cond>)
    requires n <= |conds|
    ensures forall i | 0 <= i < |r| :: r[i].rhs.ColRef?
    ensures (forall i | 0 <= i < n :: conds[i].rhs.ColRef?) ==> r == conds[..n]
  {
    if n == 0 then []
    else if conds[n - 1].rhs.ColRef? then NonLiteral(conds, n - 1) + [conds[n - 1]]
    else NonLiteral(conds, n - 1)
  }

  /** What no table and no join took; it goes to the outermost join. */
  function Leftover(conds: seq<Cond>, tables: seq<string>): seq<Cond>
    requires tables != []
  {
    var rest := AfterJoins(conds, tables, |tables| - 1);
    NonLiteral(rest, |rest|)
  }

  function Singles(conds: seq<Cond>, tables: seq<string>, n: nat): (r: seq<seq<Cond>>)
    requires n <= |tables|
    ensures |r| == n && forall i | 0 <= i < n :: r[i] == SingleAt(conds, tables, i)
  {
    if n == 0 then [] else Singles(conds, tables, n - 1) + [SingleAt(conds, tables, n - 1)]
  }

  function Joins(conds: seq<Cond>, tables: seq<string>, n: nat): (r: seq<seq<Cond>>)
    requires n <= |tables|
    ensures |r| == n && forall i | 0 <= i < n :: r[i] == JoinAt(conds, tables, i)
  {
    if n == 0 then [] else Joins(conds, tables, n - 1) + [JoinAt(conds, tables, n - 1)]
  }

  /** With the leftover conditions on the last join. */
  function JoinsAndLeftover(conds: seq<Cond>, tables: seq<string>): (r: seq<seq<Cond>>)
    requires tables != []
    ensures |r| == |tables|
  {
    var n := |tables|;
    Joins(conds, tables, n)[n - 1 := JoinAt(conds, tables, n - 1) + Leftover(conds, tables)]
  }

  /** A table's scan: with an index the scan checks the conditions, without one a filter checks them again. */
  function PartFor(tab: string, conds: seq<Cond>, indexExist: bool): Plan {
    var scan := Scan(tab, conds);
    if !indexExist && conds != [] then Filter(scan, conds) else scan
  }

  function PartAt(conds: seq<Cond>, tables: seq<string>, indexes: map<string, seq<seq<string>>>, i: nat): Plan
    requires i < |tables|
  {
    var curr := SingleAt(conds, tables, i);
    PartFor(tables[i], curr, IndexExists(curr, tables[i], indexes))
  }

  function Parts(conds: seq<Cond>, tables: seq<string>, indexes: map<string, seq<seq<string>>>, n: nat): (r: seq<Plan>)
    requires n <= |tables|
    ensures |r| == n && forall i | 0 <= i < n :: r[i] == PartAt(conds, tables, indexes, i)
  {
    if n == 0 then [] else Parts(conds, tables, indexes, n - 1) + [PartAt(conds, tables, indexes, n - 1)]
  }

  // ----- get_index_cols -----

  function Reversed(op: CompOp): CompOp {
    match op
    case OP_LT => OP_GT
    case OP_GT => OP_LT
    case OP_LE => OP_GE
    case OP_GE => OP_LE
    case _ => op
  }

  /** The comparison a condition makes with a column of the table, seen from that column. */
  function Mention(c: Cond, tab: string, col: string): Option<CompOp> {
    if c.lhs.tab == tab then (if c.lhs.col == col then Some(c.op) else None)
    else if c.rhs.ColRef? && c.rhs.col == TabCol(tab, col) then Some(Reversed(c.op))
    else None
  }

  /** A condition makes column number i of an index usable: any comparison but <> for the first, an
      equality for others. */
  predicate UsableBy(c: Cond, tab: string, col: string, i: nat) {
    var op := Mention(c, tab, col);
    op.Some? && if i == 0 then op.value != OP_NE else op.value == OP_EQ
  }

  predicate Usable(conds: seq<Cond>, tab: string, col: string, i: nat) {
    exists k :: 0 <= k < |conds| && UsableBy(conds[k], tab, col, i)
  }

  /** How many leading columns of an index can be used. */
  function MatchLen(conds: seq<Cond>, tab: string, index: seq<string>, i: nat): (r: nat)
    requires i <= |index|
    ensures i <= r <= |index| && (forall k | i <= k < r :: Usable(conds, tab, index[k], k))
    ensures r < |index| ==> !Usable(conds, tab, index[r], r)
    decreases |index| - i
  {
    if i < |index| && Usable(conds, tab, index[i], i) then MatchLen(conds, tab, index, i + 1) else i
  }

  predicate IndexExists(conds: seq<Cond>, tab: string, indexes: map<string, seq<seq<string>>>) {
    tab in indexes && exists k :: 0 <= k < |indexes[tab]| && MatchLen(conds, tab, indexes[tab][k], 0) > 0
  }

  /** Some condition compares the column by one of the operators: from the left, or from the right when its left side is
      in another table. */
  predicate ComparedBy(conds: seq<Cond>, x: TabCol, ops: set<CompOp>) {
    exists j :: 0 <= j < |conds| && conds[j].op in ops && OnSide(conds[j], x)
  }

  predicate OnSide(c: Cond, x: TabCol) {
    c.lhs == x || (c.lhs.tab != x.tab && c.rhs == ColRef(x))
  }

  const ORDERED := {OP_EQ, OP_LT, OP_LE, OP_GT, OP_GE}

  lemma UsableCompared(conds: seq<Cond>, tab: string, col: string, i: nat)
    ensures Usable(conds, tab, col, i) <==> ComparedBy(conds, TabCol(tab, col), if i == 0 then ORDERED else {OP_EQ})
  {
    var ops, x := if i == 0 then ORDERED else {OP_EQ}, TabCol(tab, col);
    forall k | 0 <= k < |conds|
      ensures UsableBy(conds[k], tab, col, i) == (conds[k].op in ops && OnSide(conds[k], x))
    {
    }
  }

  /** cols are the leading columns of the index, the first compared by some operator but <>, the others for equality,
      and the column after them, if there is one, is not compared for equality. */
  predicate LeadingCols(conds: seq<Cond>, tab: string, index: seq<string>, cols: seq<string>) {
    && 0 < |cols| <= |index| && cols == index[..|cols|]
    && ComparedBy(conds, TabCol(tab, cols[0]), ORDERED)
    && (forall i | 0 < i < |cols| :: ComparedBy(conds, TabCol(tab, cols[i]), {OP_EQ}))
    && (|cols| < |index| ==> !ComparedBy(conds, TabCol(tab, index[|cols|]), {OP_EQ}))
  }

  /** How many columns of an index can be used, said of the conditions. */
  lemma MatchedCols(conds: seq<Cond>, tab: string, index: seq<string>)
    ensures var r := MatchLen(conds, tab, index, 0);
      && (r > 0 <==> index != [] && ComparedBy(conds, TabCol(tab, index[0]), ORDERED))
      && (r > 0 ==> LeadingCols(conds, tab, index, index[..r]))
  {
    var r := MatchLen(conds, tab, index, 0);
    forall i | 0 <= i < |index|
      ensures Usable(conds, tab, index[i], i)
         <==> ComparedBy(conds, TabCol(tab, index[i]), if i == 0 then ORDERED else {OP_EQ})
    {
      UsableCompared(conds, tab, index[i], i);
    }
  }

  /** The inner loops of get_index_cols for one index. */
  method MatchIndex(conds: seq<Cond>, tab: string, index: seq<string>) returns (match_: nat)
    ensures match_ == MatchLen(conds, tab, index, 0)
  {
    match_ := 0;
    while match_ < |index|
      invariant match_ <= |index| && MatchLen(conds, tab, index, match_) == MatchLen(conds, tab, index, 0)
    {
      var usable := false;
      for k := 0 to |conds|
        invariant usable <==> exists j :: 0 <= j < k && UsableBy(conds[j], tab, index[match_], match_)
      {
        var op := Mention(conds[k], tab, index[match_]);
        if op.Some? && (if match_ == 0 then op.value != OP_NE else op.value == OP_EQ) { usable := true; }
      }
      if !usable { return; }
      match_ := match_ + 1;
    }
  }

  /** cols are the usable leading columns of index k, which has the most of them, and is the first of several. */
  predicate BestIndex(conds: seq<Cond>, tab: string, all: seq<seq<string>>, k: nat, cols: seq<string>)
    requires k < |all|
  {
    && cols == all[k][..MatchLen(conds, tab, all[k], 0)] && cols != []
    && (forall j | 0 <= j < |all| :: MatchLen(conds, tab, all[j], 0) <= |cols|)
    && (forall j | 0 <= j < k :: MatchLen(conds, tab, all[j], 0) < |cols|)
  }

  /** get_index_cols */
  method GetIndexCols(tab: string, conds: seq<Cond>, indexes: map<string, seq<seq<string>>>)
    returns (found: bool, cols: seq<string>)
    ensures found <==> IndexExists(conds, tab, indexes)
    ensures found <==> (tab in indexes &&
      exists index | index in indexes[tab] :: index != [] && ComparedBy(conds, TabCol(tab, index[0]), ORDERED))
    ensures found ==> exists k: nat | k < |indexes[tab]| ::
      BestIndex(conds, tab, indexes[tab], k, cols) && LeadingCols(conds, tab, indexes[tab][k], cols)
    ensures !found ==> cols == []
  {
    cols := [];
    if tab !in indexes { return false, []; }
    var all := indexes[tab];
    ghost var best := 0;
    for k := 0 to |all|
      invariant forall j | 0 <= j < k :: MatchLen(conds, tab, all[j], 0) <= |cols|
      invariant cols != [] ==> best < k && cols == all[best][..MatchLen(conds, tab, all[best], 0)]
      invariant cols != [] ==> forall j | 0 <= j < best :: MatchLen(conds, tab, all[j], 0) < |cols|
    {
      var matched := MatchIndex(conds, tab, all[k]);
      if matched > |cols| {
        cols := all[k][..matched];
        best := k;
      }
    }
    found := cols != [];
    forall k | 0 <= k < |all|
      ensures MatchLen(conds, tab, all[k], 0) > 0
         <==> all[k] != [] && ComparedBy(conds, TabCol(tab, all[k][0]), ORDERED)
    {
      MatchedCols(conds, tab, all[k]);
    }
    if found {
      MatchedCols(conds, tab, all[best]);
      assert BestIndex(conds, tab, all, best, cols) && LeadingCols(conds, tab, all[best], cols);
    }
  }

  // ----- make_one_rel -----

  /** collect_left_tables */
  function TablesIn(p: Plan): set<string> {
    match p
    case Scan(tab, _) => {tab}
    case Filter(sub, _) => TablesIn(sub)
    case Projection(sub, _) => TablesIn(sub)
    case Join(left, right, _) => TablesIn(left) + TablesIn(right)
  }

  lemma {:induction false} TablesInTree(parts: seq<Plan>, jcs: seq<seq<Cond>>, tables: seq<string>, n: nat)
    requires n < |parts| == |jcs| == |tables| && forall i | 0 <= i < |parts| :: TablesIn(parts[i]) == {tables[i]}
    ensures TablesIn(LeftDeep(parts, jcs, n)) == FirstTables(tables, n + 1)
  {
    if n > 0 { TablesInTree(parts, jcs, tables, n - 1); }
    assert FirstTables(tables, n + 1) == FirstTables(tables, n) + {tables[n]};
  }

  /** The plan make_one_rel builds for a list of tables without explicit joins. */
  function OneRelPlan(tables: seq<string>, conds: seq<Cond>, indexes: map<string, seq<seq<string>>>): Plan
    requires tables != []
  {
    var parts := Parts(conds, tables, indexes, |tables|);
    if |tables| == 1 then parts[0] else LeftDeep(parts, JoinsAndLeftover(conds, tables), |tables| - 1)
  }

  /** The scan plan of one table. */
  method ScanPart(tab: string, conds: seq<Cond>, indexes: map<string, seq<seq<string>>>) returns (plan: Plan)
    ensures plan == PartFor(tab, conds, IndexExists(conds, tab, indexes))
    ensures plan == Scan(tab, conds) || plan == Filter(Scan(tab, conds), conds)
    ensures plan.Filter? <==> (conds != [] && (tab in indexes ==>
      forall index | index in indexes[tab] :: index != [] ==> !ComparedBy(conds, TabCol(tab, index[0]), ORDERED)))
  {
    var indexExist, _ := GetIndexCols(tab, conds, indexes);
    plan := Scan(tab, conds);
    if !indexExist && conds != [] { plan := Filter(plan, conds); }
  }

  /** The scan plans of make_one_rel. */
  method ScanParts(tables: seq<string>, conds: seq<Cond>, indexes: map<string, seq<seq<string>>>)
    returns (parts: seq<Plan>, rest: seq<Cond>)
    ensures parts == Parts(conds, tables, indexes, |tables|) && rest == AfterTables(conds, tables, |tables|)
  {
    parts, rest := [], conds;
    for i := 0 to |tables|
      invariant parts == Parts(conds, tables, indexes, i) && rest == AfterTables(conds, tables, i)
    {
      var curr;
      curr, rest := PopConds(rest, ForTable(tables[i]));
      var scanPlan := ScanPart(tables[i], curr, indexes);
      parts := parts + [scanPlan];
    }
  }

  lemma {:induction false} LeftDeepSame(parts: seq<Plan>, a: seq<seq<Cond>>, b: seq<seq<Cond>>, n: nat)
    requires n < |parts| == |a| == |b| && forall i | 0 < i <= n :: a[i] == b[i]
    ensures LeftDeep(parts, a, n) == LeftDeep(parts, b, n)
  {
    if n > 0 { LeftDeepSame(parts, a, b, n - 1); }
  }

  lemma PartTables(conds: seq<Cond>, tables: seq<string>, indexes: map<string, seq<seq<string>>>)
    ensures forall i | 0 <= i < |tables| :: TablesIn(Parts(conds, tables, indexes, |tables|)[i]) == {tables[i]}
  {
  }

  /** The joins of make_one_rel. */
  method JoinParts(tables: seq<string>, conds: seq<Cond>, parts: seq<Plan>, rest: seq<Cond>)
    returns (plan: Plan, rest': seq<Cond>)
    requires |tables| == |parts| > 0 && rest == AfterTables(conds, tables, |tables|)
    requires forall i | 0 <= i < |parts| :: TablesIn(parts[i]) == {tables[i]}
    ensures plan == LeftDeep(parts, Joins(conds, tables, |tables|), |tables| - 1)
    ensures rest' == AfterJoins(conds, tables, |tables| - 1)
  {
    plan, rest' := parts[0], rest;
    ghost var jcs := Joins(conds, tables, |tables|);
    var i := 1;
    while i < |tables|
      invariant 1 <= i <= |tables|
      invariant plan == LeftDeep(parts, jcs, i - 1)
      invariant rest' == AfterJoins(conds, tables, i - 1)
    {
      plan, rest' := AddJoin(tables, conds, parts, i, plan, rest');
      i := i + 1;
    }
  }

  /** One of them. */
  method AddJoin(tables: seq<string>, conds: seq<Cond>, parts: seq<Plan>, i: nat, plan: Plan, rest: seq<Cond>)
    returns (plan': Plan, rest': seq<Cond>)
    requires 0 < i < |tables| == |parts| && (forall k | 0 <= k < |parts| :: TablesIn(parts[k]) == {tables[k]})
    requires plan == LeftDeep(parts, Joins(conds, tables, |tables|), i - 1) && rest == AfterJoins(conds, tables, i - 1)
    ensures plan' == LeftDeep(parts, Joins(conds, tables, |tables|), i) && rest' == AfterJoins(conds, tables, i)
  {
    TablesInTree(parts, Joins(conds, tables, |tables|), tables, i - 1);
    var joinConds;
    joinConds, rest' := PopConds(rest, ForJoin(tables[i], TablesIn(plan)));
    plan' := Join(plan, parts[i], joinConds);
  }

  /** Conditions that are left over are added to the outermost join, unless they compare with a literal. */
  method AddLeftover(join: Plan, rest: seq<Cond>) returns (plan: Plan)
    requires join.Join?
    ensures plan == Join(join.left, join.right, join.conds + NonLiteral(rest, |rest|))
  {
    plan := join;
    for i := 0 to |rest|
      invariant plan == Join(join.left, join.right, join.conds + NonLiteral(rest, i))
    {
      if rest[i].rhs.ColRef? { plan := Join(plan.left, plan.right, plan.conds + [rest[i]]); }
    }
  }

  /** The tree with other conditions on its outermost join. */
  lemma OtherOnTop(parts: seq<Plan>, joins: seq<seq<Cond>>, all: seq<seq<Cond>>, last: nat)
    requires 0 < last < |parts| == |joins| == |all| && forall i | 0 <= i < last :: joins[i] == all[i]
    ensures var tree := LeftDeep(parts, joins, last);
      tree.Join? && tree.conds == joins[last] && LeftDeep(parts, all, last) == Join(tree.left, tree.right, all[last])
  {
    LeftDeepSame(parts, joins, all, last - 1);
  }

  /** The tree with the leftover conditions on its outermost join. */
  lemma LeftoverOnTop(parts: seq<Plan>, conds: seq<Cond>, tables: seq<string>)
    requires |parts| == |tables| > 1
    ensures var tree := LeftDeep(parts, Joins(conds, tables, |tables|), |tables| - 1);
      && tree.Join?
      && LeftDeep(parts, JoinsAndLeftover(conds, tables), |tables| - 1)
         == Join(tree.left, tree.right, tree.conds + Leftover(conds, tables))
  {
    OtherOnTop(parts, Joins(conds, tables, |tables|), JoinsAndLeftover(conds, tables), |tables| - 1);
  }

  /** make_one_rel */
  method MakeOneRel(tables: seq<string>, conds: seq<Cond>, indexes: map<string, seq<seq<string>>>) returns (plan: Plan)
    requires tables != []
    ensures plan == OneRelPlan(tables, conds, indexes)
  {
    var parts, rest := ScanParts(tables, conds, indexes);
    if |tables| == 1 {
      plan := parts[0];
    } else {
      PartTables(conds, tables, indexes);
      LeftoverOnTop(parts, conds, tables);
      plan, rest := JoinParts(tables, conds, parts, rest);
      plan := AddLeftover(plan, rest);
    }
  }
}
