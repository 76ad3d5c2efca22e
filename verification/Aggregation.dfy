// Grouping and aggregation: rows are filed under their group's key and folded into the group's state one by one.
module Aggregation {
  import opened KeyOrder
  import opened IxDefs
  import opened GroupKey

  type Rec = seq<Value>

  datatype AggFunc = CountAll | Count(col: nat) | Sum(col: nat) | Max(col: nat) | Min(col: nat)

  datatype AggState = AggState(count: nat, aggValues: seq<int>)

  datatype AggResult = AggResult(groupKey: seq<Value>, aggValues: seq<int>, count: nat)

  /** What the executor knows of its input: the column types, the GROUP BY columns and the aggregates. */
  datatype Query = Query(types: seq<ColType>, groupCols: seq<nat>, funcs: seq<AggFunc>)

  predicate FuncOk(f: AggFunc, types: seq<ColType>) {
    match f
    case CountAll => true
    case Count(c) => c < |types|
    case Sum(c) => c < |types| && types[c].TYPE_INT?
    case Max(c) => c < |types| && types[c].TYPE_INT?
    case Min(c) => c < |types| && types[c].TYPE_INT?
  }

  predicate QueryOk(q: Query) {
    && (forall i | 0 <= i < |q.groupCols| :: q.groupCols[i] < |q.types|)
    && (forall i | 0 <= i < |q.funcs| :: FuncOk(q.funcs[i], q.types))
  }

  predicate RowsOk(q: Query, rows: seq<Rec>) {
    forall i | 0 <= i < |rows| :: HasTypes(rows[i], q.types)
  }

  // ----- aggregates of a list of rows -----

  /** 32-bit addition wraps around. */
  function Wrap(x: int): int {
    (x + 0x8000_0000) % 0x1_0000_0000 - 0x8000_0000
  }

  predicate Counted(v: Value) { v.StrValue? ==> v.s != "" }

  function SumOf(rs: seq<Rec>, c: nat, n: nat): int
    requires n <= |rs| && forall i | 0 <= i < |rs| :: c < |rs[i]| && rs[i][c].IntValue?
  {
    if n == 0 then 0 else SumOf(rs, c, n - 1) + rs[n - 1][c].i
  }

  function CountOf(rs: seq<Rec>, c: nat, n: nat): nat
    requires n <= |rs| && forall i | 0 <= i < |rs| :: c < |rs[i]|
  {
    if n == 0 then 0 else CountOf(rs, c, n - 1) + (if Counted(rs[n - 1][c]) then 1 else 0)
  }

  predicate Ints(rs: seq<Rec>, c: nat) {
    forall i | 0 <= i < |rs| :: c < |rs[i]| && rs[i][c].IntValue?
  }

  predicate IsMax(m: int, rs: seq<Rec>, c: nat)
    requires forall i | 0 <= i < |rs| :: c < |rs[i]| && rs[i][c].IntValue?
  {
    (exists i :: 0 <= i < |rs| && rs[i][c].i == m) && forall i | 0 <= i < |rs| :: rs[i][c].i <= m
  }

  predicate IsMin(m: int, rs: seq<Rec>, c: nat)
    requires forall i | 0 <= i < |rs| :: c < |rs[i]| && rs[i][c].IntValue?
  {
    (exists i :: 0 <= i < |rs| && rs[i][c].i == m) && forall i | 0 <= i < |rs| :: m <= rs[i][c].i
  }

  /** x is what aggregate f of the rows rs should be. */
  predicate IsAggregate(x: int, f: AggFunc, q: Query, rs: seq<Rec>)
    requires FuncOk(f, q.types) && RowsOk(q, rs)
  {
    match f
    case CountAll => x == |rs|
    case Count(c) => x == CountOf(rs, c, |rs|)
    case Sum(c) => x == Wrap(SumOf(rs, c, |rs|))
    case Max(c) => rs != [] ==> IsMax(x, rs, c)
    case Min(c) => rs != [] ==> IsMin(x, rs, c)
  }

  /** A state that accounts for the rows rs. COUNT(*) is not kept among the values but as the count. */
  predicate StateOk(s: AggState, q: Query, rs: seq<Rec>)
    requires QueryOk(q) && RowsOk(q, rs)
  {
    && s.count == |rs|
    && (if rs == [] then s.aggValues == []
        else |s.aggValues| == |q.funcs| &&
             forall i | 0 <= i < |q.funcs| && !q.funcs[i].CountAll? :: IsAggregate(s.aggValues[i], q.funcs[i], q, rs))
  }

  // ----- one more row -----

  lemma WrapStep(a: int, b: int)
    ensures Wrap(Wrap(a) + b) == Wrap(a + b)
  {
  }

  /** The switch in update_agg_state: the new value of one aggregate; count is the number of rows with this one. */
  function Step(f: AggFunc, agg: int, record: Rec, count: nat, types: seq<ColType>): int
    requires FuncOk(f, types) && HasTypes(record, types)
  {
    match f
    case CountAll => agg
    case Count(c) => if Counted(record[c]) then agg + 1 else agg
    case Sum(c) => Wrap(agg + record[c].i)
    case Max(c) => if count == 1 || record[c].i > agg then record[c].i else agg
    case Min(c) => if count == 1 || record[c].i < agg then record[c].i else agg
  }

  lemma {:induction false} CountMore(rs: seq<Rec>, r: Rec, c: nat, n: nat)
    requires n <= |rs| && c < |r| && forall i | 0 <= i < |rs| :: c < |rs[i]|
    ensures CountOf(rs + [r], c, n) == CountOf(rs, c, n)
  {
    if n > 0 { CountMore(rs, r, c, n - 1); }
  }

  lemma {:induction false} SumMore(rs: seq<Rec>, r: Rec, c: nat, n: nat)
    requires n <= |rs| && c < |r| && r[c].IntValue?
    requires forall i | 0 <= i < |rs| :: c < |rs[i]| && rs[i][c].IntValue?
    ensures SumOf(rs + [r], c, n) == SumOf(rs, c, n)
  {
    if n > 0 { SumMore(rs, r, c, n - 1); }
  }

  lemma MaxMore(m: int, rs: seq<Rec>, r: Rec, c: nat)
    requires c < |r| && r[c].IntValue? && forall i | 0 <= i < |rs| :: c < |rs[i]| && rs[i][c].IntValue?
    requires rs != [] ==> IsMax(m, rs, c)
    ensures IsMax(if rs == [] || r[c].i > m then r[c].i else m, rs + [r], c)
  {
    var rs' := rs + [r];
    assert rs'[|rs|] == r;
    if rs != [] {
      var i :| 0 <= i < |rs| && rs[i][c].i == m;
      assert rs'[i][c].i == m;
    }
  }

  lemma MinMore(m: int, rs: seq<Rec>, r: Rec, c: nat)
    requires c < |r| && r[c].IntValue? && forall i | 0 <= i < |rs| :: c < |rs[i]| && rs[i][c].IntValue?
    requires rs != [] ==> IsMin(m, rs, c)
    ensures IsMin(if rs == [] || r[c].i < m then r[c].i else m, rs + [r], c)
  {
    var rs' := rs + [r];
    assert rs'[|rs|] == r;
    if rs != [] {
      var i :| 0 <= i < |rs| && rs[i][c].i == m;
      assert rs'[i][c].i == m;
    }
  }

  /** The switch keeps each aggregate equal to the fold over the rows so far. */
  lemma StepKeeps(f: AggFunc, agg: int, q: Query, rs: seq<Rec>, r: Rec)
    requires FuncOk(f, q.types) && RowsOk(q, rs) && HasTypes(r, q.types) && !f.CountAll?
    requires if rs == [] then agg == 0 else IsAggregate(agg, f, q, rs)
    ensures RowsOk(q, rs + [r]) && IsAggregate(Step(f, agg, r, |rs| + 1, q.types), f, q, rs + [r])
  {
    assert RowsOk(q, rs + [r]);
    match f
    case Count(c) =>
      CountMore(rs, r, c, |rs|);
    case Sum(c) =>
      assert HasType(r[c], q.types[c]) && forall i | 0 <= i < |rs| :: HasType(rs[i][c], q.types[c]);
      SumMore(rs, r, c, |rs|);
      WrapStep(SumOf(rs, c, |rs|), r[c].i);
    case Max(c) =>
      assert HasType(r[c], q.types[c]) && forall i | 0 <= i < |rs| :: HasType(rs[i][c], q.types[c]);
      MaxMore(agg, rs, r, c);
    case Min(c) =>
      assert HasType(r[c], q.types[c]) && forall i | 0 <= i < |rs| :: HasType(rs[i][c], q.types[c]);
      MinMore(agg, rs, r, c);
  }

  /** update_agg_state */
  method UpdateAggState(q: Query, state: AggState, record: Rec, ghost rs: seq<Rec>) returns (state': AggState)
    requires QueryOk(q) && RowsOk(q, rs) && HasTypes(record, q.types) && StateOk(state, q, rs)
    ensures RowsOk(q, rs + [record]) && StateOk(state', q, rs + [record])
  {
    var count, values := state.count + 1, state.aggValues;
    while |values| < |q.funcs|
      invariant if rs == [] then |values| <= |q.funcs| && forall i | 0 <= i < |values| :: values[i] == 0
                else values == state.aggValues
    {
      values := values + [0];
    }
    ghost var before := values;
    for i := 0 to |q.funcs|
      invariant |values| == |q.funcs| && forall j | i <= j < |values| :: values[j] == before[j]
      invariant RowsOk(q, rs + [record])
      invariant forall j | 0 <= j < i && !q.funcs[j].CountAll? :: IsAggregate(values[j], q.funcs[j], q, rs + [record])
    {
      if q.funcs[i].CountAll? { continue; }
      StepKeeps(q.funcs[i], values[i], q, rs, record);
      values := values[i := Step(q.funcs[i], values[i], record, count, q.types)];
    }
    state' := AggState(count, values);
  }

  // ----- groups -----

  function GroupVals(q: Query, r: Rec, n: nat): (vals: seq<Value>)
    requires QueryOk(q) && HasTypes(r, q.types) && n <= |q.groupCols|
    ensures |vals| == n && forall i | 0 <= i < n :: vals[i] == r[q.groupCols[i]]
  {
    if n == 0 then [] else GroupVals(q, r, n - 1) + [r[q.groupCols[n - 1]]]
  }

  function GroupOf(q: Query, r: Rec): seq<Value>
    requires QueryOk(q) && HasTypes(r, q.types)
  {
    GroupVals(q, r, |q.groupCols|)
  }

  /** get_group_key */
  function KeyOf(q: Query, r: Rec): string
    requires QueryOk(q) && HasTypes(r, q.types)
  {
    if q.groupCols == [] then "global" else Render(GroupOf(q, r))
  }

  /** Of the first n rows, those filed under the key. */
  function Filed(q: Query, rows: seq<Rec>, n: nat, key: string): (rs: seq<Rec>)
    requires QueryOk(q) && RowsOk(q, rows) && n <= |rows|
    ensures RowsOk(q, rs)
  {
    if n == 0 then [] else
      Filed(q, rows, n - 1, key) + (if KeyOf(q, rows[n - 1]) == key then [rows[n - 1]] else [])
  }

  /** Of the first n rows, those of the group with the given values. */
  function Members(q: Query, rows: seq<Rec>, n: nat, group: seq<Value>): (rs: seq<Rec>)
    requires QueryOk(q) && RowsOk(q, rows) && n <= |rows|
    ensures RowsOk(q, rs)
  {
    if n == 0 then [] else
      Members(q, rows, n - 1, group) + (if GroupOf(q, rows[n - 1]) == group then [rows[n - 1]] else [])
  }

  /** rs are the rows at the given places, which are below n and rising. */
  predicate TakenFrom(rs: seq<Rec>, rows: seq<Rec>, n: nat, at: seq<nat>) {
    && |rs| == |at| && n <= |rows|
    && (forall k | 0 <= k < |at| :: at[k] < n && rs[k] == rows[at[k]])
    && (forall k, l | 0 <= k < l < |at| :: at[k] < at[l])
  }

  lemma TakeOne(rs: seq<Rec>, rows: seq<Rec>, k: nat, at: seq<nat>)
    requires k < |rows| && TakenFrom(rs, rows, k, at)
    ensures TakenFrom(rs + [rows[k]], rows, k + 1, at + [k])
  {
  }

  /** Filed under a key are exactly the rows with that key, in their order and as often as they are there. */
  lemma {:induction false} FiledPlaces(q: Query, rows: seq<Rec>, n: nat, key: string) returns (at: seq<nat>)
    requires QueryOk(q) && RowsOk(q, rows) && n <= |rows|
    ensures TakenFrom(Filed(q, rows, n, key), rows, n, at)
    ensures forall i: nat {:trigger i in at} | i < n :: i in at <==> KeyOf(q, rows[i]) == key
  {
    at := [];
    if n > 0 {
      var k: nat := n - 1;
      at := FiledPlaces(q, rows, k, key);
      if KeyOf(q, rows[k]) == key {
        TakeOne(Filed(q, rows, k, key), rows, k, at);
        at := at + [k];
      }
    }
  }

  /** And in a group those with its values. */
  lemma {:induction false} MembersPlaces(q: Query, rows: seq<Rec>, n: nat, group: seq<Value>) returns (at: seq<nat>)
    requires QueryOk(q) && RowsOk(q, rows) && n <= |rows|
    ensures TakenFrom(Members(q, rows, n, group), rows, n, at)
    ensures forall i: nat {:trigger i in at} | i < n :: i in at <==> GroupOf(q, rows[i]) == group
  {
    at := [];
    if n > 0 {
      var k: nat := n - 1;
      at := MembersPlaces(q, rows, k, group);
      if GroupOf(q, rows[k]) == group {
        TakeOne(Members(q, rows, k, group), rows, k, at);
        at := at + [k];
      }
    }
  }

  predicate KeyUsed(q: Query, rows: seq<Rec>, n: nat, key: string)
    requires QueryOk(q) && RowsOk(q, rows) && n <= |rows|
  {
    exists i :: 0 <= i < n && KeyOf(q, rows[i]) == key
  }

  /** A key has a state just when one of the first n rows has that key, and the state accounts for the rows filed under
      it. */
  predicate StateFor(states: map<string, AggState>, q: Query, rows: seq<Rec>, n: nat, key: string)
    requires QueryOk(q) && RowsOk(q, rows) && n <= |rows|
  {
    var filed := Filed(q, rows, n, key);
    && (key in states <==> KeyUsed(q, rows, n, key)) && (key in states <==> filed != [])
    && (key in states ==> StateOk(states[key], q, filed))
  }

  ghost predicate StatesOk(states: map<string, AggState>, q: Query, rows: seq<Rec>, n: nat)
    requires QueryOk(q) && RowsOk(q, rows) && n <= |rows|
  {
    forall key {:trigger StateFor(states, q, rows, n, key)} :: StateFor(states, q, rows, n, key)
  }

  /** The first loop of compute_final_results. */
  method ComputeStates(q: Query, rows: seq<Rec>) returns (states: map<string, AggState>)
    requires QueryOk(q) && RowsOk(q, rows)
    ensures StatesOk(states, q, rows, |rows|)
  {
    states := map[];
    for n := 0 to |rows|
      invariant StatesOk(states, q, rows, n)
    {
      var vals := GroupOf(q, rows[n]);
      var key := GetGroupKey(vals);
      var state := if key in states then states[key] else AggState(0, []);
      ghost var filed := Filed(q, rows, n, key);
      assert StateFor(states, q, rows, n, key);
      var state' := UpdateAggState(q, state, rows[n], filed);
      FileOne(states, q, rows, n, state');
      states := states[key := state'];
    }
  }

  lemma FileOne(states: map<string, AggState>, q: Query, rows: seq<Rec>, n: nat, state': AggState)
    requires QueryOk(q) && RowsOk(q, rows) && n < |rows| && StatesOk(states, q, rows, n)
    requires RowsOk(q, Filed(q, rows, n, KeyOf(q, rows[n])) + [rows[n]])
    requires StateOk(state', q, Filed(q, rows, n, KeyOf(q, rows[n])) + [rows[n]])
    ensures StatesOk(states[KeyOf(q, rows[n]) := state'], q, rows, n + 1)
  {
    var n', states' := n + 1, states[KeyOf(q, rows[n]) := state'];
    forall key ensures StateFor(states', q, rows, n', key) {
      assert StateFor(states, q, rows, n, key);
      UsedMore(q, rows, n, key);
      assert Filed(q, rows, n, key) + [] == Filed(q, rows, n, key);
    }
  }

  lemma UsedMore(q: Query, rows: seq<Rec>, n: nat, key: string)
    requires QueryOk(q) && RowsOk(q, rows) && n < |rows|
    ensures KeyUsed(q, rows, n + 1, key) <==> KeyUsed(q, rows, n, key) || KeyOf(q, rows[n]) == key
  {
  }

  // ----- the order of the groups -----

  function Codes(s: string): (c: seq<nat>)
    ensures |c| == |s| && forall i | 0 <= i < |s| :: c[i] == s[i] as int
  {
    if s == [] then [] else [s[0] as int] + Codes(s[1..])
  }

  /** std::string's <. */
  predicate Before(a: string, b: string) { StrLess(Codes(a), Codes(b)) }

  /** One key is before another just when they agree up to a place where the first ends or has the smaller character. */
  lemma BeforeFirst(a: string, b: string)
    ensures Before(a, b) <==>
      exists n: nat :: n <= |a| && n < |b| && a[..n] == b[..n] && (n == |a| || a[n] < b[n])
  {
    var x, y := Codes(a), Codes(b);
    StrLessFirst(x, y);
    forall n: nat | n <= |a| && n <= |b| ensures x[..n] == y[..n] <==> a[..n] == b[..n] {
      if x[..n] == y[..n] {
        forall i | 0 <= i < n ensures a[i] == b[i] { assert x[..n][i] == y[..n][i]; }
      }
      if a[..n] == b[..n] {
        forall i | 0 <= i < n ensures x[i] == y[i] { assert a[..n][i] == b[..n][i]; }
      }
    }
  }

  lemma BeforeTotal(a: string, b: string, c: string)
    ensures !Before(a, a)
    ensures Before(a, b) && Before(b, c) ==> Before(a, c)
    ensures Before(a, b) || a == b || Before(b, a)
  {
    StrLessOrder(Codes(a), Codes(b), Codes(c));
    if Codes(a) == Codes(b) {
      assert |a| == |b|;
      forall i | 0 <= i < |a| ensures a[i] == b[i] { assert Codes(a)[i] == Codes(b)[i]; }
    }
  }

  predicate Increasing(ks: seq<string>) {
    forall i, j | 0 <= i < j < |ks| :: Before(ks[i], ks[j])
  }

  function Insert(ks: seq<string>, k: string): (r: seq<string>)
  {
    if ks == [] || Before(k, ks[0]) then [k] + ks else [ks[0]] + Insert(ks[1..], k)
  }

  lemma {:induction false} InsertHas(ks: seq<string>, k: string, x: string)
    ensures x in Insert(ks, k) <==> x == k || x in ks
  {
    if ks != [] && !Before(k, ks[0]) {
      InsertHas(ks[1..], k, x);
      assert x in ks <==> x == ks[0] || x in ks[1..];
    }
  }

  lemma {:induction false} InsertKeepsOrder(ks: seq<string>, k: string)
    requires Increasing(ks) && k !in ks
    ensures Increasing(Insert(ks, k))
  {
    if ks == [] {
    } else if Before(k, ks[0]) {
      forall j | 0 <= j < |ks| ensures Before(k, ks[j]) { BeforeTotal(k, ks[0], ks[j]); }
    } else {
      InsertKeepsOrder(ks[1..], k);
      BeforeTotal(k, ks[0], k);
      var rest := Insert(ks[1..], k);
      forall j | 0 <= j < |rest| ensures Before(ks[0], rest[j]) {
        InsertHas(ks[1..], k, rest[j]);
        if rest[j] in ks[1..] {
          var i :| 0 <= i < |ks[1..]| && ks[1..][i] == rest[j];
          assert Before(ks[0], ks[i + 1]);
        }
      }
    }
  }

  /** std::sort on the groups by key. */
  method SortKeys(keys: set<string>) returns (ks: seq<string>)
    ensures Increasing(ks) && forall k :: k in keys <==> k in ks
  {
    ks := [];
    var rest := keys;
    while rest != {}
      invariant rest <= keys && Increasing(ks) && forall k :: k in keys - rest <==> k in ks
      decreases |rest|
    {
      var k :| k in rest;
      InsertKeepsOrder(ks, k);
      forall x ensures x in Insert(ks, k) <==> x in keys - (rest - {k}) { InsertHas(ks, k, x); }
      ks := Insert(ks, k);
      rest := rest - {k};
    }
  }

  // ----- the results -----

  function GroupTypes(q: Query, n: nat): (ts: seq<ColType>)
    requires QueryOk(q) && n <= |q.groupCols|
    ensures |ts| == n && forall i | 0 <= i < n :: ts[i] == q.types[q.groupCols[i]]
  {
    if n == 0 then [] else GroupTypes(q, n - 1) + [q.types[q.groupCols[n - 1]]]
  }

  /** The group values of a key. */
  function GroupFor(q: Query, key: string): Option<seq<Value>>
    requires QueryOk(q)
  {
    if q.groupCols == [] then Some([]) else Parse(key, GroupTypes(q, |q.groupCols|))
  }

  /** One round of the second loop: the result for a group, none if stoi throws on its key. */
  method MakeResult(q: Query, key: string, state: AggState) returns (r: Option<AggResult>)
    requires QueryOk(q) && |state.aggValues| == |q.funcs|
    ensures r.None? <==> GroupFor(q, key).None?
    ensures r.Some? ==>
      && r.value.groupKey == GroupFor(q, key).value && r.value.count == state.count && |r.value.aggValues| == |q.funcs|
      && forall i | 0 <= i < |q.funcs| ::
           r.value.aggValues[i] == if q.funcs[i].CountAll? then state.count else state.aggValues[i]
  {
    var group := [];
    if q.groupCols != [] {
      var parsed := ParseGroupKey(key, GroupTypes(q, |q.groupCols|));
      if parsed.None? { return None; }
      group := parsed.value;
    }
    var values := [];
    for i := 0 to |q.funcs|
      invariant |values| == i && forall j | 0 <= j < i ::
        values[j] == if q.funcs[j].CountAll? then state.count else state.aggValues[j]
    {
      values := values + [if q.funcs[i].CountAll? then state.count else state.aggValues[i]];
    }
    r := Some(AggResult(group, values, state.count));
  }

  /** A result says of the rows rs what the aggregates ask. */
  predicate Describes(r: AggResult, q: Query, rs: seq<Rec>)
    requires QueryOk(q) && RowsOk(q, rs)
  {
    && rs != [] && r.count == |rs| && |r.aggValues| == |q.funcs|
    && forall i | 0 <= i < |q.funcs| :: IsAggregate(r.aggValues[i], q.funcs[i], q, rs)
  }

  /** The places of the rows whose value in column c is not the empty string. */
  ghost function NonEmpty(rs: seq<Rec>, c: nat, n: nat): set<nat>
    requires n <= |rs| && forall i | 0 <= i < |rs| :: c < |rs[i]|
  {
    set i: nat | i < n && rs[i][c] != StrValue("")
  }

  lemma {:induction false} CountIsNonEmpty(rs: seq<Rec>, c: nat, n: nat)
    requires n <= |rs| && forall i | 0 <= i < |rs| :: c < |rs[i]|
    ensures CountOf(rs, c, n) == |NonEmpty(rs, c, n)|
  {
    if n > 0 {
      var k: nat := n - 1;
      CountIsNonEmpty(rs, c, k);
      NonEmptyMore(rs, c, k);
    }
  }

  lemma NonEmptyMore(rs: seq<Rec>, c: nat, k: nat)
    requires k < |rs| && forall i | 0 <= i < |rs| :: c < |rs[i]|
    ensures |NonEmpty(rs, c, k + 1)| == |NonEmpty(rs, c, k)| + if Counted(rs[k][c]) then 1 else 0
  {
    if Counted(rs[k][c]) {
      assert NonEmpty(rs, c, k + 1) == NonEmpty(rs, c, k) + {k};
    } else {
      assert NonEmpty(rs, c, k + 1) == NonEmpty(rs, c, k);
    }
  }

  /** What wrapping around makes of a sum. */
  lemma Wrapped(sum: int)
    ensures var x := Wrap(sum);
      && -0x8000_0000 <= x <= 0x7fff_ffff && (x - sum) % 0x1_0000_0000 == 0
      && (-0x8000_0000 <= sum <= 0x7fff_ffff ==> x == sum)
  {
  }

  lemma IntColumn(q: Query, rs: seq<Rec>, c: nat)
    requires RowsOk(q, rs) && c < |q.types| && q.types[c].TYPE_INT?
    ensures Ints(rs, c)
  {
    forall i | 0 <= i < |rs| ensures rs[i][c].IntValue? { assert HasType(rs[i][c], q.types[c]); }
  }

  /** What a SUM says: it is taken modulo 2^32, so it is the sum of the rows when that is a 32-bit number. */
  lemma SumSays(r: AggResult, q: Query, rs: seq<Rec>, i: nat, c: nat)
    requires QueryOk(q) && RowsOk(q, rs) && Describes(r, q, rs) && i < |q.funcs| && q.funcs[i] == Sum(c)
    ensures Ints(rs, c)
    ensures var x, sum := r.aggValues[i], SumOf(rs, c, |rs|);
      && -0x8000_0000 <= x <= 0x7fff_ffff && (x - sum) % 0x1_0000_0000 == 0
      && (-0x8000_0000 <= sum <= 0x7fff_ffff ==> x == sum)
  {
    assert FuncOk(Sum(c), q.types) && IsAggregate(r.aggValues[i], Sum(c), q, rs);
    IntColumn(q, rs, c);
    Wrapped(SumOf(rs, c, |rs|));
  }

  /** COUNT: the number of rows, and of those whose value is not the empty string. */
  lemma CountSays(r: AggResult, q: Query, rs: seq<Rec>, i: nat)
    requires QueryOk(q) && RowsOk(q, rs) && Describes(r, q, rs) && i < |q.funcs|
    ensures q.funcs[i] == CountAll ==> r.aggValues[i] == |rs|
    ensures q.funcs[i].Count? ==> r.aggValues[i] == |NonEmpty(rs, q.funcs[i].col, |rs|)|
  {
    assert FuncOk(q.funcs[i], q.types) && IsAggregate(r.aggValues[i], q.funcs[i], q, rs);
    if q.funcs[i].Count? { CountIsNonEmpty(rs, q.funcs[i].col, |rs|); }
  }

  /** MAX and MIN: values of rows, and no row has one beyond them. */
  lemma ExtremesSay(r: AggResult, q: Query, rs: seq<Rec>, i: nat, c: nat)
    requires QueryOk(q) && RowsOk(q, rs) && Describes(r, q, rs) && i < |q.funcs|
    requires q.funcs[i] == Max(c) || q.funcs[i] == Min(c)
    ensures Ints(rs, c) && exists k :: 0 <= k < |rs| && rs[k][c].i == r.aggValues[i]
    ensures q.funcs[i] == Max(c) ==> forall k | 0 <= k < |rs| :: rs[k][c].i <= r.aggValues[i]
    ensures q.funcs[i] == Min(c) ==> forall k | 0 <= k < |rs| :: rs[k][c].i >= r.aggValues[i]
  {
    assert FuncOk(q.funcs[i], q.types) && IsAggregate(r.aggValues[i], q.funcs[i], q, rs);
    IntColumn(q, rs, c);
  }

  /** The sum of one row is its value, and of two lists of rows the two sums together. */
  lemma {:induction false} SumOfParts(a: seq<Rec>, b: seq<Rec>, c: nat)
    requires Ints(a, c) && Ints(b, c)
    ensures SumOf(a + b, c, |a + b|) == SumOf(a, c, |a|) + SumOf(b, c, |b|)
    ensures |b| == 1 ==> SumOf(b, c, |b|) == b[0][c].i
    decreases |b|
  {
    if b == [] {
      assert a + b == a;
    } else {
      var k: nat := |b| - 1;
      var x, last := b[..k], b[k];
      assert b == x + [last] && a + b == (a + x) + [last];
      SumOfParts(a, x, c);
      SumMore(a + x, last, c, |a| + k);
      SumMore(x, last, c, k);
    }
  }

  /** The result for key: its group values are read from the key, and it describes the rows filed under it. */
  predicate IsResultFor(r: AggResult, q: Query, rows: seq<Rec>, key: string)
    requires QueryOk(q) && RowsOk(q, rows)
  {
    GroupFor(q, key) == Some(r.groupKey) && Describes(r, q, Filed(q, rows, |rows|, key))
  }

  /** One round of the second loop, for a non-empty input. */
  method ResultFor(q: Query, rows: seq<Rec>, states: map<string, AggState>, key: string) returns (r: Option<AggResult>)
    requires QueryOk(q) && RowsOk(q, rows) && StatesOk(states, q, rows, |rows|) && key in states
    ensures r.None? <==> GroupFor(q, key).None?
    ensures r.Some? ==> IsResultFor(r.value, q, rows, key)
  {
    assert StateFor(states, q, rows, |rows|, key);
    r := MakeResult(q, key, states[key]);
  }

  /** The results made so far are those of the first keys. */
  predicate AreResultsFor(results: seq<AggResult>, q: Query, rows: seq<Rec>, keys: seq<string>)
    requires QueryOk(q) && RowsOk(q, rows) && |results| <= |keys|
  {
    forall i | 0 <= i < |results| :: IsResultFor(results[i], q, rows, keys[i])
  }

  lemma OneMoreResult(results: seq<AggResult>, r: AggResult, q: Query, rows: seq<Rec>, keys: seq<string>)
    requires QueryOk(q) && RowsOk(q, rows) && |results| < |keys|
    requires AreResultsFor(results, q, rows, keys) && IsResultFor(r, q, rows, keys[|results|])
    ensures AreResultsFor(results + [r], q, rows, keys)
  {
  }

  /** The second loop of compute_final_results, over the sorted keys of a non-empty input. */
  method MakeResults(q: Query, rows: seq<Rec>, states: map<string, AggState>, keys: seq<string>)
    returns (results: Option<seq<AggResult>>)
    requires QueryOk(q) && RowsOk(q, rows) && StatesOk(states, q, rows, |rows|)
    requires forall i | 0 <= i < |keys| :: keys[i] in states
    ensures results.None? <==> exists i :: 0 <= i < |keys| && GroupFor(q, keys[i]).None?
    ensures results.Some? ==> |results.value| == |keys| && AreResultsFor(results.value, q, rows, keys)
  {
    var made := [];
    for i := 0 to |keys|
      invariant |made| == i && AreResultsFor(made, q, rows, keys)
    {
      var r := ResultFor(q, rows, states, keys[i]);
      if r.None? { return None; }
      OneMoreResult(made, r.value, q, rows, keys);
      made := made + [r.value];
    }
    results := Some(made);
  }

  /** compute_final_results without HAVING and ORDER BY: the groups in the order of their keys. It throws when stoi
      does. */
  method ComputeFinalResults(q: Query, rows: seq<Rec>) returns (keys: seq<string>, results: Option<seq<AggResult>>)
    requires QueryOk(q) && RowsOk(q, rows)
    ensures Increasing(keys)
    ensures rows != [] ==>
      forall key {:trigger KeyUsed(q, rows, |rows|, key)} :: key in keys <==> KeyUsed(q, rows, |rows|, key)
    ensures rows != [] ==> (results.None? <==> exists i :: 0 <= i < |keys| && GroupFor(q, keys[i]).None?)
    ensures rows != [] && results.Some? ==> |results.value| == |keys| && AreResultsFor(results.value, q, rows, keys)
    ensures rows == [] ==> (results.None? <==> q.groupCols != [] && q.types[q.groupCols[0]].TYPE_INT?)
    ensures rows == [] ==> keys == ["global"]
    ensures rows == [] && results.Some? ==>
      |results.value| == 1 && GroupFor(q, "global") == Some(results.value[0].groupKey)
    ensures rows == [] && results.Some? ==>
      results.value[0].count == 0 && results.value[0].aggValues == Zeros(|q.funcs|)
  {
    var states := ComputeStates(q, rows);
    if rows == [] {
      assert forall key :: StateFor(states, q, rows, 0, key) ==> key !in states;
    } else {
      assert StateFor(states, q, rows, |rows|, KeyOf(q, rows[0]));
    }
    if states == map[] {
      var r := MakeResult(q, "global", AggState(0, Zeros(|q.funcs|)));
      keys := ["global"];
      EmptyInput(q);
      if r.None? { return keys, None; }
      assert r.value.aggValues == Zeros(|q.funcs|);
      return keys, Some([r.value]);
    }
    keys := SortKeys(states.Keys);
    results := MakeResults(q, rows, states, keys);
    forall key ensures key in keys <==> KeyUsed(q, rows, |rows|, key) { assert StateFor(states, q, rows, |rows|, key); }
  }

  function Zeros(n: nat): (z: seq<int>)
    ensures |z| == n && forall i | 0 <= i < n :: z[i] == 0
  {
    if n == 0 then [] else Zeros(n - 1) + [0]
  }

  /** The stand-in key of an empty input is no number. */
  lemma EmptyInput(q: Query)
    requires QueryOk(q)
    ensures GroupFor(q, "global").None? <==> q.groupCols != [] && q.types[q.groupCols[0]].TYPE_INT?
  {
    if q.groupCols != [] {
      var types := GroupTypes(q, |q.groupCols|);
      TokenUnbroken("global");
      assert Behind("global") == [];
      assert SkipSpaces("global") == "global" && DigitRun("global") == [];
      assert Parse(Behind("global"), types[1..]) == Some([]);
    }
  }

  lemma {:induction false} TokenUnbroken(s: string)
    requires SEP !in s
    ensures Token(s) == s
  {
    if s != [] {
      assert s[0] in s;
      TokenUnbroken(s[1..]);
    }
  }

  // ----- when the keys tell the groups apart -----

  /** All GROUP BY columns of string type are one and the same column. */
  predicate OneStringColumn(q: Query)
    requires QueryOk(q)
  {
    forall i, j | 0 <= i < |q.groupCols| && 0 <= j < |q.groupCols| &&
      q.types[q.groupCols[i]].TYPE_STRING? && q.types[q.groupCols[j]].TYPE_STRING? :: q.groupCols[i] == q.groupCols[j]
  }

  lemma GroupHasTypes(q: Query, r: Rec)
    requires QueryOk(q) && HasTypes(r, q.types)
    ensures HasTypes(GroupOf(q, r), GroupTypes(q, |q.groupCols|))
  {
  }

  /** Then rows with the same key are in the same group, whatever their strings. */
  lemma OneStringApart(q: Query, a: Rec, b: Rec)
    requires QueryOk(q) && OneStringColumn(q) && HasTypes(a, q.types) && HasTypes(b, q.types)
    requires KeyOf(q, a) == KeyOf(q, b)
    ensures GroupOf(q, a) == GroupOf(q, b)
  {
    if q.groupCols != [] {
      var x, y := GroupOf(q, a), GroupOf(q, b);
      GroupHasTypes(q, a);
      GroupHasTypes(q, b);
      var more := exists i :: 0 <= i < |x| && Seps(x[i]) > Seps(y[i]);
      forall i | 0 <= i < |x| ensures if more then Seps(x[i]) >= Seps(y[i]) else Seps(x[i]) <= Seps(y[i]) {
        IntSeps(x, y, GroupTypes(q, |q.groupCols|), i);
        if more {
          var j :| 0 <= j < |x| && Seps(x[j]) > Seps(y[j]);
          IntSeps(x, y, GroupTypes(q, |q.groupCols|), j);
        }
      }
      SameText(x, y, GroupTypes(q, |q.groupCols|));
    }
  }

  lemma IntSeps(a: seq<Value>, b: seq<Value>, types: seq<ColType>, i: nat)
    requires HasTypes(a, types) && HasTypes(b, types) && i < |types|
    ensures types[i].TYPE_INT? ==> Seps(a[i]) == Seps(b[i]) == 0
  {
    assert HasType(a[i], types[i]) && HasType(b[i], types[i]);
    if types[i].TYPE_INT? {
      ShownIntIsClean(a[i].i);
      ShownIntIsClean(b[i].i);
    }
  }

  /** The length of the word in column k: x for column c, y for column d. */
  function WordLen(k: nat, c: nat, x: nat, d: nat, y: nat): nat {
    if k == c then x else if k == d then y else 0
  }

  /** A row of words and zeros. */
  function WordRow(types: seq<ColType>, c: nat, x: nat, d: nat, y: nat, n: nat): (r: Rec)
    requires n <= |types|
    ensures |r| == n && forall k | 0 <= k < n ::
      r[k] == if types[k].TYPE_INT? then IntValue(0) else StrValue(Word(WordLen(k, c, x, d, y)))
  {
    if n == 0 then [] else
      WordRow(types, c, x, d, y, n - 1)
      + [if types[n - 1].TYPE_INT? then IntValue(0) else StrValue(Word(WordLen(n - 1, c, x, d, y)))]
  }

  function WordLens(cols: seq<nat>, c: nat, x: nat, d: nat, y: nat): (w: seq<nat>)
    ensures |w| == |cols| && forall i | 0 <= i < |cols| :: w[i] == WordLen(cols[i], c, x, d, y)
  {
    if cols == [] then [] else [WordLen(cols[0], c, x, d, y)] + WordLens(cols[1..], c, x, d, y)
  }

  /** How often a column is listed. */
  function Times(cols: seq<nat>, c: nat): (n: nat)
    ensures n > 0 <==> c in cols
  {
    if cols == [] then 0 else (if cols[0] == c then 1 else 0) + Times(cols[1..], c)
  }

  lemma {:induction false} WidthOfWords(cols: seq<nat>, c: nat, x: nat, d: nat, y: nat)
    requires c != d
    ensures Width(WordLens(cols, c, x, d, y)) == |cols| + Times(cols, c) * x + Times(cols, d) * y
  {
    if cols != [] {
      WidthOfWords(cols[1..], c, x, d, y);
      assert WordLens(cols, c, x, d, y)[1..] == WordLens(cols[1..], c, x, d, y);
      OneMore(Times(cols[1..], c), x);
      OneMore(Times(cols[1..], d), y);
    }
  }

  lemma OneMore(a: nat, b: nat)
    ensures (a + 1) * b == a * b + b
  {
  }

  /** The key of such a row. */
  lemma KeyOfWords(q: Query, c: nat, x: nat, d: nat, y: nat)
    requires QueryOk(q) && q.groupCols != [] && c != d && c < |q.types| && d < |q.types|
    requires q.types[c].TYPE_STRING? && q.types[d].TYPE_STRING?
    ensures var r := WordRow(q.types, c, x, d, y, |q.types|);
      HasTypes(r, q.types) && KeyOf(q, r) == ZeroText(Width(WordLens(q.groupCols, c, x, d, y)))
  {
    var r, words := WordRow(q.types, c, x, d, y, |q.types|), WordLens(q.groupCols, c, x, d, y);
    var group := GroupOf(q, r);
    forall i | 0 <= i < |group| ensures Show(group[i]) == Word(words[i]) {
      if q.types[q.groupCols[i]].TYPE_INT? { assert ShowInt(0) == ShowNat(0) == "0"; }
    }
    RenderWords(group, words);
  }

  lemma SameProducts(g: nat, m: nat, n: nat, a: nat, b: nat)
    requires a == g + m * n + n * 0 && b == g + m * 0 + n * m
    ensures a == b
  {
  }

  lemma SameWidth(cols: seq<nat>, c: nat, d: nat, m: nat, n: nat)
    requires c != d && m == Times(cols, c) && n == Times(cols, d)
    ensures Width(WordLens(cols, c, n, d, 0)) == Width(WordLens(cols, c, 0, d, m))
  {
    WidthOfWords(cols, c, n, d, 0);
    WidthOfWords(cols, c, 0, d, m);
    SameProducts(|cols|, m, n, Width(WordLens(cols, c, n, d, 0)), Width(WordLens(cols, c, 0, d, m)));
  }

  /** With two string columns there are always two rows in different groups with the same key. */
  lemma TwoStringColumns(q: Query, i: nat, c: nat, d: nat, m: nat, n: nat) returns (a: Rec, b: Rec)
    requires QueryOk(q) && i < |q.groupCols| && q.groupCols[i] == c && d in q.groupCols && c != d && d < |q.types|
    requires q.types[c].TYPE_STRING? && q.types[d].TYPE_STRING? && m == Times(q.groupCols, c)
    requires n == Times(q.groupCols, d)
    ensures HasTypes(a, q.types) && HasTypes(b, q.types) && KeyOf(q, a) == KeyOf(q, b) && GroupOf(q, a) != GroupOf(q, b)
  {
    a, b := WordRow(q.types, c, n, d, 0, |q.types|), WordRow(q.types, c, 0, d, m, |q.types|);
    KeyOfWords(q, c, n, d, 0);
    KeyOfWords(q, c, 0, d, m);
    SameWidth(q.groupCols, c, d, m, n);
    assert GroupOf(q, a) != GroupOf(q, b) by {
      assert GroupOf(q, a)[i] == StrValue(Word(n)) && GroupOf(q, b)[i] == StrValue(Word(0));
    }
  }

  /** Zeros and empty strings, but for column c. */
  function ShortRow(types: seq<ColType>, c: nat, n: nat): (r: Rec)
    requires n <= |types|
    ensures |r| == n && forall k | 0 <= k < n ::
      r[k] == if types[k].TYPE_INT? then IntValue(0) else StrValue(if k == c then [SEP] else "")
  {
    if n == 0 then [] else
      ShortRow(types, c, n - 1)
      + [if types[n - 1].TYPE_INT? then IntValue(0) else StrValue(if n - 1 == c then [SEP] else "")]
  }

  lemma {:induction false} RenderConcat(a: seq<Value>, b: seq<Value>)
    ensures Render(a + b) == Render(a) + Render(b)
  {
    if a == [] {
      assert a + b == b;
    } else {
      RenderConcat(a[1..], b);
      assert (a + b)[1..] == a[1..] + b;
    }
  }

  lemma RenderPair(v: Value, w: Value, rest: seq<Value>)
    ensures Render([v, w] + rest) == Show(v) + [SEP] + (Show(w) + [SEP] + Render(rest))
  {
    assert ([v, w] + rest)[1..] == [w] + rest && ([w] + rest)[1..] == rest;
  }

  lemma RenderSwapped(rest: seq<Value>)
    ensures Render([StrValue([SEP]), StrValue("")] + rest) == Render([StrValue(""), StrValue([SEP])] + rest)
  {
    RenderPair(StrValue([SEP]), StrValue(""), rest);
    RenderPair(StrValue(""), StrValue([SEP]), rest);
  }

  lemma Around(a: seq<Value>, i: nat)
    requires i + 1 < |a|
    ensures a == a[..i] + ([a[i], a[i + 1]] + a[i + 2..])
  {
  }

  /** The separator may move from one of two neighbouring strings to the other. */
  lemma RenderMoved(a: seq<Value>, b: seq<Value>, i: nat)
    requires |a| == |b| && i + 1 < |a| && (forall k | 0 <= k < |a| && k != i && k != i + 1 :: a[k] == b[k])
    requires a[i] == b[i + 1] == StrValue([SEP]) && a[i + 1] == b[i] == StrValue("")
    ensures Render(a) == Render(b)
  {
    var x, y := a[..i], a[i + 2..];
    assert b[..i] == x && b[i + 2..] == y;
    Around(a, i);
    Around(b, i);
    RenderConcat(x, [a[i], a[i + 1]] + y);
    RenderConcat(x, [b[i], b[i + 1]] + y);
    RenderSwapped(y);
  }

  /** If the two columns are neighbours in GROUP BY and not listed again, strings of one character will do, so that the
      rows fit whatever length the columns have. */
  lemma ShortStrings(q: Query, i: nat, c: nat, d: nat) returns (a: Rec, b: Rec)
    requires QueryOk(q) && i + 1 < |q.groupCols| && c == q.groupCols[i] && d == q.groupCols[i + 1] && c != d
    requires q.types[c].TYPE_STRING? && q.types[d].TYPE_STRING?
    requires forall k | 0 <= k < |q.groupCols| && k != i && k != i + 1 :: q.groupCols[k] != c && q.groupCols[k] != d
    ensures HasTypes(a, q.types) && HasTypes(b, q.types) && KeyOf(q, a) == KeyOf(q, b) && GroupOf(q, a) != GroupOf(q, b)
    ensures forall k | 0 <= k < |q.types| && q.types[k].TYPE_STRING? :: |a[k].s| <= 1 && |b[k].s| <= 1
  {
    a, b := ShortRow(q.types, c, |q.types|), ShortRow(q.types, d, |q.types|);
    RenderMoved(GroupOf(q, a), GroupOf(q, b), i);
    assert GroupOf(q, a)[i] != GroupOf(q, b)[i];
  }

  /** Two rows have the same key exactly when they are in the same group. */
  ghost predicate KeyTells(q: Query, a: Rec, b: Rec)
    requires QueryOk(q) && HasTypes(a, q.types) && HasTypes(b, q.types)
  {
    KeyOf(q, a) == KeyOf(q, b) <==> GroupOf(q, a) == GroupOf(q, b)
  }

  /** The keys tell all groups apart, whatever is in the strings, if and only if at most one column of string type is
      grouped by. */
  lemma KeysTellGroups(q: Query)
    requires QueryOk(q)
    ensures (forall a, b | HasTypes(a, q.types) && HasTypes(b, q.types) :: KeyTells(q, a, b)) <==> OneStringColumn(q)
  {
    if OneStringColumn(q) {
      forall a, b | HasTypes(a, q.types) && HasTypes(b, q.types) ensures KeyTells(q, a, b) {
        if KeyOf(q, a) == KeyOf(q, b) { OneStringApart(q, a, b); }
      }
    } else {
      var i, j :| 0 <= i < |q.groupCols| && 0 <= j < |q.groupCols| &&
        q.types[q.groupCols[i]].TYPE_STRING? && q.types[q.groupCols[j]].TYPE_STRING?
        && q.groupCols[i] != q.groupCols[j];
      var c, d := q.groupCols[i], q.groupCols[j];
      var a, b := TwoStringColumns(q, i, c, d, Times(q.groupCols, c), Times(q.groupCols, d));
      assert !KeyTells(q, a, b);
    }
  }

  // ----- what that means for the results -----

  predicate CleanRows(q: Query, rows: seq<Rec>)
    requires QueryOk(q) && RowsOk(q, rows)
  {
    forall i | 0 <= i < |rows| :: AllClean(GroupOf(q, rows[i]))
  }

  /** Two rows are filed together when their group values agree, and only then, if at most one string column is grouped
      by or no string contains the separator. */
  lemma GroupsPartition(q: Query, a: Rec, b: Rec)
    requires QueryOk(q) && HasTypes(a, q.types) && HasTypes(b, q.types)
    requires OneStringColumn(q) || (AllClean(GroupOf(q, a)) && AllClean(GroupOf(q, b)))
    ensures KeyOf(q, a) == KeyOf(q, b) <==> GroupOf(q, a) == GroupOf(q, b)
  {
    if OneStringColumn(q) {
      if KeyOf(q, a) == KeyOf(q, b) { OneStringApart(q, a, b); }
    } else {
      GroupHasTypes(q, a);
      GroupHasTypes(q, b);
      if q.groupCols != [] { RenderInjective(GroupOf(q, a), GroupOf(q, b), GroupTypes(q, |q.groupCols|)); }
    }
  }

  /** Then the rows filed under the key of a row are the rows of its group. */
  lemma {:induction false} FiledIsMembers(q: Query, rows: seq<Rec>, n: nat, r: Rec)
    requires QueryOk(q) && RowsOk(q, rows) && n <= |rows| && HasTypes(r, q.types)
    requires forall i {:trigger rows[i]} | 0 <= i < |rows| :: KeyTells(q, rows[i], r)
    ensures Filed(q, rows, n, KeyOf(q, r)) == Members(q, rows, n, GroupOf(q, r))
  {
    if n > 0 {
      FiledIsMembers(q, rows, n - 1, r);
      assert KeyTells(q, rows[n - 1], r);
    }
  }

  /** And each result describes exactly the rows of one group. It also names the values of the group if no string
      contains the separator. */
  lemma ResultIsGroup(q: Query, rows: seq<Rec>, i: nat)
    requires QueryOk(q) && RowsOk(q, rows) && i < |rows| && (OneStringColumn(q) || CleanRows(q, rows))
    ensures forall r :: IsResultFor(r, q, rows, KeyOf(q, rows[i])) <==>
      GroupFor(q, KeyOf(q, rows[i])) == Some(r.groupKey)
      && Describes(r, q, Members(q, rows, |rows|, GroupOf(q, rows[i])))
    ensures GroupFor(q, KeyOf(q, rows[i])) == Some(GroupOf(q, rows[i])) <==> AllClean(GroupOf(q, rows[i]))
  {
    GroupHasTypes(q, rows[i]);
    RoundTrip(GroupOf(q, rows[i]), GroupTypes(q, |q.groupCols|));
    forall k | 0 <= k < |rows| ensures KeyTells(q, rows[k], rows[i]) { GroupsPartition(q, rows[k], rows[i]); }
    FiledIsMembers(q, rows, |rows|, rows[i]);
  }
}
