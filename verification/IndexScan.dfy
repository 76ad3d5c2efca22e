// The scan of a table through an index, and why it agrees with the scan of all rows.
module IndexScan {
  import opened KeyOrder
  import opened IxDefs
  import opened BTree
  import opened BTreeOrder
  import opened BTreeSearch
  import opened ScanDefs
  import opened KeyRange
  import opened SeqScan
  import opened IxIndex
  import opened IxScans

  datatype ScanError = IndexEntryNotFound

  /** The record ids of a run of entries. */
  function Rids(es: seq<Entry>): (rs: seq<Rid>)
    ensures |rs| == |es| && forall i | 0 <= i < |es| :: rs[i] == es[i].rid
  {
    if es == [] then [] else [es[0].rid] + Rids(es[1..])
  }

  /** beginTuple throws: nothing in the index is at or above the lower key, or there is an upper key and no entry. */
  ghost predicate Throws(es: seq<Entry>, bs: seq<Bound>) {
    || (Lowers(bs) > 0 && forall i | 0 <= i < |es| :: Less(es[i].key, IntKey(StartWith(bs, 0, |bs|))))
    || (Uppers(bs) > 0 && es == [])
  }

  // ----- the conditions of a row -----

  /** eval_cond of the index scan: the operator is applied to what ix_compare says of the two values. */
  method EvalCond(a: int, op: CompOp, b: int) returns (holds: bool)
    ensures holds <==> Compares(a, op, b)
  {
    var res := CompareColumn(IntVal(a), IntVal(b));
    holds := match op
      case OP_EQ => res == 0
      case OP_NE => res != 0
      case OP_LT => res < 0
      case OP_GT => res > 0
      case OP_LE => res <= 0
      case OP_GE => res >= 0;
  }

  /** eval_conds of the index scan. */
  method EvalAll(row: Row, conds: seq<Condition>) returns (b: bool)
    requires AllFit(conds, |row|)
    ensures b <==> Satisfies(row, conds)
  {
    for i := 0 to |conds|
      invariant forall j | 0 <= j < i :: Holds(conds[j], row)
    {
      var rhs := match conds[i].rhs case Literal(v) => v case Column(c) => row[c];
      var holds := EvalCond(row[conds[i].lhsCol], conds[i].op, rhs);
      if !holds { return false; }
    }
    b := true;
  }

  /** get_record and eval_conds. */
  method CheckEntry(r: Rid, table: map<Rid, Row>, conds: seq<Condition>) returns (b: bool)
    requires forall x | x in table :: AllFit(conds, |table[x]|)
    ensures b <==> Passes(r, table, conds)
  {
    if r !in table { return false; }
    b := EvalAll(table[r], conds);
  }

  // ----- the run of entries between the two keys -----

  ghost function FirstOf(es: seq<Entry>, bs: seq<Bound>, start: seq<int>): nat {
    if Lowers(bs) == 0 then 0 else LowerEntry(es, IntKey(start))
  }

  ghost function PastOf(st: Store, sh: Shape, bs: seq<Bound>, end: seq<int>): nat {
    var es := Contents(st, sh);
    if Uppers(bs) == 0 then |es| else
      var n := UpperEntry(es, IntKey(end)); if StartsLeaf(st, sh, n) then n + 1 else n
  }

  lemma TailRids(es: seq<Entry>)
    requires es != []
    ensures Rids(es) == [es[0].rid] + Rids(es[1..]) && Rids(es)[1..] == Rids(es[1..])
  {
  }

  /** With a sound range the lower key is not above the upper one. */
  lemma FirstBeforePast(es: seq<Entry>, bs: seq<Bound>, start: seq<int>, end: seq<int>)
    requires RangeSet(start, end, bs) && Sound(bs) && Uppers(bs) > 0
    ensures FirstOf(es, bs, start) <= UpperEntry(es, IntKey(end))
  {
    if Lowers(bs) > 0 {
      NotAbove(start, end, 0);
      var a, b := LowerEntry(es, IntKey(start)), UpperEntry(es, IntKey(end));
      if b < a { LessOrder(IntKey(end), es[b].key, IntKey(start)); }
    }
  }

  /** The position lower_bound or leaf_begin gives. */
  ghost predicate LowerPositioned(st: Store, sh: Shape, lowerCols: nat, start: seq<int>, lower: Iid) {
    var es := Contents(st, sh);
    if lowerCols == 0 then Denotes(st, sh, lower, 0) && lower == Iid(st.firstLeaf, 0)
    else
      var n := LowerEntry(es, IntKey(start));
      Denotes(st, sh, lower, n) && (n == |es| ==> lower == Iid(IX_LEAF_HEADER_PAGE, 0))
  }

  /** The position upper_bound or leaf_end gives. */
  ghost predicate UpperPositioned(st: Store, sh: Shape, upperCols: nat, end: seq<int>, upper: Iid) {
    var es := Contents(st, sh);
    if upperCols == 0 then
      Denotes(st, sh, upper, |es|) && st.lastLeaf in st.pages && upper == Iid(st.lastLeaf, |st.pages[st.lastLeaf].keys|)
    else
      var n := UpperEntry(es, IntKey(end));
      && Denotes(st, sh, upper, if StartsLeaf(st, sh, n) then n + 1 else n)
      && (n == |es| ==> upper == Iid(IX_LEAF_HEADER_PAGE, 1))
  }

  ghost predicate Positioned(st: Store, sh: Shape, bs: seq<Bound>, start: seq<int>, end: seq<int>, lower: Iid,
                             upper: Iid) {
    LowerPositioned(st, sh, Lowers(bs), start, lower) && UpperPositioned(st, sh, Uppers(bs), end, upper)
  }

  /** Some entry is at or above the lower key: the cursor visits the entries from there up to the upper key. */
  lemma VisitsRun(st: Store, sh: Shape, m: nat, bs: seq<Bound>, start: seq<int>, end: seq<int>, lower: Iid, upper: Iid)
    requires IndexInv(st, sh, m) && RangeSet(start, end, bs) && Sound(bs)
    requires Positioned(st, sh, bs, start, end, lower, upper)
    requires FirstOf(Contents(st, sh), bs, start) < |Contents(st, sh)|
    ensures var a, b := FirstOf(Contents(st, sh), bs, start), PastOf(st, sh, bs, end);
      && a <= b <= |Contents(st, sh)| && Rest(st, sh, lower, upper) == Contents(st, sh)[a..b]
      && At(st, sh, lower, a)
  {
    if Uppers(bs) > 0 { FirstBeforePast(Contents(st, sh), bs, start, end); }
    RestBetween(st, sh, m, lower, upper, FirstOf(Contents(st, sh), bs, start), PastOf(st, sh, bs, end));
  }

  /** The entries between the two positions, for conditions of any shape. A cursor whose end is behind its start runs on
      to the last entry. */
  ghost function VisitedEntries(st: Store, sh: Shape, bs: seq<Bound>, start: seq<int>, end: seq<int>): seq<Entry> {
    var es := Contents(st, sh);
    var a, b := FirstOf(es, bs, start), PastOf(st, sh, bs, end);
    if a < b <= |es| then es[a..b] else if a == b then [] else es[a..]
  }

  /** No entry is at or above the lower key, and some key is given. */
  ghost predicate StartsNowhere(es: seq<Entry>, bs: seq<Bound>, start: seq<int>) {
    FirstOf(es, bs, start) == |es| && (Lowers(bs) > 0 || Uppers(bs) > 0)
  }

  /** An entry that starts a leaf other than the leftmost is not the last one. */
  lemma StartIsNotLast(st: Store, sh: Shape, m: nat, n: nat)
    requires IndexInv(st, sh, m) && StartsLeaf(st, sh, n)
    ensures n + 1 < |Contents(st, sh)|
  {
    var j: nat :| 1 <= j < |sh.leaves| && n == Offset(st, sh, j);
    NextLeaf(st, sh, m, j - 1);
    LeafFacts(st, sh, m, j);
    EntryAt(st, sh, m, j, 1);
  }

  /** Where the two positions are among the entries. */
  lemma PositionsDenote(st: Store, sh: Shape, m: nat, bs: seq<Bound>, start: seq<int>, end: seq<int>, lower: Iid,
                        upper: Iid)
    requires IndexInv(st, sh, m) && Positioned(st, sh, bs, start, end, lower, upper)
    ensures Denotes(st, sh, lower, FirstOf(Contents(st, sh), bs, start))
    ensures Denotes(st, sh, upper, PastOf(st, sh, bs, end))
    ensures FirstOf(Contents(st, sh), bs, start) == |Contents(st, sh)| ==>
      (lower == upper <==> Lowers(bs) == 0 && Uppers(bs) == 0)
  {
    var es := Contents(st, sh);
    HeaderIsNoLeaf(st, sh, m);
    PastEndIsNoEntry(st, sh, m, lower);
    if Uppers(bs) > 0 {
      var n := UpperEntry(es, IntKey(end));
      if StartsLeaf(st, sh, n) { StartIsNotLast(st, sh, m, n); }
    }
    if FirstOf(es, bs, start) == |es| && Lowers(bs) == 0 { NoEntryNoKey(st, sh, m); }
  }

  /** The cursor beginTuple opens, for conditions of any shape: what it visits, and whether it starts on no entry and
      not where it stops either, which is where beginTuple throws. */
  lemma CursorVisits(st: Store, sh: Shape, m: nat, bs: seq<Bound>, start: seq<int>, end: seq<int>, lower: Iid,
                     upper: Iid)
    requires IndexInv(st, sh, m) && Positioned(st, sh, bs, start, end, lower, upper)
    ensures Rest(st, sh, lower, upper) == VisitedEntries(st, sh, bs, start, end)
    ensures StartsNowhere(Contents(st, sh), bs, start) <==> lower != upper && !OnEntry(st, sh, lower)
  {
    var es, a, b := Contents(st, sh), FirstOf(Contents(st, sh), bs, start), PastOf(st, sh, bs, end);
    PositionsDenote(st, sh, m, bs, start, end, lower, upper);
    if a == |es| {
      RestPastEnd(st, sh, m, lower, upper);
      PastEndIsNoEntry(st, sh, m, lower);
    } else if a <= b {
      RestBetween(st, sh, m, lower, upper, a, b);
    } else {
      AtUnique(st, sh, m, lower, a, upper, b);
      EndPosDenotes(st, sh, m, upper, b);
      RestAt(st, sh, m, lower, upper, a);
    }
  }

  lemma HeaderIsNoLeaf(st: Store, sh: Shape, m: nat)
    requires IndexInv(st, sh, m)
    ensures st.firstLeaf != IX_LEAF_HEADER_PAGE && st.lastLeaf != IX_LEAF_HEADER_PAGE
  {
    LeafFacts(st, sh, m, 0);
    LeafFacts(st, sh, m, |sh.leaves| - 1);
  }

  lemma NoEntryNoKey(st: Store, sh: Shape, m: nat)
    requires IndexInv(st, sh, m) && Contents(st, sh) == []
    ensures st.firstLeaf == st.lastLeaf && st.lastLeaf in st.pages && st.pages[st.lastLeaf].keys == []
  {
    LeafFacts(st, sh, m, 0);
    OffsetStep(st, sh, m, 0);
    OffsetEnd(st, sh);
    EmptyLeaf(st, sh, m);
  }

  /** What is in the buffers when they are sound. */
  lemma SoundStart(bs: seq<Bound>, start: seq<int>, end: seq<int>)
    requires RangeSet(start, end, bs) && Sound(bs) && Lowers(bs) > 0
    ensures start == StartWith(bs, 0, |bs|)
  {
  }

  // ----- which records that finds -----

  /** One entry for each record, under the key the record has on the index columns. */
  ghost predicate IndexOf(es: seq<Entry>, table: map<Rid, Row>, cols: seq<nat>)
    requires forall r | r in table :: forall i | 0 <= i < |cols| :: cols[i] < |table[r]|
  {
    && (forall i | 0 <= i < |es| :: es[i].rid in table && es[i].key == KeyOf(table[es[i].rid], cols))
    && (forall i, j | 0 <= i < j < |es| :: es[i].rid != es[j].rid)
    && (forall r | r in table :: exists i :: 0 <= i < |es| && es[i].rid == r)
  }

  /** A table that the conditions and the index columns fit. */
  ghost predicate Suits(table: map<Rid, Row>, conds: seq<Condition>, cols: seq<nat>, width: nat) {
    && TableOk(table, width) && AllFit(conds, width)
    && (forall r | r in table :: AllFit(conds, |table[r]|))
    && (forall i | 0 <= i < |cols| :: cols[i] < width)
    && (forall r | r in table :: forall i | 0 <= i < |cols| :: cols[i] < |table[r]|)
  }

  /** The index columns of a row. */
  function ColumnsOf(row: Row, cols: seq<nat>, n: nat): (vals: seq<int>)
    requires n <= |cols| && forall i | 0 <= i < |cols| :: cols[i] < |row|
    ensures |vals| == n && forall i | 0 <= i < n :: vals[i] == row[cols[i]]
  {
    if n == 0 then [] else ColumnsOf(row, cols, n - 1) + [row[cols[n - 1]]]
  }

  /** An entry at or above s is not before the first of those, and one at or below e is before the first above e. */
  lemma RunHas(es: seq<Entry>, n: nat, s: Key, e: Key)
    requires EntriesSorted(es) && n < |es|
    ensures !Less(es[n].key, s) ==> LowerEntry(es, s) <= n
    ensures !Less(e, es[n].key) ==> n < UpperEntry(es, e)
  {
    var u := UpperEntry(es, e);
    if u <= n {
      LessOrder(e, es[u].key, es[n].key);
      LessOrder(es[n].key, e, es[u].key);
    }
  }

  /** The key of a row that satisfies the conditions is in range. */
  lemma PassingInRange(row: Row, conds: seq<Condition>, cols: seq<nat>, start: seq<int>, end: seq<int>)
    requires AllFit(conds, |row|) && Satisfies(row, conds) && forall i | 0 <= i < |cols| :: cols[i] < |row|
    requires forall i | 0 <= i < |row| :: INT32_MIN <= row[i] <= INT32_MAX
    requires RangeSet(start, end, Bounds(conds, cols)) && Sound(Bounds(conds, cols))
    ensures Lowers(Bounds(conds, cols)) > 0 ==> !Less(KeyOf(row, cols), IntKey(start))
    ensures Uppers(Bounds(conds, cols)) > 0 ==> !Less(IntKey(end), KeyOf(row, cols))
  {
    var bs, vals := Bounds(conds, cols), ColumnsOf(row, cols, |cols|);
    forall i | 0 <= i < |cols| ensures Meets(vals[i], bs[i]) { SatisfiesMeets(row, conds, cols, i); }
    SoundCovers(vals, start, end, bs);
    assert KeyOf(row, cols) == IntKey(vals);
  }

  /** A record that satisfies the conditions has its entry in the run that is visited. */
  lemma PassingInRun(es: seq<Entry>, table: map<Rid, Row>, conds: seq<Condition>, cols: seq<nat>, width: nat,
                     start: seq<int>, end: seq<int>, n: nat)
    requires Suits(table, conds, cols, width) && IndexOf(es, table, cols) && EntriesSorted(es)
    requires RangeSet(start, end, Bounds(conds, cols)) && Sound(Bounds(conds, cols))
    requires n < |es| && Passes(es[n].rid, table, conds)
    ensures FirstOf(es, Bounds(conds, cols), start) <= n
    ensures Uppers(Bounds(conds, cols)) > 0 ==> n < UpperEntry(es, IntKey(end))
  {
    assert es[n].key == KeyOf(table[es[n].rid], cols);
    PassingInRange(table[es[n].rid], conds, cols, start, end);
    RunHas(es, n, IntKey(start), IntKey(end));
  }

  /** Records before a and from b on that do not pass can be left out. */
  lemma SelectRun(rs: seq<Rid>, a: nat, b: nat, table: map<Rid, Row>, conds: seq<Condition>)
    requires forall x | x in table :: AllFit(conds, |table[x]|)
    requires a <= b <= |rs| && forall n | 0 <= n < |rs| && Passes(rs[n], table, conds) :: a <= n < b
    ensures Select(rs[a..b], table, conds) == Select(rs, table, conds)
  {
    var before, run, after := rs[..a], rs[a..b], rs[b..];
    assert rs == before + (run + after);
    forall n | 0 <= n < |before| ensures !Passes(before[n], table, conds) { assert before[n] == rs[n]; }
    forall n | 0 <= n < |after| ensures !Passes(after[n], table, conds) { assert after[n] == rs[b + n]; }
    SelectsNone(before, table, conds);
    SelectsNone(after, table, conds);
    SelectConcat(before, run + after, table, conds);
    SelectConcat(run, after, table, conds);
  }

  lemma {:induction false} SelectConcat(x: seq<Rid>, y: seq<Rid>, table: map<Rid, Row>, conds: seq<Condition>)
    requires forall r | r in table :: AllFit(conds, |table[r]|)
    ensures Select(x + y, table, conds) == Select(x, table, conds) + Select(y, table, conds)
  {
    if x == [] {
      assert x + y == y;
    } else {
      assert (x + y)[1..] == x[1..] + y;
      SelectConcat(x[1..], y, table, conds);
      var first := if Passes(x[0], table, conds) then [x[0]] else [];
      assert first + (Select(x[1..], table, conds) + Select(y, table, conds))
          == (first + Select(x[1..], table, conds)) + Select(y, table, conds);
    }
  }

  lemma {:induction false} SelectsNone(rs: seq<Rid>, table: map<Rid, Row>, conds: seq<Condition>)
    requires forall x | x in table :: AllFit(conds, |table[x]|)
    requires forall n | 0 <= n < |rs| :: !Passes(rs[n], table, conds)
    ensures Select(rs, table, conds) == []
  {
    if rs != [] { SelectsNone(rs[1..], table, conds); }
  }

  /** How often a selection of distinct ids holds an id. */
  lemma {:induction false} SelectCount(rs: seq<Rid>, table: map<Rid, Row>, conds: seq<Condition>, x: Rid)
    requires forall r | r in table :: AllFit(conds, |table[r]|)
    requires forall i, j | 0 <= i < j < |rs| :: rs[i] != rs[j]
    ensures multiset(Select(rs, table, conds))[x] == if x in rs && Passes(x, table, conds) then 1 else 0
  {
    if rs != [] {
      SelectCount(rs[1..], table, conds, x);
      assert rs == [rs[0]] + rs[1..];
      var first := if Passes(rs[0], table, conds) then [rs[0]] else [];
      assert multiset(first + Select(rs[1..], table, conds))
          == multiset(first) + multiset(Select(rs[1..], table, conds));
    }
  }

  /** The entries of an index and the records of its table give the same selection, in another order. */
  lemma SameRecords(es: seq<Entry>, records: seq<Rid>, table: map<Rid, Row>, conds: seq<Condition>, cols: seq<nat>,
                    width: nat)
    requires Suits(table, conds, cols, width) && IndexOf(es, table, cols)
    requires (forall i, j | 0 <= i < j < |records| :: records[i] != records[j])
    requires (forall r :: r in records <==> r in table)
    ensures multiset(Select(Rids(es), table, conds)) == multiset(Select(records, table, conds))
  {
    forall x ensures multiset(Select(Rids(es), table, conds))[x] == multiset(Select(records, table, conds))[x] {
      SelectCount(Rids(es), table, conds, x);
      SelectCount(records, table, conds, x);
      if x in table {
        var i :| 0 <= i < |es| && es[i].rid == x;
        assert Rids(es)[i] == x;
      }
    }
  }

  lemma RidsSlice(es: seq<Entry>, a: nat, b: nat)
    requires a <= b <= |es|
    ensures Rids(es[a..b]) == Rids(es)[a..b]
  {
  }

  /** What the run of entries gives is what all entries give. */
  lemma RunSelectsAll(es: seq<Entry>, table: map<Rid, Row>, conds: seq<Condition>, cols: seq<nat>, width: nat,
                      start: seq<int>, end: seq<int>, b: nat)
    requires Suits(table, conds, cols, width) && IndexOf(es, table, cols) && EntriesSorted(es)
    requires RangeSet(start, end, Bounds(conds, cols)) && Sound(Bounds(conds, cols))
    requires FirstOf(es, Bounds(conds, cols), start) <= b <= |es|
    requires if Uppers(Bounds(conds, cols)) > 0 then UpperEntry(es, IntKey(end)) <= b else b == |es|
    ensures Select(Rids(es[FirstOf(es, Bounds(conds, cols), start)..b]), table, conds) == Select(Rids(es), table, conds)
  {
    var a, rs := FirstOf(es, Bounds(conds, cols), start), Rids(es);
    forall n | 0 <= n < |rs| && Passes(rs[n], table, conds) ensures a <= n < b {
      PassingInRun(es, table, conds, cols, width, start, end, n);
    }
    SelectRun(rs, a, b, table, conds);
    RidsSlice(es, a, b);
  }

  /** The cursor beginTuple opens for a sound range: whether it is where beginTuple throws, and what it visits. */
  lemma OpenedCursor(st: Store, sh: Shape, m: nat, table: map<Rid, Row>, conds: seq<Condition>, cols: seq<nat>,
                     width: nat, start: seq<int>, end: seq<int>, lower: Iid, upper: Iid)
    requires IndexInv(st, sh, m) && Suits(table, conds, cols, width)
    requires RangeSet(start, end, Bounds(conds, cols)) && Sound(Bounds(conds, cols))
    requires Positioned(st, sh, Bounds(conds, cols), start, end, lower, upper)
    ensures Throws(Contents(st, sh), Bounds(conds, cols))
         <==> lower != upper && Rest(st, sh, lower, upper) == [] && !OnEntry(st, sh, lower)
    ensures !Throws(Contents(st, sh), Bounds(conds, cols)) ==> lower == upper || OnEntry(st, sh, lower)
    ensures !Throws(Contents(st, sh), Bounds(conds, cols)) && IndexOf(Contents(st, sh), table, cols) ==>
      Select(Rids(Rest(st, sh, lower, upper)), table, conds) == Select(Rids(Contents(st, sh)), table, conds)
  {
    var es, bs := Contents(st, sh), Bounds(conds, cols);
    CursorVisits(st, sh, m, bs, start, end, lower, upper);
    PositionsDenote(st, sh, m, bs, start, end, lower, upper);
    ThrowsWhen(es, bs, start, end);
    if StartsNowhere(es, bs, start) { RestPastEnd(st, sh, m, lower, upper); }
    if IndexOf(es, table, cols) { SoundVisits(st, sh, m, table, conds, cols, width, start, end); }
  }

  lemma ThrowsWhen(es: seq<Entry>, bs: seq<Bound>, start: seq<int>, end: seq<int>)
    requires RangeSet(start, end, bs) && Sound(bs)
    ensures Throws(es, bs) <==> FirstOf(es, bs, start) == |es| && (Lowers(bs) > 0 || Uppers(bs) > 0)
  {
    if Lowers(bs) > 0 { SoundStart(bs, start, end); }
  }

  /** What goes wrong for a shape that is not sound: the conditions a = 1 and b > 0, an index on (a, b), and one row (1,
      5). The upper key has a leftover in column b; when that is the smallest integer, the cursor is at its end at
      once. */
  lemma GreaterAfterEqual(st: Store, sh: Shape, m: nat, r: Rid, conds: seq<Condition>, bs: seq<Bound>, lower: Iid,
                          upper: Iid)
    requires IndexInv(st, sh, m) && Contents(st, sh) == [Entry([IntVal(1), IntVal(5)], r)]
    requires conds == [Condition(0, OP_EQ, Literal(1)), Condition(1, OP_GT, Literal(0))] && bs == Bounds(conds, [0, 1])
    requires Positioned(st, sh, bs, [1, 0], [1, INT32_MIN], lower, upper)
    ensures !Sound(bs) && RangeSet([1, 0], [1, INT32_MIN], bs)
    ensures lower == upper && Rest(st, sh, lower, upper) == []
    ensures Select([r], map[r := [1, 5]], conds) == [r]
  {
    GreaterRange(conds);
    GreaterPositions(st, sh, m, r, [1, 0], [1, INT32_MIN]);
    RestBetween(st, sh, m, lower, upper, 0, 0);
    SelectsOne(r, [1, 5], conds);
  }

  /** The range of these conditions. */
  lemma GreaterRange(conds: seq<Condition>)
    requires conds == [Condition(0, OP_EQ, Literal(1)), Condition(1, OP_GT, Literal(0))]
    ensures var bs := Bounds(conds, [0, 1]);
      !Sound(bs) && RangeSet([1, 0], [1, INT32_MIN], bs) && Lowers(bs) > 0 && Uppers(bs) > 0
  {
    var bs := Bounds(conds, [0, 1]);
    assert FirstOn(conds, 0, 0) == 0 && FirstOn(conds, 1, 0) == 1;
    assert bs == [Exact(1), From(0)];
    assert Visited(bs, 0) == Visited(bs, 1) == 2 && LowerCount(bs, 1) == 1 && LowerCount(bs, 2) == 2;
    assert SetsUpper(bs[0]) && !SetsUpper(bs[1]);
  }

  /** Where the two keys are in an index with the one row. */
  lemma GreaterPositions(st: Store, sh: Shape, m: nat, r: Rid, start: seq<int>, end: seq<int>)
    requires IndexInv(st, sh, m) && Contents(st, sh) == [Entry([IntVal(1), IntVal(5)], r)]
    requires start == [1, 0] && end == [1, INT32_MIN]
    ensures LowerEntry(Contents(st, sh), IntKey(start)) == UpperEntry(Contents(st, sh), IntKey(end)) == 0
    ensures !StartsLeaf(st, sh, 0)
  {
    var es := Contents(st, sh);
    assert IntKey([1, 5]) == es[0].key;
    LessOrder(es[0].key, IntKey(start), es[0].key);
    OrderedAt(start, [1, 5], 1);
    OrderedAt(end, [1, 5], 1);
    FirstStartsNoLeaf(st, sh, m);
  }

  /** And for every shape that is not sound: with some leftovers in the buffers, the scan of a table with one row that
      passes all conditions yields nothing. It throws, unless the first column after the equalities has a lower limit:
      then the cursor is at its end at once. */
  lemma UnsoundLoses(st: Store, sh: Shape, m: nat, row: Row, conds: seq<Condition>, cols: seq<nat>, r: Rid,
                     start: seq<int>, end: seq<int>, lower: Iid, upper: Iid)
    requires IndexInv(st, sh, m) && AllFit(conds, |row|) && Satisfies(row, conds)
    requires (forall i | 0 <= i < |cols| :: cols[i] < |row|)
    requires (forall i | 0 <= i < |row| :: INT32_MIN < row[i] < INT32_MAX)
    requires Contents(st, sh) == [Entry(KeyOf(row, cols), r)] && !Sound(Bounds(conds, cols))
    requires start == StartWith(Bounds(conds, cols), INT32_MAX, |cols|)
    requires end == EndWith(Bounds(conds, cols), INT32_MIN, |cols|)
    requires Positioned(st, sh, Bounds(conds, cols), start, end, lower, upper)
    ensures RangeSet(start, end, Bounds(conds, cols)) && Rest(st, sh, lower, upper) == []
    ensures var bs := Bounds(conds, cols); var e := Equalities(bs, 0);
      e < |bs| && (StartsNowhere(Contents(st, sh), bs, start) <==> !bs[e].From?)
    ensures StartsNowhere(Contents(st, sh), Bounds(conds, cols), start) <==> lower != upper
    ensures Select([r], map[r := row], conds) == [r]
  {
    var bs, vals := Bounds(conds, cols), ColumnsOf(row, cols, |cols|);
    assert KeyOf(row, cols) == IntKey(vals);
    UnsoundRange(row, conds, cols, vals, bs, start, end);
    MissedCursor(st, sh, m, vals, r, bs, start, end, lower, upper);
    SelectsOne(r, row, conds);
  }

  lemma SelectsOne(r: Rid, row: Row, conds: seq<Condition>)
    requires AllFit(conds, |row|) && Satisfies(row, conds)
    ensures Select([r], map[r := row], conds) == [r]
  {
    assert [r][1..] == [];
  }

  /** The range of such a shape, with these leftovers, and the row. */
  lemma UnsoundRange(row: Row, conds: seq<Condition>, cols: seq<nat>, vals: seq<int>, bs: seq<Bound>, start: seq<int>,
                     end: seq<int>)
    requires AllFit(conds, |row|) && Satisfies(row, conds) && forall i | 0 <= i < |cols| :: cols[i] < |row|
    requires forall i | 0 <= i < |row| :: INT32_MIN < row[i] < INT32_MAX
    requires vals == ColumnsOf(row, cols, |cols|) && bs == Bounds(conds, cols) && !Sound(bs)
    requires start == StartWith(bs, INT32_MAX, |bs|) && end == EndWith(bs, INT32_MIN, |bs|)
    ensures RangeSet(start, end, bs) && !InRange(vals, start, end, bs) && (Lowers(bs) > 0 || Uppers(bs) > 0)
    ensures Equalities(bs, 0) < |bs|
    ensures Lowers(bs) > 0 && Less(IntKey(vals), IntKey(start)) <==> !bs[Equalities(bs, 0)].From?
  {
    forall i | 0 <= i < |cols| ensures Meets(vals[i], bs[i]) { SatisfiesMeets(row, conds, cols, i); }
    UnsoundMisses(vals, bs);
    UnsoundStart(vals, bs);
  }

  /** A cursor that looks elsewhere than at the only entry. */
  lemma MissedCursor(st: Store, sh: Shape, m: nat, vals: seq<int>, r: Rid, bs: seq<Bound>, start: seq<int>,
                     end: seq<int>, lower: Iid, upper: Iid)
    requires IndexInv(st, sh, m) && Contents(st, sh) == [Entry(IntKey(vals), r)] && !InRange(vals, start, end, bs)
    requires Positioned(st, sh, bs, start, end, lower, upper) && (Lowers(bs) > 0 || Uppers(bs) > 0)
    ensures Rest(st, sh, lower, upper) == []
    ensures StartsNowhere(Contents(st, sh), bs, start) <==> Lowers(bs) > 0 && Less(IntKey(vals), IntKey(start))
    ensures StartsNowhere(Contents(st, sh), bs, start) <==> lower != upper
  {
    OnlyEntryMissed(st, sh, m, vals, r, bs, start, end);
    PositionsDenote(st, sh, m, bs, start, end, lower, upper);
    CursorVisits(st, sh, m, bs, start, end, lower, upper);
    if FirstOf(Contents(st, sh), bs, start) == 0 { AtUnique(st, sh, m, lower, 0, upper, 0); }
  }

  /** An entry out of range is not between the two positions. */
  lemma OnlyEntryMissed(st: Store, sh: Shape, m: nat, vals: seq<int>, r: Rid, bs: seq<Bound>, start: seq<int>,
                        end: seq<int>)
    requires IndexInv(st, sh, m) && Contents(st, sh) == [Entry(IntKey(vals), r)] && !InRange(vals, start, end, bs)
    ensures PastOf(st, sh, bs, end) <= FirstOf(Contents(st, sh), bs, start) <= 1
    ensures FirstOf(Contents(st, sh), bs, start) == 1 <==> Lowers(bs) > 0 && Less(IntKey(vals), IntKey(start))
  {
    FirstStartsNoLeaf(st, sh, m);
    NotAStart(st, sh, m);
  }

  /** The very first entry is in the leftmost leaf. */
  lemma FirstStartsNoLeaf(st: Store, sh: Shape, m: nat)
    requires IndexInv(st, sh, m) && Contents(st, sh) != []
    ensures !StartsLeaf(st, sh, 0)
  {
    LeafFacts(st, sh, m, 0);
    forall j | 1 <= j < |sh.leaves| ensures Offset(st, sh, j) > 0 {
      OffsetsIncrease(st, sh, m, 0, j);
      NextLeaf(st, sh, m, j - 1);
      LeafFacts(st, sh, m, j);
      assert st.pages[sh.leaves[0]].keys != [] by { if st.pages[sh.leaves[0]].keys == [] { EmptyLeaf(st, sh, m); } }
    }
  }

  /** An entry, and a position past the end, is on a leaf page. */
  lemma OnLeafPage(st: Store, sh: Shape, m: nat, iid: Iid)
    requires IndexInv(st, sh, m) && (OnEntry(st, sh, iid) || PastEnd(st, sh, iid))
    ensures iid.pageNo in st.pages && st.pages[iid.pageNo].isLeaf && iid.slotNo >= 0
  {
    if OnEntry(st, sh, iid) {
      var n: nat :| At(st, sh, iid, n);
      var j: nat :| AtSlot(st, sh, iid, j, n);
      LeafFacts(st, sh, m, j);
    } else {
      LeafFacts(st, sh, m, |sh.leaves| - 1);
    }
  }

  /** What a run of the scan comes to, for some content of the two buffers: it throws, or yields these records. */
  ghost predicate Outcome(st: Store, sh: Shape, table: map<Rid, Row>, conds: seq<Condition>, cols: seq<nat>,
                          start: seq<int>, end: seq<int>, throws: bool, rids: seq<Rid>)
    requires forall r | r in table :: AllFit(conds, |table[r]|)
  {
    var bs := Bounds(conds, cols);
    && RangeSet(start, end, bs) && throws == StartsNowhere(Contents(st, sh), bs, start)
    && (!throws ==> rids == Select(Rids(VisitedEntries(st, sh, bs, start, end)), table, conds))
  }

  ghost predicate SomeOutcome(st: Store, sh: Shape, table: map<Rid, Row>, conds: seq<Condition>, cols: seq<nat>,
                              throws: bool, rids: seq<Rid>)
    requires forall r | r in table :: AllFit(conds, |table[r]|)
  {
    exists start, end :: Outcome(st, sh, table, conds, cols, start, end, throws, rids)
  }

  lemma SomeOutcomeIs(st: Store, sh: Shape, table: map<Rid, Row>, conds: seq<Condition>, cols: seq<nat>,
                      start: seq<int>, end: seq<int>, throws: bool, rids: seq<Rid>)
    requires (forall r | r in table :: AllFit(conds, |table[r]|)) && RangeSet(start, end, Bounds(conds, cols))
    requires throws == StartsNowhere(Contents(st, sh), Bounds(conds, cols), start)
    requires !throws ==> rids == Select(Rids(VisitedEntries(st, sh, Bounds(conds, cols), start, end)), table, conds)
    ensures SomeOutcome(st, sh, table, conds, cols, throws, rids)
  {
    assert Outcome(st, sh, table, conds, cols, start, end, throws, rids);
  }

  /** For a sound shape there is one outcome, whatever was in the buffers. */
  lemma SoundOutcome(st: Store, sh: Shape, m: nat, table: map<Rid, Row>, conds: seq<Condition>, cols: seq<nat>,
                     width: nat, throws: bool, rids: seq<Rid>)
    requires IndexInv(st, sh, m) && Suits(table, conds, cols, width) && Sound(Bounds(conds, cols))
    requires SomeOutcome(st, sh, table, conds, cols, throws, rids)
    ensures throws <==> Throws(Contents(st, sh), Bounds(conds, cols))
    ensures !throws && IndexOf(Contents(st, sh), table, cols) ==> rids == Select(Rids(Contents(st, sh)), table, conds)
  {
    var bs, es := Bounds(conds, cols), Contents(st, sh);
    var start, end :| Outcome(st, sh, table, conds, cols, start, end, throws, rids);
    ThrowsWhen(es, bs, start, end);
    if !throws && IndexOf(es, table, cols) { SoundVisits(st, sh, m, table, conds, cols, width, start, end); }
  }

  /** What a sound range takes in. */
  lemma SoundVisits(st: Store, sh: Shape, m: nat, table: map<Rid, Row>, conds: seq<Condition>, cols: seq<nat>,
                    width: nat, start: seq<int>, end: seq<int>)
    requires IndexInv(st, sh, m) && Suits(table, conds, cols, width) && IndexOf(Contents(st, sh), table, cols)
    requires RangeSet(start, end, Bounds(conds, cols)) && Sound(Bounds(conds, cols))
    ensures Select(Rids(VisitedEntries(st, sh, Bounds(conds, cols), start, end)), table, conds)
         == Select(Rids(Contents(st, sh)), table, conds)
  {
    var bs, es := Bounds(conds, cols), Contents(st, sh);
    SoundEnds(st, sh, m, bs, start, end);
    ContentsSorted(st, sh, m);
    RunSelectsAll(es, table, conds, cols, width, start, end, PastOf(st, sh, bs, end));
  }

  lemma SoundEnds(st: Store, sh: Shape, m: nat, bs: seq<Bound>, start: seq<int>, end: seq<int>)
    requires IndexInv(st, sh, m) && RangeSet(start, end, bs) && Sound(bs)
    ensures var es := Contents(st, sh); var a, b := FirstOf(es, bs, start), PastOf(st, sh, bs, end);
      a <= b <= |es| && (Uppers(bs) > 0 ==> UpperEntry(es, IntKey(end)) <= b)
  {
    if Uppers(bs) > 0 {
      var n := UpperEntry(Contents(st, sh), IntKey(end));
      FirstBeforePast(Contents(st, sh), bs, start, end);
      if StartsLeaf(st, sh, n) { StartIsNotLast(st, sh, m, n); }
    }
  }

  // ----- the executor -----

  class IndexScanExecutor {
    const ih: IxIndexHandle
    const table: map<Rid, Row>
    const cols: seq<nat>          // the columns of the index
    const conds: seq<Condition>
    const width: nat
    var scan: IxScan?
    var rid: Rid

    constructor (ih: IxIndexHandle, table: map<Rid, Row>, cols: seq<nat>, conds: seq<Condition>, width: nat)
      ensures this.ih == ih && this.table == table && this.cols == cols && this.conds == conds && this.width == width
      ensures scan == null
    {
      this.ih, this.table, this.cols, this.conds, this.width := ih, table, cols, conds, width;
      scan := null;
    }

    ghost predicate Ready() {
      Suits(table, conds, cols, width)
    }

    /** The cursor is on an entry or at its end. */
    ghost predicate Open()
      reads this, scan, ih
    {
      Ready() && scan != null && scan.ih == ih && scan !in ih.Repr && scan.OnTrack()
    }

    /** The record ids still to be yielded. */
    ghost function Pending(): seq<Rid>
      requires Open()
      reads this, scan, ih
    {
      Select(Rids(scan.Remaining()), table, conds)
    }

    /** On an entry whose record is to be yielded, or at the end. */
    ghost predicate Valid()
      reads this, scan, ih
    {
      && Open()
      && (!scan.IsEnd() ==> Passes(rid, table, conds) && scan.Remaining() != [] && scan.Remaining()[0].rid == rid)
    }

    predicate IsEnd()
      requires scan != null
      reads this, scan
    {
      scan.IsEnd()
    }

    /** The next id to be yielded is the one the executor holds. */
    lemma PendingHead()
      requires Valid() && !IsEnd()
      ensures Pending() == [rid] + Pending()[1..]
    {
      TailRids(scan.Remaining());
    }

    /** One round of the loops below: whether the record under the cursor passes; if it does not, the cursor goes on. */
    method Try() returns (found: bool)
      requires ih.Valid() && Open() && !scan.IsEnd()
      modifies this`rid, scan
      ensures Open() && Pending() == old(Pending())
      ensures found ==> Valid()
      ensures !found ==> |scan.Remaining()| < old(|scan.Remaining()|)
    {
      scan.OnLeaf();
      var current := scan.CurrentRid();
      scan.HasRest();
      TailRids(scan.Remaining());
      found := CheckEntry(current.value, table, conds);
      if found {
        rid := current.value;
      } else {
        scan.Next();
      }
    }

    /** The loops of beginTuple and nextTuple. */
    method Skip()
      requires ih.Valid() && Open() && this !in ih.Repr
      modifies this`rid, scan
      ensures Valid() && Pending() == old(Pending())
    {
      while !scan.IsEnd()
        invariant Open() && Pending() == old(Pending())
        decreases |scan.Remaining()|
      {
        var found := Try();
        if found { return; }
      }
    }

    /** Where beginTuple starts. */
    method FindLower(keyStart: seq<int>, lowerCols: nat) returns (lower: Iid)
      requires ih.Valid()
      ensures LowerPositioned(ih.store, ih.shape, lowerCols, keyStart, lower)
    {
      if lowerCols == 0 { lower := ih.LeafBegin(); } else { lower := ih.LowerBound(IntKey(keyStart)); }
    }

    /** Where it stops. */
    method FindUpper(keyEnd: seq<int>, upperCols: nat) returns (upper: Iid)
      requires ih.Valid()
      ensures UpperPositioned(ih.store, ih.shape, upperCols, keyEnd, upper)
    {
      if upperCols == 0 { upper := ih.LeafEnd(); } else { upper := ih.UpperBound(IntKey(keyEnd)); }
    }

    /** The part of beginTuple that opens the cursor. */
    method OpenScan() returns (ghost start: seq<int>, ghost end: seq<int>)
      requires ih.Valid() && this !in ih.Repr
      modifies this`scan
      ensures scan != null && fresh(scan) && scan.ih == ih
      ensures RangeSet(start, end, Bounds(conds, cols))
      ensures Positioned(ih.store, ih.shape, Bounds(conds, cols), start, end, scan.iid, scan.end)
    {
      var keyStart, keyEnd, lowerCols, upperCols := BuildRange(conds, cols);
      start, end := keyStart[..], keyEnd[..];
      var lower := FindLower(keyStart[..], lowerCols);
      var upper := FindUpper(keyEnd[..], upperCols);
      scan := new IxScan(ih, lower, upper);
    }

    /** The same, for what the cursor is going to visit. */
    method PrepareScan() returns (ghost start: seq<int>, ghost end: seq<int>)
      requires ih.Valid() && Ready() && this !in ih.Repr
      modifies this`scan
      ensures RangeSet(start, end, Bounds(conds, cols))
      ensures scan != null && fresh(scan) && scan.ih == ih
      ensures OnEntry(ih.store, ih.shape, scan.iid) || PastEnd(ih.store, ih.shape, scan.iid)
      ensures StartsNowhere(ih.Entries(), Bounds(conds, cols), start) <==> !scan.OnTrack()
      ensures scan.Remaining() == VisitedEntries(ih.store, ih.shape, Bounds(conds, cols), start, end)
    {
      start, end := OpenScan();
      CursorVisits(ih.store, ih.shape, ih.maxSize, Bounds(conds, cols), start, end, scan.iid, scan.end);
      PositionsDenote(ih.store, ih.shape, ih.maxSize, Bounds(conds, cols), start, end, scan.iid, scan.end);
    }

    /** The first call of rid(), which throws if the cursor is past the end but not where it stops. */
    method CheckStart() returns (error: Option<ScanError>)
      requires ih.Valid() && scan != null && scan.ih == ih && scan !in ih.Repr
      requires OnEntry(ih.store, ih.shape, scan.iid) || PastEnd(ih.store, ih.shape, scan.iid)
      ensures error.Some? <==> !scan.OnTrack()
    {
      if scan.IsEnd() { return None; }
      assert scan.iid.pageNo in ih.pages && ih.store.pages[scan.iid.pageNo].isLeaf && scan.iid.slotNo >= 0 by {
        OnLeafPage(ih.store, ih.shape, ih.maxSize, scan.iid);
      }
      var current := scan.CurrentRid();
      if current.None? {
        if scan.OnTrack() { scan.HasRest(); }
        return Some(IndexEntryNotFound);
      }
      error := None;
    }

    /** beginTuple. For conditions of any shape, what it prepares depends on what was in the buffers. For a sound shape
        it does not: it throws exactly when Throws says, and otherwise yields the ids that pass, in index order. */
    method BeginTuple() returns (error: Option<ScanError>)
      requires ih.Valid() && Ready() && this !in ih.Repr
      modifies this
      ensures error.None? ==> Valid() && fresh(scan)
      ensures error.Some? ==> SomeOutcome(ih.store, ih.shape, table, conds, cols, true, [])
      ensures error.None? ==> SomeOutcome(ih.store, ih.shape, table, conds, cols, false, Pending())
      ensures Sound(Bounds(conds, cols)) ==> (error.Some? <==> Throws(ih.Entries(), Bounds(conds, cols)))
      ensures Sound(Bounds(conds, cols)) && error.None? && IndexOf(ih.Entries(), table, cols) ==>
        Pending() == Select(Rids(ih.Entries()), table, conds)
    {
      ghost var rids;
      error, rids := OpenChecked();
      if error.None? { Skip(); }
      if Sound(Bounds(conds, cols)) {
        SoundOutcome(ih.store, ih.shape, ih.maxSize, table, conds, cols, width, error.Some?, rids);
      }
    }

    /** Its part before the loop. */
    method OpenChecked() returns (error: Option<ScanError>, ghost rids: seq<Rid>)
      requires ih.Valid() && Ready() && this !in ih.Repr
      modifies this`scan
      ensures SomeOutcome(ih.store, ih.shape, table, conds, cols, error.Some?, rids)
      ensures if error.None? then Open() && fresh(scan) && Pending() == rids else rids == []
    {
      ghost var start, end := PrepareScan();
      error := CheckStart();
      rids := if error.None? then Pending() else [];
      SomeOutcomeIs(ih.store, ih.shape, table, conds, cols, start, end, error.Some?, rids);
    }

    /** nextTuple */
    method NextTuple()
      requires ih.Valid() && Valid() && !IsEnd() && this !in ih.Repr
      modifies this`rid, scan
      ensures Valid() && Pending() == old(Pending())[1..]
    {
      scan.OnLeaf();
      TailRids(scan.Remaining());
      scan.Next();
      Skip();
    }

    /** rid() and then nextTuple(). */
    method Take() returns (r: Rid)
      requires ih.Valid() && Valid() && !IsEnd() && this !in ih.Repr
      modifies this`rid, scan
      ensures Valid() && old(Pending()) == [r] + Pending()
    {
      PendingHead();
      r := rid;
      NextTuple();
    }

    /** The calls between beginTuple and is_end. */
    method Drain() returns (rids: seq<Rid>)
      requires ih.Valid() && Valid() && this !in ih.Repr
      modifies this`rid, scan
      ensures rids == old(Pending())
    {
      rids := [];
      ghost var all := Pending();
      while !IsEnd()
        invariant Valid() && rids + Pending() == all
        decreases |Pending()|
      {
        var r := Take();
        Regroup(rids, [r], Pending());
        rids := rids + [r];
      }
    }

    /** All that a caller gets, for conditions of any shape, and for those of a sound shape. */
    method Run() returns (error: Option<ScanError>, rids: seq<Rid>)
      requires ih.Valid() && Ready() && this !in ih.Repr && IndexOf(ih.Entries(), table, cols)
      modifies this
      ensures SomeOutcome(ih.store, ih.shape, table, conds, cols, error.Some?, rids)
      ensures Sound(Bounds(conds, cols)) ==> (error.Some? <==> Throws(ih.Entries(), Bounds(conds, cols)))
      ensures Sound(Bounds(conds, cols)) && error.None? ==> rids == Select(Rids(ih.Entries()), table, conds)
    {
      rids := [];
      error := BeginTuple();
      if error.None? { rids := Drain(); }
      if Sound(Bounds(conds, cols)) {
        SoundOutcome(ih.store, ih.shape, ih.maxSize, table, conds, cols, width, error.Some?, rids);
      }
    }
  }
}
