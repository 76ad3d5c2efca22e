// The key range IndexScanExecutor::beginTuple derives from its conditions, and when it is wide enough.
module KeyRange {
  import opened KeyOrder
  import opened ScanDefs

  // ----- what the conditions say about one index column -----

  /** What the first literal condition on a column asks: nothing usable, a value, another value, a lower or an upper
      limit. */
  datatype Bound = NoCond | Exact(value: int) | Unequal | From(value: int) | UpTo(value: int)

  predicate Usable(cond: Condition, col: nat) {
    cond.rhs.Literal? && cond.lhsCol == col
  }

  /** The first condition on the column from i on. */
  function FirstOn(conds: seq<Condition>, col: nat, i: nat): (r: nat)
    requires i <= |conds|
    ensures i <= r <= |conds|
    ensures r < |conds| ==> Usable(conds[r], col)
    ensures forall j | i <= j < r :: !Usable(conds[j], col)
    decreases |conds| - i
  {
    if i == |conds| || Usable(conds[i], col) then i else FirstOn(conds, col, i + 1)
  }

  function BoundOf(cond: Condition): Bound
    requires cond.rhs.Literal?
  {
    match cond.op
    case OP_EQ => Exact(cond.rhs.value)
    case OP_NE => Unequal
    case OP_GT => From(cond.rhs.value)
    case OP_GE => From(cond.rhs.value)
    case OP_LT => UpTo(cond.rhs.value)
    case OP_LE => UpTo(cond.rhs.value)
  }

  function BoundOn(conds: seq<Condition>, col: nat): Bound {
    var i := FirstOn(conds, col, 0);
    if i == |conds| then NoCond else BoundOf(conds[i])
  }

  function Bounds(conds: seq<Condition>, cols: seq<nat>): (bs: seq<Bound>)
    ensures |bs| == |cols| && forall i | 0 <= i < |cols| :: bs[i] == BoundOn(conds, cols[i])
  {
    FirstBounds(conds, cols, |cols|)
  }

  function FirstBounds(conds: seq<Condition>, cols: seq<nat>, n: nat): (bs: seq<Bound>)
    requires n <= |cols|
    ensures |bs| == n && forall i | 0 <= i < n :: bs[i] == BoundOn(conds, cols[i])
  {
    if n == 0 then [] else FirstBounds(conds, cols, n - 1) + [BoundOn(conds, cols[n - 1])]
  }

  /** Column value x meets a bound. */
  predicate Meets(x: int, b: Bound) {
    match b
    case NoCond => true
    case Exact(v) => x == v
    case Unequal => true
    case From(v) => v <= x
    case UpTo(v) => x <= v
  }

  /** The index columns of a row that satisfies the conditions meet their bounds. */
  lemma SatisfiesMeets(row: Row, conds: seq<Condition>, cols: seq<nat>, i: nat)
    requires AllFit(conds, |row|) && Satisfies(row, conds) && i < |cols| && cols[i] < |row|
    ensures Meets(row[cols[i]], Bounds(conds, cols)[i])
  {
    var j := FirstOn(conds, cols[i], 0);
    if j < |conds| { assert Holds(conds[j], row); }
  }

  /** A single literal condition on an index column says no more than that, but for the limit itself and for <>. */
  lemma MeetsSatisfies(row: Row, cond: Condition, cols: seq<nat>, i: nat)
    requires i < |cols| && cond.lhsCol == cols[i] < |row| && cond.rhs.Literal?
    ensures var x, y, b := row[cols[i]], cond.rhs.value, Bounds([cond], cols)[i];
      match cond.op
      case OP_EQ => Satisfies(row, [cond]) <==> Meets(x, b)
      case OP_LE => Satisfies(row, [cond]) <==> Meets(x, b)
      case OP_GE => Satisfies(row, [cond]) <==> Meets(x, b)
      case OP_LT => Meets(y, b) && (Satisfies(row, [cond]) <==> Meets(x, b) && x != y)
      case OP_GT => Meets(y, b) && (Satisfies(row, [cond]) <==> Meets(x, b) && x != y)
      case OP_NE => b == Unequal && (Satisfies(row, [cond]) <==> x != y)
  {
    assert FirstOn([cond], cols[i], 0) == 0;
    assert Satisfies(row, [cond]) <==> Holds([cond][0], row);
  }

  // ----- how far the columns are used -----

  /** The columns looked at, from column i on: up to the first without a condition, or with a limit. */
  function Visited(bs: seq<Bound>, i: nat): (r: nat)
    requires i <= |bs|
    ensures i <= r <= |bs|
    ensures forall j | i <= j < r :: !bs[j].NoCond?
    ensures forall j | i <= j < r - 1 :: bs[j].Exact? || bs[j].Unequal?
    decreases |bs| - i
  {
    if i == |bs| || bs[i].NoCond? then i
    else if bs[i].From? || bs[i].UpTo? then i + 1
    else Visited(bs, i + 1)
  }

  predicate SetsLower(b: Bound) { b.Exact? || b.From? }
  predicate SetsUpper(b: Bound) { b.Exact? || b.UpTo? }

  function LowerCount(bs: seq<Bound>, n: nat): (r: nat)
    requires n <= |bs|
    ensures r <= n
    ensures r == n <==> forall i | 0 <= i < n :: SetsLower(bs[i])
  {
    if n == 0 then 0 else LowerCount(bs, n - 1) + (if SetsLower(bs[n - 1]) then 1 else 0)
  }

  function UpperCount(bs: seq<Bound>, n: nat): (r: nat)
    requires n <= |bs|
    ensures r <= n
    ensures r > 0 <==> exists i | 0 <= i < n :: SetsUpper(bs[i])
  {
    if n == 0 then 0 else UpperCount(bs, n - 1) + (if SetsUpper(bs[n - 1]) then 1 else 0)
  }

  /** The number of columns that went into lower_col and upper_col. */
  function Lowers(bs: seq<Bound>): (r: nat)
    ensures r <= Visited(bs, 0)
  {
    LowerCount(bs, Visited(bs, 0))
  }

  function Uppers(bs: seq<Bound>): nat { UpperCount(bs, Visited(bs, 0)) }

  /** What the two buffers hold. The defaults start at the column number lower_col has entries, so a column before that
      which no condition wrote keeps whatever the buffer was allocated with. */
  predicate RangeSet(start: seq<int>, end: seq<int>, bs: seq<Bound>) {
    && |start| == |end| == |bs|
    && forall i | 0 <= i < |bs| ::
      && (i >= Lowers(bs) ==> start[i] == INT32_MIN && end[i] == INT32_MAX)
      && (i < Lowers(bs) && SetsLower(bs[i]) ==> start[i] == bs[i].value)
      && (i < Lowers(bs) && SetsUpper(bs[i]) ==> end[i] == bs[i].value)
  }

  /** Buffer entries written for the columns before c. */
  predicate Written(start: seq<int>, end: seq<int>, bs: seq<Bound>, c: nat)
    requires |start| == |end| == |bs| && c <= |bs|
  {
    forall i | 0 <= i < c ::
      (SetsLower(bs[i]) ==> start[i] == bs[i].value) && (SetsUpper(bs[i]) ==> end[i] == bs[i].value)
  }

  /** The inner loop: the first condition to use for a column. */
  method FindCondition(conds: seq<Condition>, col: nat) returns (i: nat)
    ensures i == FirstOn(conds, col, 0)
  {
    i := 0;
    while i < |conds| && !(conds[i].rhs.Literal? && conds[i].lhsCol == col)
      invariant i <= |conds| && FirstOn(conds, col, i) == FirstOn(conds, col, 0)
    {
      i := i + 1;
    }
  }

  /** The switch over the operator of the condition found for column c. */
  method WriteBound(cond: Condition, keyStart: array<int>, keyEnd: array<int>, c: nat)
    returns (setsLower: bool, setsUpper: bool)
    requires c < keyStart.Length == keyEnd.Length && keyStart != keyEnd && cond.rhs.Literal?
    modifies keyStart, keyEnd
    ensures setsLower == SetsLower(BoundOf(cond)) && setsUpper == SetsUpper(BoundOf(cond))
    ensures keyStart[..] == if setsLower then old(keyStart[..])[c := BoundOf(cond).value] else old(keyStart[..])
    ensures keyEnd[..] == if setsUpper then old(keyEnd[..])[c := BoundOf(cond).value] else old(keyEnd[..])
  {
    setsLower, setsUpper := false, false;
    match cond.op {
      case OP_EQ =>
        keyStart[c], keyEnd[c] := cond.rhs.value, cond.rhs.value;
        setsLower, setsUpper := true, true;
      case OP_GT =>
        keyStart[c] := cond.rhs.value;
        setsLower := true;
      case OP_GE =>
        keyStart[c] := cond.rhs.value;
        setsLower := true;
      case OP_LT =>
        keyEnd[c] := cond.rhs.value;
        setsUpper := true;
      case OP_LE =>
        keyEnd[c] := cond.rhs.value;
        setsUpper := true;
      case OP_NE =>
    }
  }

  /** One round of the loop over the index columns: goOn unless there is no condition or a limit. */
  method VisitColumn(conds: seq<Condition>, cols: seq<nat>, keyStart: array<int>, keyEnd: array<int>, c: nat)
    returns (found: bool, setsLower: bool, setsUpper: bool)
    requires c < |cols| == keyStart.Length == keyEnd.Length && keyStart != keyEnd
    requires Written(keyStart[..], keyEnd[..], Bounds(conds, cols), c)
    modifies keyStart, keyEnd
    ensures var b := Bounds(conds, cols)[c];
      found == !b.NoCond? && setsLower == SetsLower(b) && setsUpper == SetsUpper(b)
    ensures Written(keyStart[..], keyEnd[..], Bounds(conds, cols), if found then c + 1 else c)
  {
    var i := FindCondition(conds, cols[c]);
    found, setsLower, setsUpper := i < |conds|, false, false;
    if found {
      setsLower, setsUpper := WriteBound(conds[i], keyStart, keyEnd, c);
    }
  }

  /** Where the loop over the index columns is: c columns done, and whether it goes on. */
  predicate Counted(bs: seq<Bound>, c: nat, goOn: bool, lowerCols: nat, upperCols: nat) {
    && c <= |bs| && lowerCols == LowerCount(bs, c) && upperCols == UpperCount(bs, c)
    && (if goOn then Visited(bs, c) == Visited(bs, 0) else Visited(bs, 0) == c)
  }

  /** One more column. */
  lemma CountOne(bs: seq<Bound>, c: nat, lowerCols: nat, upperCols: nat)
    requires c < |bs| && Counted(bs, c, true, lowerCols, upperCols)
    ensures var b := bs[c];
      if b.NoCond? then Counted(bs, c, false, lowerCols, upperCols)
      else Counted(bs, c + 1, SetsLower(b) == SetsUpper(b), lowerCols + (if SetsLower(b) then 1 else 0),
                   upperCols + (if SetsUpper(b) then 1 else 0))
  {
  }

  /** The loop over the index columns. */
  method WriteBounds(conds: seq<Condition>, cols: seq<nat>, keyStart: array<int>, keyEnd: array<int>)
    returns (lowerCols: nat, upperCols: nat)
    requires keyStart.Length == keyEnd.Length == |cols| && keyStart != keyEnd
    modifies keyStart, keyEnd
    ensures var bs := Bounds(conds, cols);
      && lowerCols == Lowers(bs) && upperCols == Uppers(bs)
      && Written(keyStart[..], keyEnd[..], bs, Visited(bs, 0))
  {
    ghost var bs := Bounds(conds, cols);
    lowerCols, upperCols := 0, 0;
    var c, goOn := 0, true;
    while c < |cols| && goOn
      invariant Counted(bs, c, goOn, lowerCols, upperCols)
      invariant Written(keyStart[..], keyEnd[..], bs, c)
      decreases |cols| - c, goOn
    {
      CountOne(bs, c, lowerCols, upperCols);
      var found, setsLower, setsUpper := VisitColumn(conds, cols, keyStart, keyEnd, c);
      if setsLower { lowerCols := lowerCols + 1; }
      if setsUpper { upperCols := upperCols + 1; }
      goOn := found && setsLower == setsUpper;
      if found { c := c + 1; }
    }
  }

  /** The part of beginTuple that computes the key range. The buffers are allocated without being cleared. */
  method BuildRange(conds: seq<Condition>, cols: seq<nat>)
    returns (keyStart: array<int>, keyEnd: array<int>, lowerCols: nat, upperCols: nat)
    ensures fresh(keyStart) && fresh(keyEnd)
    ensures var bs := Bounds(conds, cols);
      RangeSet(keyStart[..], keyEnd[..], bs) && lowerCols == Lowers(bs) && upperCols == Uppers(bs)
  {
    ghost var bs := Bounds(conds, cols);
    keyStart, keyEnd := new int[|cols|], new int[|cols|];
    lowerCols, upperCols := WriteBounds(conds, cols, keyStart, keyEnd);
    ghost var start, end := keyStart[..], keyEnd[..];
    for c := lowerCols to |cols|
      invariant forall i | 0 <= i < |cols| :: keyStart[i] == if lowerCols <= i < c then INT32_MIN else start[i]
      invariant forall i | 0 <= i < |cols| :: keyEnd[i] == if lowerCols <= i < c then INT32_MAX else end[i]
    {
      keyStart[c], keyEnd[c] := INT32_MIN, INT32_MAX;
    }
  }

  // ----- when the range is wide enough -----

  /** The buffers that are used have been written in every column. */
  predicate Sound(bs: seq<Bound>) {
    && (Lowers(bs) > 0 ==> forall i | 0 <= i < Lowers(bs) :: SetsLower(bs[i]))
    && (Uppers(bs) > 0 ==> forall i | 0 <= i < Lowers(bs) :: SetsUpper(bs[i]))
  }

  /** How many columns from i on are compared for equality. */
  function Equalities(bs: seq<Bound>, i: nat): (r: nat)
    requires i <= |bs|
    ensures i <= r <= |bs| && (r < |bs| ==> !bs[r].Exact?)
    ensures forall j | i <= j < r :: bs[j].Exact?
    decreases |bs| - i
  {
    if i < |bs| && bs[i].Exact? then Equalities(bs, i + 1) else i
  }

  /** The shape of conditions for which that is so: equalities on the first columns, then nothing or an upper limit; or
      just a lower limit on the first column. A <> in between is tolerated when no equality or lower limit comes after
      it. */
  lemma SoundShape(bs: seq<Bound>)
    ensures var e := Equalities(bs, 0);
      Sound(bs) <==>
        || e == |bs| || bs[e].NoCond? || bs[e].UpTo?
        || (bs[e].From? && e == 0)
        || (bs[e].Unequal? && forall i | e <= i < Visited(bs, 0) :: !SetsLower(bs[i]))
  {
    var e, v := Equalities(bs, 0), Visited(bs, 0);
    VisitedFrom(bs, 0, e);
    LowerPrefix(bs, e, v);
    if e > 0 { assert SetsUpper(bs[0]); }
  }

  lemma {:induction false} VisitedFrom(bs: seq<Bound>, i: nat, e: nat)
    requires i <= e <= |bs| && forall j | i <= j < e :: bs[j].Exact?
    ensures Visited(bs, i) == Visited(bs, e)
    decreases e - i
  {
    if i < e { VisitedFrom(bs, i + 1, e); }
  }

  /** Counting goes through an all-equal prefix, and beyond it counts what is there. */
  lemma {:induction false} LowerPrefix(bs: seq<Bound>, e: nat, v: nat)
    requires e <= v <= |bs| && forall j | 0 <= j < e :: bs[j].Exact?
    ensures LowerCount(bs, v) >= e
    ensures LowerCount(bs, v) == e <==> forall i | e <= i < v :: !SetsLower(bs[i])
  {
    if e < v { LowerPrefix(bs, e, v - 1); }
  }

  /** Column values of a row, all 32-bit, that meet the bounds. */
  predicate Candidate(row: seq<int>, bs: seq<Bound>) {
    |row| == |bs| && forall i | 0 <= i < |bs| :: INT32_MIN <= row[i] <= INT32_MAX && Meets(row[i], bs[i])
  }

  /** The row's key is where a scan with these buffers looks. */
  ghost predicate InRange(row: seq<int>, start: seq<int>, end: seq<int>, bs: seq<Bound>) {
    && (Lowers(bs) > 0 ==> !Less(IntKey(row), IntKey(start)))
    && (Uppers(bs) > 0 ==> !Less(IntKey(end), IntKey(row)))
  }

  /** Keys whose first n columns agree are ordered by the next column. */
  lemma OrderedAt(a: seq<int>, b: seq<int>, n: nat)
    requires n < |a| == |b| && (forall i | 0 <= i < n :: a[i] == b[i]) && a[n] < b[n]
    ensures Less(IntKey(a), IntKey(b))
  {
    LessAtDifference(IntKey(a), IntKey(b), n);
  }

  /** Column by column at most: not above. */
  lemma {:induction false} NotAbove(a: seq<int>, b: seq<int>, n: nat)
    requires n <= |a| == |b| && (forall i | 0 <= i < n :: a[i] == b[i]) && (forall i | n <= i < |a| :: a[i] <= b[i])
    ensures !Less(IntKey(b), IntKey(a))
    decreases |a| - n
  {
    if n < |a| {
      if a[n] == b[n] {
        NotAbove(a, b, n + 1);
      } else {
        OrderedAt(a, b, n);
        LessOrder(IntKey(a), IntKey(b), IntKey(a));
      }
    } else {
      assert a == b;
      LessOrder(IntKey(a), IntKey(a), IntKey(a));
    }
  }

  /** When every column in use is written, every row that meets the bounds is in range. */
  lemma SoundCovers(row: seq<int>, start: seq<int>, end: seq<int>, bs: seq<Bound>)
    requires Sound(bs) && RangeSet(start, end, bs) && Candidate(row, bs)
    ensures InRange(row, start, end, bs)
  {
    if Lowers(bs) > 0 {
      forall i | 0 <= i < |bs| ensures start[i] <= row[i] {
        assert Meets(row[i], bs[i]);
      }
      NotAbove(start, row, 0);
    }
    if Uppers(bs) > 0 {
      forall i | 0 <= i < |bs| ensures row[i] <= end[i] {
        assert Meets(row[i], bs[i]);
      }
      NotAbove(row, end, 0);
    }
  }

  /** On one column the range is exact for an equality and a lower limit. An upper limit has no effect, as its buffer
      is overwritten. */
  lemma OneColumnRange(x: int, start: seq<int>, end: seq<int>, b: Bound)
    requires RangeSet(start, end, [b]) && INT32_MIN <= x <= INT32_MAX
    ensures InRange([x], start, end, [b]) <==> Meets(x, b) || b.UpTo?
  {
    assert Visited([b], 0) == if b.NoCond? then 0 else 1;
    assert LowerCount([b], 1) == if SetsLower(b) then 1 else 0;
    assert UpperCount([b], 1) == if SetsUpper(b) then 1 else 0;
    assert forall y, z | |y| == 1 && |z| == 1 :: Less(IntKey(y), IntKey(z)) <==> y[0] < z[0];
  }

  /** Buffers as beginTuple leaves them when the memory they got was filled with x and y. */
  function StartWith(bs: seq<Bound>, x: int, n: nat): (buf: seq<int>)
    requires n <= |bs|
    ensures |buf| == n
    ensures forall i | 0 <= i < n ::
      buf[i] == if i >= Lowers(bs) then INT32_MIN else if SetsLower(bs[i]) then bs[i].value else x
  {
    if n == 0 then []
    else
      StartWith(bs, x, n - 1)
      + [if n - 1 >= Lowers(bs) then INT32_MIN else if SetsLower(bs[n - 1]) then bs[n - 1].value else x]
  }

  function EndWith(bs: seq<Bound>, y: int, n: nat): (buf: seq<int>)
    requires n <= |bs|
    ensures |buf| == n
    ensures forall i | 0 <= i < n ::
      buf[i] == if i >= Lowers(bs) then INT32_MAX else if SetsUpper(bs[i]) then bs[i].value else y
  {
    if n == 0 then []
    else
      EndWith(bs, y, n - 1)
      + [if n - 1 >= Lowers(bs) then INT32_MAX else if SetsUpper(bs[n - 1]) then bs[n - 1].value else y]
  }

  /** For every other shape there is leftover memory that hides the row: its equalities put the limits at the row
      itself, and the first column after them that no condition wrote decides. */
  lemma UnsoundMisses(row: seq<int>, bs: seq<Bound>)
    requires !Sound(bs) && Candidate(row, bs)
    requires forall i | 0 <= i < |row| :: INT32_MIN < row[i] < INT32_MAX
    ensures !InRange(row, StartWith(bs, INT32_MAX, |bs|), EndWith(bs, INT32_MIN, |bs|), bs)
  {
    var e, v := Equalities(bs, 0), Visited(bs, 0);
    var start, end := StartWith(bs, INT32_MAX, |bs|), EndWith(bs, INT32_MIN, |bs|);
    SoundShape(bs);
    VisitedFrom(bs, 0, e);
    LowerPrefix(bs, e, v);
    forall i | 0 <= i < e ensures start[i] == row[i] == end[i] { assert Meets(row[i], bs[i]); }
    if bs[e].From? {
      assert SetsUpper(bs[0]);
      OrderedAt(end, row, e);
    } else {
      OrderedAt(row, start, e);
    }
  }

  /** Whether that is because the lower key is above the row: it is not when the column that decides has a lower
      limit. */
  lemma UnsoundStart(row: seq<int>, bs: seq<Bound>)
    requires !Sound(bs) && Candidate(row, bs)
    requires forall i | 0 <= i < |row| :: INT32_MIN < row[i] < INT32_MAX
    ensures Equalities(bs, 0) < |bs|
    ensures Lowers(bs) > 0 && Less(IntKey(row), IntKey(StartWith(bs, INT32_MAX, |bs|)))
         <==> !bs[Equalities(bs, 0)].From?
    ensures Lowers(bs) > 0 || Uppers(bs) > 0
  {
    var e, v := Equalities(bs, 0), Visited(bs, 0);
    var start := StartWith(bs, INT32_MAX, |bs|);
    SoundShape(bs);
    VisitedFrom(bs, 0, e);
    LowerPrefix(bs, e, v);
    if bs[e].From? {
      assert LowerCount(bs, e + 1) == LowerCount(bs, e) + 1;
      LowerPrefix(bs, e, e);
      assert Lowers(bs) == e + 1;
      forall i | 0 <= i < |bs| ensures start[i] <= row[i] { assert Meets(row[i], bs[i]); }
      NotAbove(start, row, 0);
    } else {
      forall i | 0 <= i < e ensures start[i] == row[i] { assert Meets(row[i], bs[i]); }
      OrderedAt(row, start, e);
    }
  }

  /** The range takes in every row it should, whatever was in the buffers before, exactly for the sound shapes of
      conditions. Rows with a value at the very end of the 32-bit range are left out of the comparison. */
  lemma RangeTakesInAll(row: seq<int>, bs: seq<Bound>)
    requires Candidate(row, bs) && forall i | 0 <= i < |row| :: INT32_MIN < row[i] < INT32_MAX
    ensures (forall start, end | RangeSet(start, end, bs) :: InRange(row, start, end, bs)) <==> Sound(bs)
  {
    if Sound(bs) {
      forall start, end | RangeSet(start, end, bs) ensures InRange(row, start, end, bs) {
        SoundCovers(row, start, end, bs);
      }
    } else {
      UnsoundMisses(row, bs);
      assert RangeSet(StartWith(bs, INT32_MAX, |bs|), EndWith(bs, INT32_MIN, |bs|), bs);
    }
  }
}
