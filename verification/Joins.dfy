// The input of an iterator, and the nested-loop join iterator.
module Joins {
  import opened IxDefs
  import opened ScanDefs
  import opened PlanDefs

  /** The columns of the two inputs and the join conditions, whose columns are found by name. */
  datatype JoinSpec = JoinSpec(leftCols: seq<TabCol>, rightCols: seq<TabCol>, conds: seq<Cond>)

  // ----- an input -----

  /** A child executor that yields the given rows and can be started again. */
  class Cursor {
    const rows: seq<Row>
    var pos: nat

    constructor (rows: seq<Row>)
      ensures this.rows == rows && pos == 0
    {
      this.rows, pos := rows, 0;
    }

    predicate IsEnd()
      reads this
    {
      pos >= |rows|
    }

    method BeginTuple()
      modifies this
      ensures pos == 0
    {
      pos := 0;
    }

    method NextTuple()
      modifies this
      ensures pos == if old(IsEnd()) then old(pos) else old(pos) + 1
    {
      if pos < |rows| { pos := pos + 1; }
    }

    method Next() returns (row: Row)
      requires !IsEnd()
      ensures row == rows[pos]
    {
      row := rows[pos];
    }
  }

  // ----- the join conditions on one pair of rows -----

  function FindCol(cols: seq<TabCol>, c: TabCol, i: nat): (r: nat)
    requires i <= |cols|
    ensures i <= r <= |cols| && (r < |cols| ==> cols[r] == c) && forall j | i <= j < r :: cols[j] != c
    decreases |cols| - i
  {
    if i == |cols| || cols[i] == c then i else FindCol(cols, c, i + 1)
  }

  /** The value of a column: from the left row if it has that column, else from the right row, else none. */
  function Lookup(spec: JoinSpec, l: Row, r: Row, c: TabCol): Option<int>
    requires |l| == |spec.leftCols| && |r| == |spec.rightCols|
  {
    var i, j := FindCol(spec.leftCols, c, 0), FindCol(spec.rightCols, c, 0);
    if i < |l| then Some(l[i]) else if j < |r| then Some(r[j]) else None
  }

  /** A condition whose columns are not both there is passed over. A nested-loop join looks for a literal's column, of
      which there is none. */
  predicate PairHolds(spec: JoinSpec, l: Row, r: Row, cond: Cond)
    requires |l| == |spec.leftCols| && |r| == |spec.rightCols|
  {
    cond.rhs.ColRef? ==>
      var a, b := Lookup(spec, l, r, cond.lhs), Lookup(spec, l, r, cond.rhs.col);
      a.Some? && b.Some? ==> Compares(a.value, cond.op, b.value)
  }

  predicate Matches(spec: JoinSpec, l: Row, r: Row)
    requires |l| == |spec.leftCols| && |r| == |spec.rightCols|
  {
    forall k | 0 <= k < |spec.conds| :: PairHolds(spec, l, r, spec.conds[k])
  }

  /** satisfyConditions of the nested-loop join. */
  method SatisfyConditions(spec: JoinSpec, l: Row, r: Row) returns (b: bool)
    requires |l| == |spec.leftCols| && |r| == |spec.rightCols|
    ensures b <==> Matches(spec, l, r)
  {
    for k := 0 to |spec.conds|
      invariant forall i | 0 <= i < k :: PairHolds(spec, l, r, spec.conds[i])
    {
      var cond := spec.conds[k];
      if cond.rhs.Value? { continue; }
      var x, y := Lookup(spec, l, r, cond.lhs), Lookup(spec, l, r, cond.rhs.col);
      if x.None? || y.None? { continue; }
      if !Compares(x.value, cond.op, y.value) { return false; }
    }
    b := true;
  }

  predicate RowsFit(rows: seq<Row>, width: nat) {
    forall i | 0 <= i < |rows| :: |rows[i]| == width
  }

  predicate Inputs(spec: JoinSpec, ls: seq<Row>, rs: seq<Row>) {
    RowsFit(ls, |spec.leftCols|) && RowsFit(rs, |spec.rightCols|)
  }

  // ----- nested-loop join -----

  /** The joined rows from the pair (i, j) on, the right input running faster. */
  function JoinFrom(spec: JoinSpec, ls: seq<Row>, i: nat, rs: seq<Row>, j: nat): (rows: seq<Row>)
    requires Inputs(spec, ls, rs) && i <= |ls| && j <= |rs|
    decreases |ls| - i, |rs| - j
  {
    if i == |ls| then []
    else if j == |rs| then JoinFrom(spec, ls, i + 1, rs, 0)
    else if Matches(spec, ls[i], rs[j]) then [ls[i] + rs[j]] + JoinFrom(spec, ls, i, rs, j + 1)
    else JoinFrom(spec, ls, i, rs, j + 1)
  }

  function Joined(spec: JoinSpec, ls: seq<Row>, rs: seq<Row>): seq<Row>
    requires Inputs(spec, ls, rs)
  {
    JoinFrom(spec, ls, 0, rs, 0)
  }

  /** Pair p comes before pair q in left-major order. */
  predicate Earlier(p: (nat, nat), q: (nat, nat)) {
    p.0 < q.0 || (p.0 == q.0 && p.1 < q.1)
  }

  /** Pair p is a matching one, not before (i, j), and row is what it joins to. */
  predicate IsMatch(spec: JoinSpec, ls: seq<Row>, i: nat, rs: seq<Row>, j: nat, p: (nat, nat), row: Row)
    requires Inputs(spec, ls, rs)
  {
    && p.0 < |ls| && p.1 < |rs| && !Earlier(p, (i, j))
    && Matches(spec, ls[p.0], rs[p.1]) && row == ls[p.0] + rs[p.1]
  }

  predicate Listed(at: seq<(nat, nat)>, a: nat, b: nat) {
    exists k :: 0 <= k < |at| && at[k] == (a, b)
  }

  predicate InOrder(at: seq<(nat, nat)>) {
    forall k, k' | 0 <= k < k' < |at| :: Earlier(at[k], at[k'])
  }

  /** The pairs at places at are the matching ones from (i, j) on, in order, and rows are what they join to. */
  ghost predicate Enumerates(spec: JoinSpec, ls: seq<Row>, i: nat, rs: seq<Row>, j: nat, at: seq<(nat, nat)>,
                             rows: seq<Row>)
    requires Inputs(spec, ls, rs)
  {
    && |at| == |rows| && InOrder(at)
    && (forall k {:trigger at[k]} | 0 <= k < |at| :: IsMatch(spec, ls, i, rs, j, at[k], rows[k]))
    && (forall a: nat, b: nat {:trigger Listed(at, a, b)} |
          a < |ls| && b < |rs| && !Earlier((a, b), (i, j)) && Matches(spec, ls[a], rs[b]) :: Listed(at, a, b))
  }

  /** Starting earlier makes no difference when no pair in between matches. */
  lemma StartEarlier(spec: JoinSpec, ls: seq<Row>, i: nat, rs: seq<Row>, j: nat, i': nat, j': nat,
                     at: seq<(nat, nat)>, rows: seq<Row>)
    requires Inputs(spec, ls, rs) && Enumerates(spec, ls, i', rs, j', at, rows) && Earlier((i, j), (i', j'))
    requires forall a: nat, b: nat | a < |ls| && b < |rs| && !Earlier((a, b), (i, j)) && Earlier((a, b), (i', j')) ::
      !Matches(spec, ls[a], rs[b])
    ensures Enumerates(spec, ls, i, rs, j, at, rows)
  {
    forall k | 0 <= k < |at| ensures IsMatch(spec, ls, i, rs, j, at[k], rows[k]) {
      assert IsMatch(spec, ls, i', rs, j', at[k], rows[k]);
    }
  }

  /** A matching pair goes in front of those behind it. */
  lemma PutFirst(spec: JoinSpec, ls: seq<Row>, i: nat, rs: seq<Row>, j: nat, rest: seq<(nat, nat)>, rows: seq<Row>)
    requires Inputs(spec, ls, rs) && i < |ls| && j < |rs| && Matches(spec, ls[i], rs[j])
    requires Enumerates(spec, ls, i, rs, j + 1, rest, rows)
    ensures Enumerates(spec, ls, i, rs, j, [(i, j)] + rest, [ls[i] + rs[j]] + rows)
  {
    var at, rows' := [(i, j)] + rest, [ls[i] + rs[j]] + rows;
    forall k | 0 <= k < |at| ensures IsMatch(spec, ls, i, rs, j, at[k], rows'[k]) {
      if k > 0 { assert at[k] == rest[k - 1]; }
    }
    forall a: nat, b: nat | a < |ls| && b < |rs| && !Earlier((a, b), (i, j)) && Matches(spec, ls[a], rs[b])
      ensures Listed(at, a, b)
    {
      ListedMore((i, j), rest, a, b);
      if (a, b) != (i, j) { assert Listed(rest, a, b); }
    }
    FirstInOrder(spec, ls, i, rs, j, rest, rows);
  }

  lemma FirstInOrder(spec: JoinSpec, ls: seq<Row>, i: nat, rs: seq<Row>, j: nat, rest: seq<(nat, nat)>, rows: seq<Row>)
    requires Inputs(spec, ls, rs) && Enumerates(spec, ls, i, rs, j + 1, rest, rows)
    ensures InOrder([(i, j)] + rest)
  {
    var at := [(i, j)] + rest;
    forall k, k' | 0 <= k < k' < |at| ensures Earlier(at[k], at[k']) {
      assert IsMatch(spec, ls, i, rs, j + 1, rest[k' - 1], rows[k' - 1]);
      if k > 0 { assert Earlier(rest[k - 1], rest[k' - 1]); }
    }
  }

  lemma ListedMore(p: (nat, nat), rest: seq<(nat, nat)>, a: nat, b: nat)
    ensures Listed([p] + rest, a, b) <==> p == (a, b) || Listed(rest, a, b)
  {
    var at := [p] + rest;
    if p == (a, b) { assert at[0] == (a, b); }
    if k :| 0 <= k < |rest| && rest[k] == (a, b) { assert at[k + 1] == (a, b); }
    if k :| 0 <= k < |at| && at[k] == (a, b) { assert k > 0 ==> rest[k - 1] == (a, b); }
  }

  /** The join has every matching pair of rows exactly once, in left-major order, and nothing else. */
  lemma {:induction false} JoinIsExact(spec: JoinSpec, ls: seq<Row>, i: nat, rs: seq<Row>, j: nat)
    returns (at: seq<(nat, nat)>)
    requires Inputs(spec, ls, rs) && i <= |ls| && j <= |rs|
    ensures Enumerates(spec, ls, i, rs, j, at, JoinFrom(spec, ls, i, rs, j))
    decreases |ls| - i, |rs| - j
  {
    if i == |ls| {
      at := [];
    } else if j == |rs| {
      at := JoinIsExact(spec, ls, i + 1, rs, 0);
      StartEarlier(spec, ls, i, rs, j, i + 1, 0, at, JoinFrom(spec, ls, i + 1, rs, 0));
    } else {
      at := JoinIsExact(spec, ls, i, rs, j + 1);
      if Matches(spec, ls[i], rs[j]) {
        PutFirst(spec, ls, i, rs, j, at, JoinFrom(spec, ls, i, rs, j + 1));
        at := [(i, j)] + at;
      } else {
        StartEarlier(spec, ls, i, rs, j, i, j + 1, at, JoinFrom(spec, ls, i, rs, j + 1));
      }
    }
  }

  class NestedLoopJoinExecutor {
    const left: Cursor
    const right: Cursor
    const spec: JoinSpec
    var isEnd: bool
    var leftTuple: Row
    var nextTuple: Option<Row>

    constructor (left: Cursor, right: Cursor, spec: JoinSpec)
      requires left != right && Inputs(spec, left.rows, right.rows)
      ensures this.left == left && this.right == right && this.spec == spec && !isEnd && Valid()
    {
      this.left, this.right, this.spec := left, right, spec;
      isEnd, nextTuple, leftTuple := false, None, [];
    }

    ghost predicate Valid() {
      left != right && Inputs(spec, left.rows, right.rows)
    }

    /** leftTuple is the left row the join is at. */
    ghost predicate Open()
      reads this, left, right
    {
      Valid() && left.pos < |left.rows| && leftTuple == left.rows[left.pos] && right.pos <= |right.rows|
    }

    /** The rows behind the one that has been prepared. */
    ghost function Ahead(): seq<Row>
      requires Open()
      reads this, left, right
    {
      JoinFrom(spec, left.rows, left.pos, right.rows, right.pos)
    }

    /** The inner loop of nextTuple: along the right input up to the next match. */
    method ScanRight() returns (found: bool)
      requires Open()
      modifies right, this`nextTuple
      ensures Open()
      ensures found ==> old(Ahead()) != [] && nextTuple == Some(old(Ahead())[0]) && Ahead() == old(Ahead())[1..]
      ensures !found ==> right.pos == |right.rows| && Ahead() == old(Ahead())
    {
      while !right.IsEnd()
        invariant Open() && Ahead() == old(Ahead())
        decreases |right.rows| - right.pos
      {
        var rightTuple := right.Next();
        right.NextTuple();
        var b := SatisfyConditions(spec, leftTuple, rightTuple);
        if b {
          nextTuple := Some(leftTuple + rightTuple);
          return true;
        }
      }
      found := false;
    }

    /** nextTuple: prepare the next joined row, or reach the end. */
    method NextTuple()
      requires Open()
      modifies this, left, right
      ensures Valid() && (isEnd <==> old(isEnd) || old(Ahead()) == [])
      ensures old(Ahead()) != [] ==> Open() && nextTuple == Some(old(Ahead())[0]) && Ahead() == old(Ahead())[1..]
    {
      while true
        invariant Open() && Ahead() == old(Ahead()) && isEnd == old(isEnd)
        decreases |left.rows| - left.pos
      {
        var found := ScanRight();
        if found { return; }
        ghost var ahead := Ahead();
        left.NextTuple();
        assert ahead == JoinFrom(spec, left.rows, left.pos, right.rows, 0);
        if left.IsEnd() {
          isEnd := true;
          return;
        }
        leftTuple := left.Next();
        right.BeginTuple();
      }
    }

    /** beginTuple. It does not take back an end reached before. */
    method BeginTuple()
      requires Valid()
      modifies this, left, right
      ensures Valid() && (isEnd <==> old(isEnd) || Joined(spec, left.rows, right.rows) == [])
      ensures Joined(spec, left.rows, right.rows) != [] ==>
        && Open() && nextTuple == Some(Joined(spec, left.rows, right.rows)[0])
        && Ahead() == Joined(spec, left.rows, right.rows)[1..]
    {
      left.BeginTuple();
      if left.IsEnd() {
        isEnd := true;
        return;
      }
      leftTuple := left.Next();
      right.BeginTuple();
      NextTuple();
    }

    /** Next hands out the prepared row; a second call gets nothing. */
    method Next() returns (row: Option<Row>)
      modifies this`nextTuple
      ensures row == old(nextTuple) && nextTuple == None
    {
      row := nextTuple;
      nextTuple := None;
    }

    /** A run: beginTuple, then Next and nextTuple until is_end. The first run yields the join; a run after one that
        reached the end yields nothing. */
    method Run() returns (rows: seq<Row>)
      requires Valid()
      modifies this, left, right
      ensures Valid() && isEnd
      ensures rows == if old(isEnd) then [] else Joined(spec, left.rows, right.rows)
    {
      rows := [];
      BeginTuple();
      while !isEnd
        invariant Valid() && (old(isEnd) ==> isEnd && rows == [])
        invariant !isEnd ==> Open() && nextTuple.Some?
        invariant !isEnd ==> rows + [nextTuple.value] + Ahead() == Joined(spec, left.rows, right.rows)
        invariant isEnd && !old(isEnd) ==> rows == Joined(spec, left.rows, right.rows)
        decreases !isEnd, if isEnd then 0 else |Ahead()|
      {
        var row := Next();
        ghost var ahead := Ahead();
        rows := rows + [row.value];
        NextTuple();
        if ahead != [] { Regroup(rows, ahead[..1], ahead[1..]); }
      }
    }
  }
}
