// The semi-join iterator.
module SemiJoin {
  import opened IxDefs
  import opened ScanDefs
  import opened PlanDefs
  import opened Joins

  /** Unlike the nested-loop join, this one does look at literals. */
  predicate SemiHolds(spec: JoinSpec, l: Row, r: Row, cond: Cond)
    requires |l| == |spec.leftCols| && |r| == |spec.rightCols|
  {
    var a := Lookup(spec, l, r, cond.lhs);
    match cond.rhs
    case Value(v) => a.Some? ==> Compares(a.value, cond.op, v)
    case ColRef(c) =>
      var b := Lookup(spec, l, r, c);
      a.Some? && b.Some? ==> Compares(a.value, cond.op, b.value)
  }

  predicate SemiMatches(spec: JoinSpec, l: Row, r: Row)
    requires |l| == |spec.leftCols| && |r| == |spec.rightCols|
  {
    forall k | 0 <= k < |spec.conds| :: SemiHolds(spec, l, r, spec.conds[k])
  }

  /** satisfyConditions of the semi-join. */
  method SatisfySemi(spec: JoinSpec, l: Row, r: Row) returns (b: bool)
    requires |l| == |spec.leftCols| && |r| == |spec.rightCols|
    ensures b <==> SemiMatches(spec, l, r)
  {
    for k := 0 to |spec.conds|
      invariant forall i | 0 <= i < k :: SemiHolds(spec, l, r, spec.conds[i])
    {
      var cond := spec.conds[k];
      var x := Lookup(spec, l, r, cond.lhs);
      if x.None? { continue; }
      if cond.rhs.Value? {
        if !Compares(x.value, cond.op, cond.rhs.value) { return false; }
      } else {
        var y := Lookup(spec, l, r, cond.rhs.col);
        if y.None? { continue; }
        if !Compares(x.value, cond.op, y.value) { return false; }
      }
    }
    b := true;
  }

  predicate HasMatch(spec: JoinSpec, l: Row, rs: seq<Row>)
    requires |l| == |spec.leftCols| && RowsFit(rs, |spec.rightCols|)
  {
    exists j | 0 <= j < |rs| :: SemiMatches(spec, l, rs[j])
  }

  /** The left rows from i on that have a match. */
  function SemiFrom(spec: JoinSpec, ls: seq<Row>, i: nat, rs: seq<Row>): (rows: seq<Row>)
    requires Inputs(spec, ls, rs) && i <= |ls|
    decreases |ls| - i
  {
    if i == |ls| then []
    else if HasMatch(spec, ls[i], rs) then [ls[i]] + SemiFrom(spec, ls, i + 1, rs)
    else SemiFrom(spec, ls, i + 1, rs)
  }

  predicate ListedRow(at: seq<nat>, i: nat) {
    exists k :: 0 <= k < |at| && at[k] == i
  }

  /** The output rows are the left rows at the listed places: from i on, rising, and exactly those with a match. */
  ghost predicate Lists(spec: JoinSpec, ls: seq<Row>, i: nat, rs: seq<Row>, at: seq<nat>, rows: seq<Row>)
    requires Inputs(spec, ls, rs)
  {
    && |at| == |rows|
    && (forall k | 0 <= k < |at| :: i <= at[k] < |ls| && HasMatch(spec, ls[at[k]], rs) && rows[k] == ls[at[k]])
    && (forall k, k' | 0 <= k < k' < |at| :: at[k] < at[k'])
    && (forall a: nat {:trigger ListedRow(at, a)} | i <= a < |ls| && HasMatch(spec, ls[a], rs) :: ListedRow(at, a))
  }

  /** One left row with a match in front. */
  lemma ListsTake(spec: JoinSpec, ls: seq<Row>, i: nat, rs: seq<Row>, at: seq<nat>, rows: seq<Row>)
    requires Inputs(spec, ls, rs) && i < |ls| && HasMatch(spec, ls[i], rs) && Lists(spec, ls, i + 1, rs, at, rows)
    ensures Lists(spec, ls, i, rs, [i] + at, [ls[i]] + rows)
  {
    var at' := [i] + at;
    forall a: nat | i <= a < |ls| && HasMatch(spec, ls[a], rs) ensures ListedRow(at', a) {
      if a == i {
        assert at'[0] == a;
      } else {
        assert ListedRow(at, a);
        var k :| 0 <= k < |at| && at[k] == a;
        assert at'[k + 1] == a;
      }
    }
  }

  lemma ListsSkip(spec: JoinSpec, ls: seq<Row>, i: nat, rs: seq<Row>, at: seq<nat>, rows: seq<Row>)
    requires Inputs(spec, ls, rs) && i < |ls| && !HasMatch(spec, ls[i], rs) && Lists(spec, ls, i + 1, rs, at, rows)
    ensures Lists(spec, ls, i, rs, at, rows)
  {
  }

  /** Every left row with at least one match comes once, in the order of the left input, and no other row does. */
  lemma {:induction false} SemiIsExact(spec: JoinSpec, ls: seq<Row>, i: nat, rs: seq<Row>) returns (at: seq<nat>)
    requires Inputs(spec, ls, rs) && i <= |ls|
    ensures Lists(spec, ls, i, rs, at, SemiFrom(spec, ls, i, rs))
    decreases |ls| - i
  {
    if i == |ls| {
      at := [];
    } else {
      var rest := SemiIsExact(spec, ls, i + 1, rs);
      var later := SemiFrom(spec, ls, i + 1, rs);
      if HasMatch(spec, ls[i], rs) {
        ListsTake(spec, ls, i, rs, rest, later);
        at := [i] + rest;
      } else {
        ListsSkip(spec, ls, i, rs, rest, later);
        at := rest;
      }
    }
  }

  class SemiJoinExecutor {
    const left: Cursor
    const right: Cursor
    const spec: JoinSpec
    var isEnd: bool
    var leftTuple: Row
    var nextTuple: Option<Row>

    constructor (left: Cursor, right: Cursor, spec: JoinSpec)
      requires left != right && Inputs(spec, left.rows, right.rows)
      ensures this.left == left && this.right == right && this.spec == spec && !isEnd && Valid()
    {
      this.left, this.right, this.spec := left, right, spec;
      isEnd, nextTuple, leftTuple := false, None, [];
    }

    ghost predicate Valid() {
      left != right && Inputs(spec, left.rows, right.rows)
    }

    /** leftTuple is the left row the semi-join is at. */
    ghost predicate Open()
      reads this, left
    {
      Valid() && left.pos < |left.rows| && leftTuple == left.rows[left.pos]
    }

    /** The rows from the current left row on that are still to come. */
    ghost function Ahead(): seq<Row>
      requires Open()
      reads this, left
    {
      SemiFrom(spec, left.rows, left.pos, right.rows)
    }

    /** The current row is prepared. */
    ghost predicate Prepared()
      reads this, left
    {
      Open() && HasMatch(spec, leftTuple, right.rows) && nextTuple == Some(leftTuple)
    }

    /** The loop over the right input. */
    method FindMatch() returns (found: bool)
      requires Open()
      modifies right
      ensures found <==> HasMatch(spec, leftTuple, right.rows)
    {
      right.BeginTuple();
      while !right.IsEnd()
        invariant right.pos <= |right.rows|
        invariant forall j | 0 <= j < right.pos :: !SemiMatches(spec, leftTuple, right.rows[j])
        decreases |right.rows| - right.pos
      {
        var rightTuple := right.Next();
        right.NextTuple();
        var b := SatisfySemi(spec, leftTuple, rightTuple);
        if b { return true; }
      }
      found := false;
    }

    /** nextTuple: go to the next left row with a match, the current one included. */
    method NextTuple()
      requires Valid() && (!isEnd ==> Open())
      modifies this, left, right
      ensures old(isEnd) ==> isEnd && nextTuple == old(nextTuple) && left.pos == old(left.pos)
      ensures !old(isEnd) ==> (isEnd <==> old(Ahead()) == [])
      ensures isEnd ==> nextTuple == old(nextTuple)
      ensures !isEnd ==> Prepared() && Ahead() == old(Ahead())
    {
      if isEnd { return; }
      while true
        invariant Open() && Ahead() == old(Ahead()) && !isEnd && nextTuple == old(nextTuple)
        decreases |left.rows| - left.pos
      {
        var found := FindMatch();
        if found {
          nextTuple := Some(leftTuple);
          return;
        }
        ghost var ahead := Ahead();
        left.NextTuple();
        assert ahead == SemiFrom(spec, left.rows, left.pos, right.rows);
        if left.IsEnd() {
          isEnd := true;
          return;
        }
        leftTuple := left.Next();
      }
    }

    /** beginTuple. It does not take back an end reached before. */
    method BeginTuple()
      requires Valid()
      modifies this, left, right
      ensures isEnd ==> nextTuple == old(nextTuple)
      ensures old(isEnd) ==> isEnd
      ensures !old(isEnd) ==> (isEnd <==> SemiFrom(spec, left.rows, 0, right.rows) == [])
      ensures !isEnd ==> Prepared() && Ahead() == SemiFrom(spec, left.rows, 0, right.rows)
    {
      left.BeginTuple();
      if left.IsEnd() {
        isEnd := true;
        return;
      }
      leftTuple := left.Next();
      NextTuple();
    }

    /** Moving the left input on behind the current row, which had a match. */
    method Advance()
      requires Open() && HasMatch(spec, leftTuple, right.rows) && !isEnd
      modifies this`isEnd, this`leftTuple, left
      ensures old(Ahead()) == [old(leftTuple)] + old(Ahead())[1..]
      ensures if isEnd then old(Ahead())[1..] == [] else Open() && Ahead() == old(Ahead())[1..]
    {
      ghost var ahead := Ahead();
      left.NextTuple();
      assert ahead[1..] == SemiFrom(spec, left.rows, left.pos, right.rows);
      if left.IsEnd() {
        isEnd := true;
      } else {
        leftTuple := left.Next();
      }
    }

    /** Next hands out the prepared row, preparing it first if need be, and moves the left input on. */
    method Next() returns (row: Option<Row>)
      requires Valid() && (!isEnd ==> Open() && (nextTuple.Some? ==> Prepared()))
      requires isEnd ==> nextTuple == None
      modifies this, left, right
      ensures nextTuple == None
      ensures old(isEnd) || old(Ahead()) == [] ==> row == None && isEnd
      ensures !old(isEnd) && old(Ahead()) != [] ==> row == Some(old(Ahead())[0])
      ensures !old(isEnd) && old(Ahead()) != [] ==>
        if isEnd then old(Ahead())[1..] == [] else Open() && Ahead() == old(Ahead())[1..]
    {
      if nextTuple.None? && !isEnd { NextTuple(); }
      row := nextTuple;
      nextTuple := None;
      if row.Some? { Advance(); }
    }

    /** One row and the preparation of the next. */
    method Step() returns (row: Row)
      requires Valid() && !isEnd && Prepared()
      modifies this, left, right
      ensures old(Ahead()) == [row] + old(Ahead())[1..] && nextTuple.None? == isEnd
      ensures isEnd <==> old(Ahead())[1..] == []
      ensures !isEnd ==> Prepared() && Ahead() == old(Ahead())[1..]
    {
      var next := Next();
      row := next.value;
      NextTuple();
    }

    /** Next and nextTuple until is_end. */
    method Drain() returns (rows: seq<Row>)
      requires Valid() && !isEnd && Prepared()
      modifies this, left, right
      ensures isEnd && rows == old(Ahead())
    {
      ghost var all := Ahead();
      rows := [];
      while !isEnd
        invariant !isEnd ==> Prepared()
        invariant !isEnd ==> rows + Ahead() == all
        invariant isEnd ==> rows == all
        decreases !isEnd, if isEnd then 0 else |Ahead()|
      {
        ghost var ahead := Ahead();
        var row := Step();
        Regroup(rows, ahead[..1], ahead[1..]);
        rows := rows + [row];
      }
    }

    /** A run: beginTuple, then Next and nextTuple until is_end. A run after one that reached the end yields nothing. */
    method Run() returns (rows: seq<Row>)
      requires Valid()
      modifies this, left, right
      ensures isEnd
      ensures rows == if old(isEnd) then [] else SemiFrom(spec, left.rows, 0, right.rows)
    {
      rows := [];
      BeginTuple();
      if !isEnd { rows := Drain(); }
    }
  }
}
