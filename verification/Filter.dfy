// The filter iterator.
module Filter {
  import opened IxDefs
  import opened ScanDefs
  import opened Joins

  predicate AllRowsFit(rows: seq<Row>, conds: seq<Condition>) {
    forall i | 0 <= i < |rows| :: AllFit(conds, |rows[i]|)
  }

  /** The rows from i on that satisfy the conditions. */
  function KeepFrom(rows: seq<Row>, i: nat, conds: seq<Condition>): (kept: seq<Row>)
    requires i <= |rows| && AllRowsFit(rows, conds)
    decreases |rows| - i
  {
    if i == |rows| then []
    else if Satisfies(rows[i], conds) then [rows[i]] + KeepFrom(rows, i + 1, conds)
    else KeepFrom(rows, i + 1, conds)
  }

  class FilterExecutor {
    const prev: Cursor
    const conds: seq<Condition>

    constructor (prev: Cursor, conds: seq<Condition>)
      requires AllRowsFit(prev.rows, conds)
      ensures this.prev == prev && this.conds == conds && Valid()
    {
      this.prev, this.conds := prev, conds;
    }

    ghost predicate Valid() {
      AllRowsFit(prev.rows, conds)
    }

    ghost function Ahead(): seq<Row>
      requires Valid() && prev.pos <= |prev.rows|
      reads prev
    {
      KeepFrom(prev.rows, prev.pos, conds)
    }

    predicate IsEnd()
      reads prev
    {
      prev.IsEnd()
    }

    /** beginTuple starts the input and does not look at its first row. */
    method BeginTuple()
      requires Valid()
      modifies prev
      ensures prev.pos == 0
    {
      prev.BeginTuple();
    }

    /** nextTuple: at least one row on, and on to one that passes. */
    method NextTuple()
      requires Valid() && prev.pos <= |prev.rows|
      modifies prev
      ensures prev.pos <= |prev.rows| && (!IsEnd() ==> Satisfies(prev.rows[prev.pos], conds))
      ensures if old(IsEnd()) then IsEnd() else old(prev.pos) < prev.pos
      ensures !old(IsEnd()) ==> Ahead() == KeepFrom(prev.rows, old(prev.pos) + 1, conds)
    {
      prev.NextTuple();
      while !prev.IsEnd()
        invariant prev.pos <= |prev.rows| && (if old(IsEnd()) then IsEnd() else old(prev.pos) < prev.pos)
        invariant !old(IsEnd()) ==> Ahead() == KeepFrom(prev.rows, old(prev.pos) + 1, conds)
        decreases |prev.rows| - prev.pos
      {
        var row := prev.Next();
        var b := EvalConds(row, conds);
        if b { return; }
        prev.NextTuple();
      }
    }

    /** Next makes up for what beginTuple left out: it gives the next row that passes, or null if there is none. */
    method Next() returns (row: Option<Row>)
      requires Valid() && !IsEnd()
      modifies prev
      ensures prev.pos <= |prev.rows|
      ensures row.None? <==> old(Ahead()) == []
      ensures row.Some? ==> !IsEnd() && Satisfies(prev.rows[prev.pos], conds)
      ensures row.Some? ==>
        row.value == old(Ahead())[0] && KeepFrom(prev.rows, prev.pos + 1, conds) == old(Ahead())[1..]
      ensures row.None? ==> IsEnd()
      ensures old(prev.pos) <= prev.pos
    {
      var record := prev.Next();
      var b := EvalConds(record, conds);
      if b { return Some(record); }
      NextTuple();
      if IsEnd() { return None; }
      record := prev.Next();
      row := Some(record);
    }

    /** A run, as a caller that skips nulls makes it: the rows that pass, in order. Next gives a null exactly when there
        are rows but none passes. */
    method Run() returns (rows: seq<Row>, nulls: nat)
      requires Valid()
      modifies prev
      ensures rows == KeepFrom(prev.rows, 0, conds)
      ensures nulls == if prev.rows != [] && KeepFrom(prev.rows, 0, conds) == [] then 1 else 0
    {
      ghost var all := KeepFrom(prev.rows, 0, conds);
      rows, nulls := [], 0;
      BeginTuple();
      while !IsEnd()
        invariant prev.pos <= |prev.rows| && rows + Ahead() == all
        invariant nulls == if IsEnd() && prev.rows != [] && all == [] then 1 else 0
        invariant prev.pos > 0 && !IsEnd() ==> Ahead() != []
        decreases |prev.rows| - prev.pos
      {
        ghost var ahead := Ahead();
        var row := Next();
        if row.Some? {
          assert ahead == [ahead[0]] + ahead[1..];
          rows := rows + [row.value];
        } else {
          nulls := nulls + 1;
        }
        NextTuple();
      }
    }
  }
}
