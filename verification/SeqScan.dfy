// The scan of all rows of a table.
module SeqScan {
  import opened IxDefs
  import opened ScanDefs

  /** The record exists and satisfies the conditions. */
  predicate Passes(r: Rid, table: map<Rid, Row>, conds: seq<Condition>)
    requires forall x | x in table :: AllFit(conds, |table[x]|)
  {
    r in table && Satisfies(table[r], conds)
  }

  /** Of the records with the given ids, those that satisfy the conditions, in order. */
  function Select(rids: seq<Rid>, table: map<Rid, Row>, conds: seq<Condition>): (s: seq<Rid>)
    requires forall x | x in table :: AllFit(conds, |table[x]|)
  {
    if rids == [] then [] else
      (if Passes(rids[0], table, conds) then [rids[0]] else []) + Select(rids[1..], table, conds)
  }

  /** get_record and eval_conds: whether the record with id r is one to yield. */
  method Check(r: Rid, table: map<Rid, Row>, conds: seq<Condition>) returns (b: bool)
    requires forall x | x in table :: AllFit(conds, |table[x]|)
    ensures b <==> Passes(r, table, conds)
  {
    if r !in table { return false; }
    b := EvalConds(table[r], conds);
  }

  class SeqScanExecutor {
    const table: map<Rid, Row>
    const records: seq<Rid>     // the record ids of the table, in the order the record scan visits them
    const conds: seq<Condition>
    var pos: nat                // scan_
    var rid: Rid

    constructor (table: map<Rid, Row>, records: seq<Rid>, conds: seq<Condition>)
      ensures this.table == table && this.records == records && this.conds == conds
    {
      this.table, this.records, this.conds := table, records, conds;
      pos := 0;
    }

    ghost predicate Ready()
    {
      forall x | x in table :: AllFit(conds, |table[x]|)
    }

    /** On a record to yield, or at the end. */
    ghost predicate Valid()
      reads this
    {
      Ready() && pos <= |records| && (pos < |records| ==> rid == records[pos] && Passes(rid, table, conds))
    }

    /** The record ids still to be yielded. */
    ghost function Pending(): seq<Rid>
      requires Ready() && pos <= |records|
      reads this
    {
      Select(records[pos..], table, conds)
    }

    predicate IsEnd()
      reads this
    {
      pos >= |records|
    }

    /** The loop of beginTuple and nextTuple. */
    method Skip()
      requires Ready() && pos <= |records|
      modifies this
      ensures Valid() && Pending() == old(Pending())
    {
      while pos < |records|
        invariant pos <= |records| && Pending() == old(Pending())
      {
        var current := records[pos];
        var b := Check(current, table, conds);
        if b {
          rid := current;
          return;
        }
        assert records[pos..][1..] == records[pos + 1..];
        pos := pos + 1;
      }
    }

    method BeginTuple()
      requires Ready()
      modifies this
      ensures Valid() && Pending() == Select(records, table, conds)
    {
      pos := 0;
      assert records[0..] == records;
      Skip();
    }

    method NextTuple()
      requires Valid() && !IsEnd()
      modifies this
      ensures Valid() && Pending() == old(Pending())[1..]
    {
      assert records[pos..][1..] == records[pos + 1..];
      pos := pos + 1;
      Skip();
    }

    /** All that a caller gets between beginTuple and is_end. */
    method Run() returns (rids: seq<Rid>)
      requires Ready()
      modifies this
      ensures rids == Select(records, table, conds)
    {
      rids := [];
      BeginTuple();
      while !IsEnd()
        invariant Valid() && rids + Pending() == Select(records, table, conds)
        decreases |Pending()|
      {
        assert Pending()[0] == rid;
        assert rids + Pending() == (rids + [rid]) + Pending()[1..];
        rids := rids + [rid];
        NextTuple();
      }
    }
  }
}
