// Undo logs: how an update records the version it replaces, and how older versions are put together again.
module UndoLogs {
  import opened KeyOrder
  import opened IxDefs

  /** A record without its header: one value per column. */
  type Record = seq<Val>

  /** For each column, whether the log has its old value, and that value. */
  datatype UndoLog = UndoLog(isDeleted: bool, modified: seq<bool>, tuple: seq<Val>)

  predicate LogFits(log: UndoLog, width: nat) {
    |log.modified| <= width && |log.modified| <= |log.tuple|
  }

  predicate LogsFit(logs: seq<UndoLog>, width: nat) {
    forall i | 0 <= i < |logs| :: LogFits(logs[i], width)
  }

  /** What applying the first n logs makes of column c of a record. */
  function ColumnAfter(base: Record, logs: seq<UndoLog>, n: nat, c: nat): Val
    requires n <= |logs| && c < |base| && LogsFit(logs, |base|)
  {
    if n == 0 then base[c]
    else if c < |logs[n - 1].modified| && logs[n - 1].modified[c] then logs[n - 1].tuple[c]
    else ColumnAfter(base, logs, n - 1, c)
  }

  /** The inner loop of ReconstructTuple: one log applied to the record under construction. */
  method ApplyLog(newTuple: array<Val>, log: UndoLog)
    requires LogFits(log, newTuple.Length)
    modifies newTuple
    ensures forall c | 0 <= c < newTuple.Length ::
      newTuple[c] == if c < |log.modified| && log.modified[c] then log.tuple[c] else old(newTuple[c])
  {
    for i := 0 to |log.modified|
      invariant forall c | 0 <= c < newTuple.Length ::
        newTuple[c] == if c < i && log.modified[c] then log.tuple[c] else old(newTuple[c])
    {
      if log.modified[i] { newTuple[i] := log.tuple[i]; }
    }
  }

  /** ReconstructTuple: the base record with the logs applied one after the other, the newest first. */
  method ReconstructTuple(base: Record, baseDeleted: bool, logs: seq<UndoLog>) returns (r: Option<Record>)
    requires LogsFit(logs, |base|)
    ensures r.Some? <==> !baseDeleted && forall i | 0 <= i < |logs| :: !logs[i].isDeleted
    ensures r.Some? ==>
      |r.value| == |base| && forall c | 0 <= c < |base| :: r.value[c] == ColumnAfter(base, logs, |logs|, c)
  {
    if baseDeleted { return None; }
    var newTuple := new Val[|base|];
    for c := 0 to |base|
      invariant newTuple[..c] == base[..c]
    {
      newTuple[c] := base[c];
    }
    if logs == [] { return Some(newTuple[..]); }
    for n := 0 to |logs|
      invariant forall i | 0 <= i < n :: !logs[i].isDeleted
      invariant forall c | 0 <= c < |base| :: newTuple[c] == ColumnAfter(base, logs, n, c)
    {
      if logs[n].isDeleted { return None; }
      ApplyLog(newTuple, logs[n]);
    }
    r := Some(newTuple[..]);
  }

  // ----- versions -----

  /** The log leads from a version back to the one before it: it has every value that changed, and maybe others. */
  predicate Undoes(log: UndoLog, newer: Record, older: Record) {
    && !log.isDeleted && |newer| == |older| && LogFits(log, |newer|)
    && forall c | 0 <= c < |newer| ::
         if c < |log.modified| && log.modified[c] then log.tuple[c] == older[c] else newer[c] == older[c]
  }

  /** The versions of a record, the current one first, and the logs between them. */
  predicate Chain(versions: seq<Record>, logs: seq<UndoLog>) {
    |versions| == |logs| + 1 && forall i | 0 <= i < |logs| :: Undoes(logs[i], versions[i], versions[i + 1])
  }

  lemma {:induction false} ChainWidth(versions: seq<Record>, logs: seq<UndoLog>, k: nat)
    requires Chain(versions, logs) && k <= |logs|
    ensures |versions[k]| == |versions[0]| && LogsFit(logs[..k], |versions[0]|)
  {
    if k > 0 {
      ChainWidth(versions, logs, k - 1);
      assert Undoes(logs[k - 1], versions[k - 1], versions[k]);
      forall i | 0 <= i < k ensures LogFits(logs[..k][i], |versions[0]|) {
        if i < k - 1 { assert logs[..k][i] == logs[..k - 1][i]; }
      }
    }
  }

  lemma {:induction false} ColumnOfVersion(versions: seq<Record>, logs: seq<UndoLog>, k: nat, c: nat)
    requires Chain(versions, logs) && k <= |logs| && c < |versions[0]| && LogsFit(logs, |versions[0]|)
    ensures |versions[k]| == |versions[0]| && ColumnAfter(versions[0], logs, k, c) == versions[k][c]
  {
    if k > 0 {
      ColumnOfVersion(versions, logs, k - 1, c);
      assert Undoes(logs[k - 1], versions[k - 1], versions[k]);
    }
  }

  /** A record that transactions update in place, with its chain of logs. */
  class VersionedTuple {
    var current: Record
    var logs: seq<UndoLog>            // the newest first
    ghost var versions: seq<Record>

    ghost predicate Valid()
      reads this
    {
      Chain(versions, logs) && versions[0] == current
    }

    constructor (record: Record)
      ensures Valid() && versions == [record]
    {
      current, logs, versions := record, [], [record];
    }

    /** UpdateExecutor::Next on one record: a log of all columns, then the values of the SET clauses, in their order. */
    method Update(sets: seq<(nat, Val)>)
      requires Valid() && forall i | 0 <= i < |sets| :: sets[i].0 < |current|
      modifies this
      ensures Valid() && versions == [current] + old(versions)
      ensures |current| == |old(current)|
      ensures forall j | 0 <= j < |sets| && (forall k | j < k < |sets| :: sets[k].0 != sets[j].0) ::
        current[sets[j].0] == sets[j].1
      ensures forall c | 0 <= c < |current| && (forall k | 0 <= k < |sets| :: sets[k].0 != c) ::
        current[c] == old(current)[c]
      ensures forall c | 0 <= c < |current| :: current[c] == SetTo(old(current), sets, |sets|, c)
    {
      var log := LogAll(current);
      var newRecord := current;
      for i := 0 to |sets|
        invariant |newRecord| == |current|
        invariant forall c | 0 <= c < |current| :: newRecord[c] == SetTo(current, sets, i, c)
      {
        newRecord := newRecord[sets[i].0 := sets[i].1];
      }
      LastClauses(current, sets, newRecord);
      AddVersion(newRecord, log);
    }

    /** Any update whose log has the values it changed. */
    method AddVersion(newRecord: Record, log: UndoLog)
      requires Valid() && Undoes(log, newRecord, current)
      modifies this
      ensures Valid() && current == newRecord && versions == [newRecord] + old(versions) && logs == [log] + old(logs)
    {
      ghost var before := logs;
      current, logs := newRecord, [log] + logs;
      versions := [newRecord] + versions;
      forall i | 0 <= i < |logs| ensures Undoes(logs[i], versions[i], versions[i + 1]) {
        if i > 0 { assert Undoes(before[i - 1], old(versions)[i - 1], old(versions)[i]); }
      }
    }

    /** Going back over the k newest logs gives the version before the oldest of them, whatever updates were made. */
    method ReadVersion(k: nat) returns (r: Option<Record>)
      requires Valid() && k <= |logs|
      ensures r == Some(versions[k])
    {
      ChainWidth(versions, logs, k);
      forall i | 0 <= i < k ensures !logs[..k][i].isDeleted { assert Undoes(logs[i], versions[i], versions[i + 1]); }
      r := ReconstructTuple(current, false, logs[..k]);
      PrefixChain(versions, logs, k);
      forall c | 0 <= c < |current| ensures r.value[c] == versions[k][c] {
        ColumnOfVersion(versions[..k + 1], logs[..k], k, c);
      }
      assert r.value == versions[k];
    }
  }

  lemma PrefixChain(versions: seq<Record>, logs: seq<UndoLog>, k: nat)
    requires Chain(versions, logs) && k <= |logs|
    ensures Chain(versions[..k + 1], logs[..k])
  {
    forall i | 0 <= i < k ensures Undoes(logs[..k][i], versions[..k + 1][i], versions[..k + 1][i + 1]) {
      assert Undoes(logs[i], versions[i], versions[i + 1]);
    }
  }

  /** The value of column c after the first n SET clauses: the last one for that column counts. */
  function SetTo(record: Record, sets: seq<(nat, Val)>, n: nat, c: nat): Val
    requires n <= |sets| && c < |record|
  {
    if n == 0 then record[c] else if sets[n - 1].0 == c then sets[n - 1].1 else SetTo(record, sets, n - 1, c)
  }

  /** Column c gets the value of the last of the first n clauses for it, and stays as it is without one. */
  predicate SetSays(record: Record, sets: seq<(nat, Val)>, n: nat, c: nat)
    requires n <= |sets| && c < |record|
  {
    && (forall j | 0 <= j < n && sets[j].0 == c && (forall k | j < k < n :: sets[k].0 != c) ::
         SetTo(record, sets, n, c) == sets[j].1)
    && ((forall k | 0 <= k < n :: sets[k].0 != c) ==> SetTo(record, sets, n, c) == record[c])
  }

  lemma {:induction false} SetToLast(record: Record, sets: seq<(nat, Val)>, n: nat, c: nat)
    requires n <= |sets| && c < |record|
    ensures SetSays(record, sets, n, c)
  {
    if n > 0 {
      SetToLast(record, sets, n - 1, c);
      forall j | 0 <= j < n && sets[j].0 == c && (forall k | j < k < n :: sets[k].0 != c)
        ensures SetTo(record, sets, n, c) == sets[j].1
      {
        if j < n - 1 { assert sets[n - 1].0 != c; }
      }
    }
  }

  lemma LastClauses(record: Record, sets: seq<(nat, Val)>, newRecord: Record)
    requires |newRecord| == |record| && forall i | 0 <= i < |sets| :: sets[i].0 < |record|
    requires forall c | 0 <= c < |record| :: newRecord[c] == SetTo(record, sets, |sets|, c)
    ensures forall j | 0 <= j < |sets| && (forall k | j < k < |sets| :: sets[k].0 != sets[j].0) ::
      newRecord[sets[j].0] == sets[j].1
    ensures forall c | 0 <= c < |record| && (forall k | 0 <= k < |sets| :: sets[k].0 != c) :: newRecord[c] == record[c]
  {
    forall j | 0 <= j < |sets| && (forall k | j < k < |sets| :: sets[k].0 != sets[j].0)
      ensures newRecord[sets[j].0] == sets[j].1
    {
      SetToLast(record, sets, |sets|, sets[j].0);
    }
    forall c | 0 <= c < |record| && (forall k | 0 <= k < |sets| :: sets[k].0 != c)
      ensures newRecord[c] == record[c]
    {
      SetToLast(record, sets, |sets|, c);
    }
  }

  /** The undo log an update makes: the old value of every column. */
  method LogAll(record: Record) returns (log: UndoLog)
    ensures forall newer: Record | |newer| == |record| :: Undoes(log, newer, record)
  {
    var modified, tuple := [], [];
    for c := 0 to |record|
      invariant |modified| == c && tuple == record[..c] && forall i | 0 <= i < c :: modified[i]
    {
      tuple := tuple + [record[c]];
      modified := modified + [true];
    }
    log := UndoLog(false, modified, tuple);
  }
}
