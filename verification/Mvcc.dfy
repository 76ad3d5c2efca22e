// Transactions and the write-write conflict rule, as a state machine over their steps.
module Mvcc {
  import opened IxDefs

  type TxnId = nat

  const INVALID_TS := -1

  /** One entry of a transaction's write set: a record, and the stamp it had before the write. */
  datatype Write = Write(rid: Rid, before: int)

  datatype Phase = Active | Committed(ts: int) | Aborted

  datatype Txn = Txn(start: int, readOnly: bool, phase: Phase, writes: seq<Write>)

  /** The transaction manager and the stamps in the records' tuple headers. */
  datatype Db = Db(nextTs: int, lastCommit: int, txns: map<TxnId, Txn>, stamps: map<Rid, int>)

  // ----- the two guards -----

  /** IsWriteWriteConflict: may transaction id not write a record with stamp ts? */
  predicate IsWriteWriteConflict(db: Db, ts: int, id: TxnId)
    requires id in db.txns
  {
    if ts == INVALID_TS || ts == 0 then false
    else if ts == db.txns[id].start then false
    else if exists a | a in db.txns :: db.txns[a].phase.Active? && db.txns[a].start == ts then true
    else ts > db.txns[id].start
  }

  /** get_transaction_by_timestamp finds some transaction with that start stamp, if there is one. */
  predicate FoundByTs(db: Db, ts: int, owner: Option<TxnId>) {
    match owner
    case Some(o) => o in db.txns && db.txns[o].start == ts
    case None => forall o | o in db.txns :: db.txns[o].start != ts
  }

  /** aborted_txns_ */
  predicate AbortedTs(db: Db, ts: int) {
    exists a | a in db.txns :: db.txns[a].phase.Aborted? && db.txns[a].start == ts
  }

  /** RmFileHandle::CheckWriteWriteConflict, the guard of the update executor. A transaction that was not found counts
      as committed or not by the watermark; both cases compare the stamps alike. */
  predicate CheckWriteWriteConflict(db: Db, ts: int, id: TxnId, owner: Option<TxnId>)
    requires id in db.txns && FoundByTs(db, ts, owner)
  {
    var start := db.txns[id].start;
    if ts <= 0 || ts > db.nextTs + 1000 || ts == start then false
    else if db.txns[id].phase.Aborted? then true
    else match owner
      case None => ts > start
      case Some(o) =>
        if db.txns[o].phase.Active? then true
        else if db.txns[o].phase.Aborted? then false
        else if AbortedTs(db, ts) then ts > start
        else db.txns[o].phase.ts > start
  }

  // ----- the steps -----

  datatype Step =
    | Begin(id: TxnId)
    | BeginReadOnlySnapshot(id: TxnId)
    | WriteRecord(id: TxnId, rid: Rid, owner: Option<TxnId>)
    | Commit(id: TxnId)
    | Abort(id: TxnId)

  /** A write happens when the guard lets it; otherwise the executor throws, and the next step is the abort. */
  predicate Enabled(db: Db, step: Step) {
    match step
    case Begin(id) => id !in db.txns
    case BeginReadOnlySnapshot(id) => id !in db.txns
    case WriteRecord(id, rid, owner) =>
      && id in db.txns && db.txns[id].phase.Active? && !db.txns[id].readOnly && rid in db.stamps
      && FoundByTs(db, db.stamps[rid], owner) && !CheckWriteWriteConflict(db, db.stamps[rid], id, owner)
    case Commit(id) => id in db.txns && db.txns[id].phase.Active?
    case Abort(id) => id in db.txns && db.txns[id].phase.Active?
  }

  function Apply(db: Db, step: Step): Db
    requires Enabled(db, step)
  {
    match step
    case Begin(id) =>
      db.(txns := db.txns[id := Txn(db.nextTs, false, Active, [])], nextTs := db.nextTs + 1)
    case BeginReadOnlySnapshot(id) =>
      if db.lastCommit > 0 then db.(txns := db.txns[id := Txn(db.lastCommit, true, Active, [])])
      else db.(txns := db.txns[id := Txn(db.nextTs, true, Active, [])], nextTs := db.nextTs + 1)
    case WriteRecord(id, rid, _) =>
      var t := db.txns[id];
      db.(txns := db.txns[id := t.(writes := t.writes + [Write(rid, db.stamps[rid])])],
          stamps := db.stamps[rid := t.start])
    case Commit(id) =>
      var t := db.txns[id];
      db.(txns := db.txns[id := t.(phase := Committed(db.nextTs))], lastCommit := db.nextTs, nextTs := db.nextTs + 1,
          stamps := Restamped(db.stamps, t, db.nextTs))
    case Abort(id) =>
      var t := db.txns[id];
      db.(txns := db.txns[id := t.(phase := Aborted, writes := [])], stamps := Undone(db.stamps, t.writes))
  }

  predicate Wrote(t: Txn, rid: Rid) {
    exists i :: 0 <= i < |t.writes| && t.writes[i].rid == rid
  }

  /** UpdateCommitTimestamp on the records of the write set that still carry the start stamp. */
  function Restamped(stamps: map<Rid, int>, t: Txn, ts: int): map<Rid, int> {
    map r | r in stamps :: if Wrote(t, r) && stamps[r] == t.start && ts > t.start then ts else stamps[r]
  }

  /** The abort loop: the write set is taken off from the back, each record getting its old contents. */
  function Undone(stamps: map<Rid, int>, writes: seq<Write>): map<Rid, int>
    decreases |writes|
  {
    if writes == [] then stamps
    else
      var w := writes[|writes| - 1];
      Undone(if w.rid in stamps then stamps[w.rid := w.before] else stamps, writes[..|writes| - 1])
  }

  /** The guard asked the wrong transaction: a read-only snapshot that borrowed the stamp of the record, and was
      aborted. */
  predicate AskedAbortedSnapshot(db: Db, step: Step) {
    step.WriteRecord? && step.owner.Some? && step.owner.value in db.txns
    && db.txns[step.owner.value].readOnly && db.txns[step.owner.value].phase.Aborted?
  }

  /** And the stamp it was asked about is from after the writer began: the write should have been refused. */
  predicate Misled(db: Db, step: Step) {
    && AskedAbortedSnapshot(db, step) && step.id in db.txns && step.rid in db.stamps
    && db.stamps[step.rid] > db.txns[step.id].start
  }

  // ----- what every step keeps -----

  /** The stamp a record had before the transaction first wrote it. */
  function Base(writes: seq<Write>, rid: Rid, i: nat): int
    requires i <= |writes|
    decreases |writes| - i
  {
    if i == |writes| then 0 else if writes[i].rid == rid then writes[i].before else Base(writes, rid, i + 1)
  }

  /** A transaction's stamps: issued by the counter, the start before the commit. */
  ghost predicate TxnOk(db: Db, first: int, id: TxnId)
    requires id in db.txns
  {
    var t := db.txns[id];
    && 0 < t.start < db.nextTs
    && (!t.readOnly ==> first <= t.start)
    && (t.phase.Committed? ==> t.start < t.phase.ts < db.nextTs)
    && (t.readOnly ==> t.writes == [])
    && forall i | 0 <= i < |t.writes| :: t.writes[i].rid in db.stamps
  }

  /** The start stamp of a writer is nobody else's stamp. */
  ghost predicate Apart(db: Db, a: TxnId, b: TxnId)
    requires a in db.txns && b in db.txns
  {
    a != b && !db.txns[a].readOnly ==>
      && db.txns[a].start != db.txns[b].start
      && (db.txns[b].phase.Committed? ==> db.txns[a].start != db.txns[b].phase.ts)
  }

  /** A stamp that is not the start of any writer. */
  ghost predicate Settled(db: Db, ts: int) {
    forall a | a in db.txns && !db.txns[a].readOnly :: db.txns[a].start != ts
  }

  /** Stamp ts accounts for everything committed on the record: no later commit wrote it, and it is itself from before
      the first transaction, or the commit stamp of a transaction that wrote it. */
  ghost predicate Latest(db: Db, first: int, rid: Rid, ts: int) {
    && 0 <= ts < db.nextTs
    && Settled(db, ts)
    && (forall b {:trigger Wrote(db.txns[b], rid)} |
          b in db.txns && db.txns[b].phase.Committed? && Wrote(db.txns[b], rid) :: db.txns[b].phase.ts <= ts)
    && (ts >= first ==> exists b :: b in db.txns && db.txns[b].phase == Committed(ts) && Wrote(db.txns[b], rid))
  }

  ghost predicate Owned(db: Db, rid: Rid, a: TxnId) {
    a in db.txns && db.txns[a].phase.Active? && Wrote(db.txns[a], rid)
  }

  /** A record: either one active transaction has it, and goes back to the last committed stamp if it aborts; or nobody
      has it. */
  ghost predicate RecordOk(db: Db, first: int, rid: Rid)
    requires rid in db.stamps
  {
    && (forall a {:trigger Owned(db, rid, a)} | Owned(db, rid, a) ::
          && db.stamps[rid] == db.txns[a].start
          && Latest(db, first, rid, Base(db.txns[a].writes, rid, 0)))
    && ((forall a :: !Owned(db, rid, a)) ==> Latest(db, first, rid, db.stamps[rid]))
  }

  /** Two transactions that committed a write to the same record did not overlap. */
  ghost predicate NoOverlap(db: Db, a: TxnId, b: TxnId, rid: Rid)
    requires a in db.txns && b in db.txns
  {
    var t, u := db.txns[a], db.txns[b];
    a != b && t.phase.Committed? && u.phase.Committed? && Wrote(t, rid) && Wrote(u, rid) ==>
      t.phase.ts < u.start || u.phase.ts < t.start
  }

  /** Transaction id wrote the record although somebody had committed a write to it since id began. */
  ghost predicate WroteLate(db: Db, id: TxnId, rid: Rid)
    requires id in db.txns
  {
    Wrote(db.txns[id], rid) && Base(db.txns[id].writes, rid, 0) >= db.txns[id].start
  }

  /** Of two transactions that committed a write to the same record one committed first; and the other one began after
      that, unless it wrote late. */
  ghost predicate InTurn(db: Db, a: TxnId, b: TxnId, rid: Rid)
    requires a in db.txns && b in db.txns
  {
    var t, u := db.txns[a], db.txns[b];
    a != b && t.phase.Committed? && u.phase.Committed? && Wrote(t, rid) && Wrote(u, rid) ==>
      t.phase.ts != u.phase.ts && (t.phase.ts < u.phase.ts && !WroteLate(db, b, rid) ==> t.phase.ts < u.start)
  }

  /** If a committed transaction wrote late, then somebody committed a write to the record while it was running. */
  ghost predicate LateFollows(db: Db, id: TxnId, rid: Rid)
    requires id in db.txns
  {
    db.txns[id].phase.Committed? && WroteLate(db, id, rid) ==>
      exists a :: a in db.txns && a != id && db.txns[a].phase.Committed? && Wrote(db.txns[a], rid)
        && db.txns[id].start < db.txns[a].phase.ts < db.txns[id].phase.ts
  }

  ghost predicate Inv(db: Db, first: int) {
    && 0 < first <= db.nextTs && 0 <= db.lastCommit < db.nextTs
    && (db.lastCommit > 0 ==> Settled(db, db.lastCommit))
    && (forall id {:trigger TxnOk(db, first, id)} | id in db.txns :: TxnOk(db, first, id))
    && (forall a, b {:trigger Apart(db, a, b)} | a in db.txns && b in db.txns :: Apart(db, a, b))
    && (forall r {:trigger RecordOk(db, first, r)} | r in db.stamps :: RecordOk(db, first, r))
    && (forall a, b, r {:trigger InTurn(db, a, b, r)} | a in db.txns && b in db.txns :: InTurn(db, a, b, r))
    && (forall id, r {:trigger LateFollows(db, id, r)} | id in db.txns :: LateFollows(db, id, r))
  }

  /** A database nobody uses yet; its records may have stamps from an earlier run. */
  ghost predicate Init(db: Db) {
    && 0 < db.nextTs && db.lastCommit == 0 && db.txns == map[]
    && forall r | r in db.stamps :: 0 <= db.stamps[r] < db.nextTs
  }

  lemma InitOk(db: Db)
    requires Init(db)
    ensures Inv(db, db.nextTs)
  {
  }

  /** What is committed is as it was. */
  ghost predicate SameCommitted(db: Db, db': Db) {
    forall id {:trigger db'.txns[id]} | id in db'.txns && db'.txns[id].phase.Committed? ::
      id in db.txns && db.txns[id] == db'.txns[id]
  }

  ghost predicate Grows(db: Db, db': Db) {
    forall id {:trigger db.txns[id]} | id in db.txns && db.txns[id].phase.Committed? ::
      id in db'.txns && db.txns[id] == db'.txns[id]
  }

  /** Then the pairs of committed transactions are as they should be. */
  lemma SamePairs(db: Db, db': Db, first: int)
    requires Inv(db, first) && SameCommitted(db, db') && Grows(db, db')
    ensures forall a, b, r {:trigger InTurn(db', a, b, r)} | a in db'.txns && b in db'.txns :: InTurn(db', a, b, r)
    ensures forall id, r {:trigger LateFollows(db', id, r)} | id in db'.txns :: LateFollows(db', id, r)
  {
    forall a, b, r | a in db'.txns && b in db'.txns ensures InTurn(db', a, b, r) {
      if db'.txns[a].phase.Committed? && db'.txns[b].phase.Committed? { assert InTurn(db, a, b, r); }
    }
    forall id, r | id in db'.txns ensures LateFollows(db', id, r) {
      if db'.txns[id].phase.Committed? && WroteLate(db', id, r) {
        assert LateFollows(db, id, r) && WroteLate(db, id, r);
        var a :| a in db.txns && a != id && db.txns[a].phase.Committed? && Wrote(db.txns[a], r)
          && db.txns[id].start < db.txns[a].phase.ts < db.txns[id].phase.ts;
        assert Wrote(db'.txns[a], r);
      }
    }
  }

  lemma BeginKeepsLatest(db: Db, first: int, id: TxnId, t: Txn, next: int, rid: Rid, ts: int)
    requires Inv(db, first) && id !in db.txns && t.phase.Active? && t.writes == [] && db.nextTs <= next
    requires t.readOnly || t.start == db.nextTs
    requires Latest(db, first, rid, ts)
    ensures Latest(db.(txns := db.txns[id := t], nextTs := next), first, rid, ts)
  {
    var db' := db.(txns := db.txns[id := t], nextTs := next);
    forall b | b in db'.txns && db'.txns[b].phase.Committed? && Wrote(db'.txns[b], rid)
      ensures db'.txns[b].phase.ts <= ts
    {
      assert Wrote(db.txns[b], rid);
    }
    if ts >= first {
      var b :| b in db.txns && db.txns[b].phase == Committed(ts) && Wrote(db.txns[b], rid);
      assert Wrote(db'.txns[b], rid);
    }
  }

  lemma BeginKeepsRecord(db: Db, first: int, id: TxnId, t: Txn, next: int, rid: Rid)
    requires Inv(db, first) && id !in db.txns && t.phase.Active? && t.writes == [] && db.nextTs <= next
    requires t.readOnly || t.start == db.nextTs
    requires rid in db.stamps
    ensures RecordOk(db.(txns := db.txns[id := t], nextTs := next), first, rid)
  {
    var db' := db.(txns := db.txns[id := t], nextTs := next);
    assert RecordOk(db, first, rid);
    assert !Wrote(t, rid);
    forall a | Owned(db', rid, a)
      ensures db'.stamps[rid] == db'.txns[a].start
      ensures Latest(db', first, rid, Base(db'.txns[a].writes, rid, 0))
    {
      assert Owned(db, rid, a);
      BeginKeepsLatest(db, first, id, t, next, rid, Base(db.txns[a].writes, rid, 0));
    }
    if forall a :: !Owned(db', rid, a) {
      forall a ensures !Owned(db, rid, a) { assert Owned(db, rid, a) ==> Owned(db', rid, a); }
      BeginKeepsLatest(db, first, id, t, next, rid, db.stamps[rid]);
    }
  }

  /** A new transaction, with a start stamp of its own or, to read only, with the last commit stamp. */
  lemma BeginKeeps(db: Db, first: int, id: TxnId, t: Txn, next: int)
    requires Inv(db, first) && id !in db.txns && t.phase.Active? && t.writes == []
    requires || (t.start == db.nextTs && next == db.nextTs + 1)
             || (t.readOnly && t.start == db.lastCommit > 0 && next == db.nextTs)
    ensures Inv(db.(txns := db.txns[id := t], nextTs := next), first)
  {
    var db' := db.(txns := db.txns[id := t], nextTs := next);
    forall x | x in db'.txns ensures TxnOk(db', first, x) {
      if x != id { assert TxnOk(db, first, x); }
    }
    forall a, b | a in db'.txns && b in db'.txns ensures Apart(db', a, b) {
      if a != id && b != id { assert Apart(db, a, b); }
      if a != id { assert TxnOk(db, first, a); }
      if b != id { assert TxnOk(db, first, b); }
    }
    forall r | r in db'.stamps ensures RecordOk(db', first, r) { BeginKeepsRecord(db, first, id, t, next, r); }
    SamePairs(db, db', first);
  }

  /** What the guard has made sure of when it lets a write pass: the transaction has the record already, or nobody has
      it; and in that case its last commit was before the transaction started, if and only if the guard was not
      misled. */
  lemma GuardPassed(db: Db, first: int, id: TxnId, rid: Rid, owner: Option<TxnId>)
    requires Inv(db, first) && Enabled(db, WriteRecord(id, rid, owner))
    ensures Owned(db, rid, id) || forall a :: !Owned(db, rid, a)
    ensures db.stamps[rid] == db.txns[id].start <==> Owned(db, rid, id)
    ensures db.stamps[rid] > db.txns[id].start <==> Misled(db, WriteRecord(id, rid, owner))
  {
    var ts := db.stamps[rid];
    assert RecordOk(db, first, rid) && TxnOk(db, first, id);
    if a :| Owned(db, rid, a) {
      assert TxnOk(db, first, a) && Apart(db, a, id);
      if owner.Some? { assert Apart(db, a, owner.value); }
    } else {
      assert Latest(db, first, rid, ts);
      if owner.Some? { assert TxnOk(db, first, owner.value); }
    }
  }

  lemma {:induction false} BaseAppend(writes: seq<Write>, w: Write, rid: Rid, i: nat)
    requires i <= |writes|
    ensures (exists j :: i <= j < |writes| && writes[j].rid == rid) ==>
      Base(writes + [w], rid, i) == Base(writes, rid, i)
    ensures !(exists j :: i <= j < |writes| && writes[j].rid == rid) && w.rid == rid ==>
      Base(writes + [w], rid, i) == w.before
    decreases |writes| - i
  {
    if i < |writes| { BaseAppend(writes, w, rid, i + 1); }
  }

  lemma WroteMore(t: Txn, w: Write, rid: Rid)
    ensures Wrote(t.(writes := t.writes + [w]), rid) <==> Wrote(t, rid) || w.rid == rid
  {
    var t' := t.(writes := t.writes + [w]);
    if i :| 0 <= i < |t.writes| && t.writes[i].rid == rid { assert t'.writes[i].rid == rid; }
    assert t'.writes[|t.writes|] == w;
  }

  lemma WriteKeepsLatest(db: Db, first: int, id: TxnId, w: Rid, rid: Rid, ts: int)
    requires Inv(db, first) && id in db.txns && db.txns[id].phase.Active? && w in db.stamps
    requires Latest(db, first, rid, ts)
    ensures var t := db.txns[id];
      Latest(db.(txns := db.txns[id := t.(writes := t.writes + [Write(w, db.stamps[w])])],
                 stamps := db.stamps[w := t.start]), first, rid, ts)
  {
    var t := db.txns[id];
    var db' := db.(txns := db.txns[id := t.(writes := t.writes + [Write(w, db.stamps[w])])],
                   stamps := db.stamps[w := t.start]);
    forall b | b in db'.txns && db'.txns[b].phase.Committed? && Wrote(db'.txns[b], rid)
      ensures db'.txns[b].phase.ts <= ts
    {
      assert Wrote(db.txns[b], rid);
    }
    if ts >= first {
      var b :| b in db.txns && db.txns[b].phase == Committed(ts) && Wrote(db.txns[b], rid);
      assert Wrote(db'.txns[b], rid);
    }
  }

  /** A record has one owner at most. */
  lemma OneOwner(db: Db, first: int, rid: Rid, a: TxnId, b: TxnId)
    requires Inv(db, first) && Owned(db, rid, a) && Owned(db, rid, b)
    ensures rid in db.stamps && a == b
  {
    assert TxnOk(db, first, a) && TxnOk(db, first, b) && Apart(db, a, b);
    var i :| 0 <= i < |db.txns[a].writes| && db.txns[a].writes[i].rid == rid;
    assert RecordOk(db, first, rid);
  }

  /** After a write of record w by id: what record rid's owner goes back to if it aborts. */
  lemma WriteBase(db: Db, first: int, id: TxnId, w: Rid, owner: Option<TxnId>, rid: Rid, a: TxnId)
    requires Inv(db, first) && Enabled(db, WriteRecord(id, w, owner)) && rid in db.stamps
    requires Owned(Apply(db, WriteRecord(id, w, owner)), rid, a)
    ensures rid == w ==> a == id
    ensures Owned(db, rid, a) || (rid == w && forall b :: !Owned(db, rid, b))
    ensures Base(Apply(db, WriteRecord(id, w, owner)).txns[a].writes, rid, 0)
         == if Owned(db, rid, a) then Base(db.txns[a].writes, rid, 0) else db.stamps[rid]
  {
    var t := db.txns[id];
    GuardPassed(db, first, id, w, owner);
    WroteMore(t, Write(w, db.stamps[w]), rid);
    BaseAppend(t.writes, Write(w, db.stamps[w]), rid, 0);
    if rid == w && a != id {
      assert Owned(db, rid, a);
      OneOwner(db, first, rid, a, id);
    }
  }

  /** After a write of record w: record rid, which may be w or another one. */
  lemma WriteKeepsRecord(db: Db, first: int, id: TxnId, w: Rid, owner: Option<TxnId>, rid: Rid)
    requires Inv(db, first) && Enabled(db, WriteRecord(id, w, owner)) && rid in db.stamps
    ensures RecordOk(Apply(db, WriteRecord(id, w, owner)), first, rid)
  {
    var db' := Apply(db, WriteRecord(id, w, owner));
    assert RecordOk(db, first, rid);
    WroteMore(db.txns[id], Write(w, db.stamps[w]), rid);
    assert rid == w ==> Owned(db', rid, id);
    forall a | Owned(db', rid, a)
      ensures db'.stamps[rid] == db'.txns[a].start
      ensures Latest(db', first, rid, Base(db'.txns[a].writes, rid, 0))
    {
      WriteBase(db, first, id, w, owner, rid, a);
      WriteKeepsLatest(db, first, id, w, rid, Base(db'.txns[a].writes, rid, 0));
    }
    if forall a :: !Owned(db', rid, a) {
      forall a ensures !Owned(db, rid, a) { assert Owned(db, rid, a) ==> Owned(db', rid, a); }
      WriteKeepsLatest(db, first, id, w, rid, db.stamps[rid]);
    }
  }

  lemma WriteKeeps(db: Db, first: int, id: TxnId, w: Rid, owner: Option<TxnId>)
    requires Inv(db, first) && Enabled(db, WriteRecord(id, w, owner))
    ensures Inv(Apply(db, WriteRecord(id, w, owner)), first)
  {
    var db' := Apply(db, WriteRecord(id, w, owner));
    forall x | x in db'.txns ensures TxnOk(db', first, x) { assert TxnOk(db, first, x); }
    forall a, b | a in db'.txns && b in db'.txns ensures Apart(db', a, b) { assert Apart(db, a, b); }
    forall r | r in db'.stamps ensures RecordOk(db', first, r) { WriteKeepsRecord(db, first, id, w, owner, r); }
    SamePairs(db, db', first);
  }

  lemma CommitKeepsLatest(db: Db, first: int, id: TxnId, rid: Rid, ts: int)
    requires Inv(db, first) && Enabled(db, Commit(id)) && !Wrote(db.txns[id], rid) && Latest(db, first, rid, ts)
    ensures Latest(Apply(db, Commit(id)), first, rid, ts)
  {
    var db' := Apply(db, Commit(id));
    forall b | b in db'.txns && db'.txns[b].phase.Committed? && Wrote(db'.txns[b], rid)
      ensures db'.txns[b].phase.ts <= ts
    {
      assert Wrote(db.txns[b], rid);
    }
    if ts >= first {
      var b :| b in db.txns && db.txns[b].phase == Committed(ts) && Wrote(db.txns[b], rid);
      assert Wrote(db'.txns[b], rid);
    }
  }

  /** After the commit of id: a record it wrote has its commit stamp, which is now the latest. */
  lemma CommitKeepsRecord(db: Db, first: int, id: TxnId, rid: Rid)
    requires Inv(db, first) && Enabled(db, Commit(id)) && rid in db.stamps
    ensures RecordOk(Apply(db, Commit(id)), first, rid)
  {
    var db', t := Apply(db, Commit(id)), db.txns[id];
    assert RecordOk(db, first, rid) && TxnOk(db, first, id);
    if Wrote(t, rid) {
      assert Owned(db, rid, id);
      forall a ensures !Owned(db', rid, a) {
        if Owned(db', rid, a) { OneOwner(db, first, rid, a, id); }
      }
      assert db'.stamps[rid] == db.nextTs;
      forall b | b in db'.txns && db'.txns[b].phase.Committed? ensures db'.txns[b].phase.ts <= db.nextTs {
        assert TxnOk(db, first, b);
      }
      forall a | a in db'.txns ensures db'.txns[a].start != db.nextTs { assert TxnOk(db, first, a); }
      assert Wrote(db'.txns[id], rid);
    } else {
      forall a | Owned(db', rid, a)
        ensures db'.stamps[rid] == db'.txns[a].start
        ensures Latest(db', first, rid, Base(db'.txns[a].writes, rid, 0))
      {
        assert Owned(db, rid, a);
        CommitKeepsLatest(db, first, id, rid, Base(db.txns[a].writes, rid, 0));
      }
      if forall a :: !Owned(db', rid, a) {
        forall a ensures !Owned(db, rid, a) { assert Owned(db, rid, a) ==> Owned(db', rid, a); }
        CommitKeepsLatest(db, first, id, rid, db.stamps[rid]);
      }
    }
  }

  /** The commits a transaction that commits has to follow: all were before the stamp it goes back to. */
  lemma CommitFollows(db: Db, first: int, id: TxnId, b: TxnId, rid: Rid)
    requires Inv(db, first) && Enabled(db, Commit(id)) && Wrote(db.txns[id], rid)
    requires b in db.txns && db.txns[b].phase.Committed? && Wrote(db.txns[b], rid)
    ensures db.txns[b].phase.ts <= Base(db.txns[id].writes, rid, 0) && db.txns[b].phase.ts < db.nextTs
  {
    CommitLatest(db, first, id, rid);
    assert TxnOk(db, first, b);
  }

  lemma CommitLatest(db: Db, first: int, id: TxnId, rid: Rid)
    requires Inv(db, first) && Enabled(db, Commit(id)) && Wrote(db.txns[id], rid)
    ensures Latest(db, first, rid, Base(db.txns[id].writes, rid, 0)) && TxnOk(db, first, id) && !db.txns[id].readOnly
  {
    assert TxnOk(db, first, id);
    var i :| 0 <= i < |db.txns[id].writes| && db.txns[id].writes[i].rid == rid;
    assert RecordOk(db, first, rid) && Owned(db, rid, id);
  }

  /** If it wrote late, then the stamp it goes back to is that of a commit while it was running. */
  lemma CommitLate(db: Db, first: int, id: TxnId, rid: Rid) returns (b: TxnId)
    requires Inv(db, first) && Enabled(db, Commit(id)) && WroteLate(db, id, rid)
    ensures b in db.txns && b != id && db.txns[b].phase.Committed? && Wrote(db.txns[b], rid)
    ensures db.txns[id].start < db.txns[b].phase.ts < db.nextTs
  {
    var ts := Base(db.txns[id].writes, rid, 0);
    CommitLatest(db, first, id, rid);
    b :| b in db.txns && db.txns[b].phase == Committed(ts) && Wrote(db.txns[b], rid);
  }

  lemma CommitKeepsPairs(db: Db, first: int, id: TxnId, a: TxnId, b: TxnId, r: Rid)
    requires Inv(db, first) && Enabled(db, Commit(id)) && a in db.txns && b in db.txns
    ensures InTurn(Apply(db, Commit(id)), a, b, r)
  {
    assert InTurn(db, a, b, r);
    var db' := Apply(db, Commit(id));
    if a != b && db'.txns[a].phase.Committed? && db'.txns[b].phase.Committed?
       && Wrote(db'.txns[a], r) && Wrote(db'.txns[b], r) {
      assert Wrote(db.txns[a], r) && Wrote(db.txns[b], r);
      if a == id { CommitFollows(db, first, id, b, r); }
      if b == id { CommitFollows(db, first, id, a, r); }
    }
  }

  lemma CommitKeepsLate(db: Db, first: int, id: TxnId, x: TxnId, r: Rid)
    requires Inv(db, first) && Enabled(db, Commit(id)) && x in db.txns
    ensures LateFollows(Apply(db, Commit(id)), x, r)
  {
    var db' := Apply(db, Commit(id));
    if db'.txns[x].phase.Committed? && WroteLate(db', x, r) {
      var a;
      assert Wrote(db.txns[x], r);
      if x == id {
        a := CommitLate(db, first, id, r);
      } else {
        assert LateFollows(db, x, r);
        a :| a in db.txns && a != x && db.txns[a].phase.Committed? && Wrote(db.txns[a], r)
          && db.txns[x].start < db.txns[a].phase.ts < db.txns[x].phase.ts;
      }
      assert Wrote(db'.txns[a], r);
    }
  }

  lemma CommitKeeps(db: Db, first: int, id: TxnId)
    requires Inv(db, first) && Enabled(db, Commit(id))
    ensures Inv(Apply(db, Commit(id)), first)
  {
    var db' := Apply(db, Commit(id));
    forall x | x in db'.txns ensures TxnOk(db', first, x) { assert TxnOk(db, first, x); }
    forall a, b | a in db'.txns && b in db'.txns ensures Apart(db', a, b) {
      assert Apart(db, a, b) && TxnOk(db, first, a);
    }
    forall r | r in db'.stamps ensures RecordOk(db', first, r) { CommitKeepsRecord(db, first, id, r); }
    forall a, b, r | a in db'.txns && b in db'.txns ensures InTurn(db', a, b, r) {
      CommitKeepsPairs(db, first, id, a, b, r);
    }
    forall x, r | x in db'.txns ensures LateFollows(db', x, r) { CommitKeepsLate(db, first, id, x, r); }
    forall a | a in db'.txns ensures db'.txns[a].start != db.nextTs { assert TxnOk(db, first, a); }
  }

  /** The abort loop gives every record of the write set the stamp it had before its first write. */
  lemma {:induction false} UndoneStamp(stamps: map<Rid, int>, writes: seq<Write>, rid: Rid)
    requires rid in stamps
    ensures Undone(stamps, writes).Keys == stamps.Keys
    ensures Undone(stamps, writes)[rid]
         == if exists i :: 0 <= i < |writes| && writes[i].rid == rid then Base(writes, rid, 0) else stamps[rid]
    decreases |writes|
  {
    if writes != [] {
      var rest, w := writes[..|writes| - 1], writes[|writes| - 1];
      assert writes == rest + [w];
      UndoneStamp(if w.rid in stamps then stamps[w.rid := w.before] else stamps, rest, rid);
      BaseAppend(rest, w, rid, 0);
      assert w.rid == rid ==> writes[|writes| - 1].rid == rid;
      assert (exists i :: 0 <= i < |writes| && writes[i].rid == rid)
        <==> w.rid == rid || exists i :: 0 <= i < |rest| && rest[i].rid == rid;
    }
  }

  lemma AbortKeepsLatest(db: Db, first: int, id: TxnId, rid: Rid, ts: int)
    requires Inv(db, first) && Enabled(db, Abort(id)) && Latest(db, first, rid, ts)
    ensures Latest(Apply(db, Abort(id)), first, rid, ts)
  {
    var db' := Apply(db, Abort(id));
    forall b | b in db'.txns && db'.txns[b].phase.Committed? && Wrote(db'.txns[b], rid)
      ensures db'.txns[b].phase.ts <= ts
    {
      assert Wrote(db.txns[b], rid);
    }
    if ts >= first {
      var b :| b in db.txns && db.txns[b].phase == Committed(ts) && Wrote(db.txns[b], rid);
      assert Wrote(db'.txns[b], rid);
    }
  }

  /** After the abort of id: a record it wrote is as it was before, and nobody has it. */
  lemma AbortKeepsRecord(db: Db, first: int, id: TxnId, rid: Rid)
    requires Inv(db, first) && Enabled(db, Abort(id)) && rid in db.stamps
    ensures rid in Apply(db, Abort(id)).stamps && RecordOk(Apply(db, Abort(id)), first, rid)
  {
    var db', t := Apply(db, Abort(id)), db.txns[id];
    assert RecordOk(db, first, rid);
    UndoneStamp(db.stamps, t.writes, rid);
    if Wrote(t, rid) {
      assert Owned(db, rid, id);
      forall a ensures !Owned(db', rid, a) {
        if Owned(db', rid, a) { OneOwner(db, first, rid, a, id); }
      }
      AbortKeepsLatest(db, first, id, rid, Base(t.writes, rid, 0));
    } else {
      forall a | Owned(db', rid, a)
        ensures db'.stamps[rid] == db'.txns[a].start
        ensures Latest(db', first, rid, Base(db'.txns[a].writes, rid, 0))
      {
        assert Owned(db, rid, a);
        AbortKeepsLatest(db, first, id, rid, Base(db.txns[a].writes, rid, 0));
      }
      if forall a :: !Owned(db', rid, a) {
        forall a ensures !Owned(db, rid, a) { assert Owned(db, rid, a) ==> Owned(db', rid, a); }
        AbortKeepsLatest(db, first, id, rid, db.stamps[rid]);
      }
    }
  }

  lemma AbortKeeps(db: Db, first: int, id: TxnId)
    requires Inv(db, first) && Enabled(db, Abort(id))
    ensures Inv(Apply(db, Abort(id)), first)
  {
    var db' := Apply(db, Abort(id));
    forall r | r in db'.stamps ensures RecordOk(db', first, r) {
      if r in db.stamps { AbortKeepsRecord(db, first, id, r); } else { UndoneKeys(db.stamps, db.txns[id].writes); }
    }
    UndoneKeys(db.stamps, db.txns[id].writes);
    forall x | x in db'.txns ensures TxnOk(db', first, x) { assert TxnOk(db, first, x); }
    forall a, b | a in db'.txns && b in db'.txns ensures Apart(db', a, b) { assert Apart(db, a, b); }
    SamePairs(db, db', first);
  }

  lemma {:induction false} UndoneKeys(stamps: map<Rid, int>, writes: seq<Write>)
    ensures Undone(stamps, writes).Keys == stamps.Keys
    decreases |writes|
  {
    if writes != [] {
      var w := writes[|writes| - 1];
      UndoneKeys(if w.rid in stamps then stamps[w.rid := w.before] else stamps, writes[..|writes| - 1]);
    }
  }

  lemma StepKeeps(db: Db, first: int, step: Step)
    requires Inv(db, first) && Enabled(db, step)
    ensures Inv(Apply(db, step), first)
  {
    match step
    case Begin(id) => BeginKeeps(db, first, id, Txn(db.nextTs, false, Active, []), db.nextTs + 1);
    case BeginReadOnlySnapshot(id) =>
      if db.lastCommit > 0 {
        BeginKeeps(db, first, id, Txn(db.lastCommit, true, Active, []), db.nextTs);
        assert Apply(db, step) == db.(txns := db.txns[id := Txn(db.lastCommit, true, Active, [])], nextTs := db.nextTs);
      } else {
        BeginKeeps(db, first, id, Txn(db.nextTs, true, Active, []), db.nextTs + 1);
      }
    case WriteRecord(id, rid, owner) => WriteKeeps(db, first, id, rid, owner);
    case Commit(id) => CommitKeeps(db, first, id);
    case Abort(id) => AbortKeeps(db, first, id);
  }

  // ----- what that means -----

  /** The databases a run goes through: every step is enabled where it is taken. */
  ghost predicate IsRun(dbs: seq<Db>, steps: seq<Step>) {
    && |dbs| == |steps| + 1 && Init(dbs[0])
    && forall i | 0 <= i < |steps| :: Enabled(dbs[i], steps[i]) && dbs[i + 1] == Apply(dbs[i], steps[i])
  }

  lemma {:induction false} RunKeeps(dbs: seq<Db>, steps: seq<Step>, n: nat)
    requires IsRun(dbs, steps) && n < |dbs|
    ensures Inv(dbs[n], dbs[0].nextTs)
  {
    if n == 0 {
      InitOk(dbs[0]);
    } else {
      RunKeeps(dbs, steps, n - 1);
      assert Enabled(dbs[n - 1], steps[n - 1]) && dbs[n] == Apply(dbs[n - 1], steps[n - 1]);
      StepKeeps(dbs[n - 1], dbs[0].nextTs, steps[n - 1]);
    }
  }

  // ----- lost updates -----

  /** No two overlapping transactions have both committed a write to the same record. */
  ghost predicate NothingLost(db: Db) {
    forall a, b, r {:trigger NoOverlap(db, a, b, r)} | a in db.txns && b in db.txns :: NoOverlap(db, a, b, r)
  }

  /** Nothing is lost in a state just when no committed transaction wrote late. */
  lemma LostIsLate(db: Db, first: int)
    requires Inv(db, first)
    ensures NothingLost(db) <==> forall b, r | b in db.txns && db.txns[b].phase.Committed? :: !WroteLate(db, b, r)
  {
    if forall b, r | b in db.txns && db.txns[b].phase.Committed? :: !WroteLate(db, b, r) {
      forall a, b, r | a in db.txns && b in db.txns ensures NoOverlap(db, a, b, r) {
        assert InTurn(db, a, b, r) && InTurn(db, b, a, r);
      }
    }
    if b, r :| b in db.txns && db.txns[b].phase.Committed? && WroteLate(db, b, r) {
      assert LateFollows(db, b, r);
      var a :| a in db.txns && a != b && db.txns[a].phase.Committed? && Wrote(db.txns[a], r)
        && db.txns[b].start < db.txns[a].phase.ts < db.txns[b].phase.ts;
      assert TxnOk(db, first, a);
      assert !NoOverlap(db, a, b, r);
    }
  }

  /** How a step changes who wrote late: by a write for which the guard was misled. */
  lemma StepLate(db: Db, first: int, step: Step, b: TxnId, r: Rid)
    requires Inv(db, first) && Enabled(db, step) && b in Apply(db, step).txns && !Apply(db, step).txns[b].phase.Aborted?
    ensures WroteLate(Apply(db, step), b, r)
       <==> (b in db.txns && WroteLate(db, b, r))
            || (step.WriteRecord? && step.id == b && step.rid == r && Misled(db, step))
  {
    if step.WriteRecord? {
      var t, w := db.txns[step.id], Write(step.rid, db.stamps[step.rid]);
      GuardPassed(db, first, step.id, step.rid, step.owner);
      WroteMore(t, w, r);
      BaseAppend(t.writes, w, r, 0);
      if step.id == b && step.rid == r && Wrote(t, r) { assert Owned(db, r, b); }
      if step.id == b && step.rid == r && !Wrote(t, r) { assert !Owned(db, r, b); }
    } else if b in db.txns {
      assert Wrote(Apply(db, step).txns[b], r) <==> Wrote(db.txns[b], r);
    }
  }

  /** The guard was misled in step i of the run, about a write of b to r. */
  ghost predicate MisledAt(dbs: seq<Db>, steps: seq<Step>, i: nat, b: TxnId, r: Rid)
    requires i < |steps| <= |dbs|
  {
    steps[i].WriteRecord? && steps[i].id == b && steps[i].rid == r && Misled(dbs[i], steps[i])
  }

  /** A transaction that was not aborted wrote late just when the guard was misled about one of its writes. */
  lemma {:induction false} LateIsMisled(dbs: seq<Db>, steps: seq<Step>, n: nat, b: TxnId, r: Rid)
    requires IsRun(dbs, steps) && n < |dbs|
    ensures b in dbs[n].txns && !dbs[n].txns[b].phase.Aborted? ==>
      (WroteLate(dbs[n], b, r) <==> exists i: nat :: i < n && MisledAt(dbs, steps, i, b, r))
    ensures (exists i: nat :: i < n && MisledAt(dbs, steps, i, b, r)) ==> b in dbs[n].txns
  {
    if n > 0 {
      var db, step := dbs[n - 1], steps[n - 1];
      LateIsMisled(dbs, steps, n - 1, b, r);
      RunKeeps(dbs, steps, n - 1);
      assert Enabled(db, step) && dbs[n] == Apply(db, step);
      assert (exists i: nat :: i < n && MisledAt(dbs, steps, i, b, r))
        <==> (exists i: nat :: i < n - 1 && MisledAt(dbs, steps, i, b, r)) || MisledAt(dbs, steps, n - 1, b, r);
      if b in dbs[n].txns && !dbs[n].txns[b].phase.Aborted? { StepLate(db, dbs[0].nextTs, step, b, r); }
    }
  }

  /** The guard was misled in step i, and the transaction has committed by the end. */
  ghost predicate MisledCommit(dbs: seq<Db>, steps: seq<Step>, i: nat, db: Db)
    requires i < |steps| <= |dbs|
  {
    Misled(dbs[i], steps[i]) && steps[i].id in db.txns && db.txns[steps[i].id].phase.Committed?
  }

  /** The main result, for every run: no update is lost if and only if no transaction has committed for which the guard
      was misled. */
  lemma LostUpdateExactly(dbs: seq<Db>, steps: seq<Step>, n: nat)
    requires IsRun(dbs, steps) && n < |dbs|
    ensures NothingLost(dbs[n]) <==> forall i: nat | i < n :: !MisledCommit(dbs, steps, i, dbs[n])
  {
    var db := dbs[n];
    RunKeeps(dbs, steps, n);
    LostIsLate(db, dbs[0].nextTs);
    if i: nat :| i < n && MisledCommit(dbs, steps, i, db) {
      var b, r := steps[i].id, steps[i].rid;
      assert MisledAt(dbs, steps, i, b, r);
      LateIsMisled(dbs, steps, n, b, r);
      assert WroteLate(db, b, r);
    }
    if b, r :| b in db.txns && db.txns[b].phase.Committed? && WroteLate(db, b, r) {
      LateIsMisled(dbs, steps, n, b, r);
      var i: nat :| i < n && MisledAt(dbs, steps, i, b, r);
      assert MisledCommit(dbs, steps, i, db);
    }
  }

  /** For one record and two transactions: if the guard was not misled about their writes to it, they did not
      overlap. */
  lemma NoLostUpdate(dbs: seq<Db>, steps: seq<Step>, n: nat, a: TxnId, b: TxnId, rid: Rid)
    requires IsRun(dbs, steps) && n < |dbs| && a != b && a in dbs[n].txns && b in dbs[n].txns
    requires dbs[n].txns[a].phase.Committed? && dbs[n].txns[b].phase.Committed?
    requires Wrote(dbs[n].txns[a], rid) && Wrote(dbs[n].txns[b], rid)
    requires forall i: nat | i < n :: !MisledAt(dbs, steps, i, a, rid) && !MisledAt(dbs, steps, i, b, rid)
    ensures dbs[n].txns[a].phase.ts < dbs[n].txns[b].start || dbs[n].txns[b].phase.ts < dbs[n].txns[a].start
  {
    RunKeeps(dbs, steps, n);
    LateIsMisled(dbs, steps, n, a, rid);
    LateIsMisled(dbs, steps, n, b, rid);
    assert InTurn(dbs[n], a, b, rid) && InTurn(dbs[n], b, a, rid);
  }

  /** Whenever the guard is misled, the commit that may follow at once loses an update. */
  lemma MisledLoses(db: Db, first: int, write: Step)
    requires Inv(db, first) && Enabled(db, write) && Misled(db, write)
    ensures Enabled(Apply(db, write), Commit(write.id))
    ensures var db' := Apply(Apply(db, write), Commit(write.id));
      exists b :: b in db'.txns && !NoOverlap(db', write.id, b, write.rid)
  {
    var id, rid, written := write.id, write.rid, Apply(db, write);
    GuardPassed(db, first, id, rid, write.owner);
    assert RecordOk(db, first, rid) && TxnOk(db, first, id);
    WriteKeeps(db, first, id, rid, write.owner);
    StepLate(db, first, write, id, rid);
    var b := CommitLate(written, first, id, rid);
    var db' := Apply(written, Commit(id));
    assert TxnOk(written, first, b);
    assert Wrote(db'.txns[b], rid) && Wrote(db'.txns[id], rid);
    assert !NoOverlap(db', id, b, rid);
  }

  // ----- guard and rule -----

  /** Another transaction wrote the record, and it is active or committed after this one started. */
  ghost predicate Contended(db: Db, rid: Rid, id: TxnId)
    requires id in db.txns
  {
    exists b :: b in db.txns && b != id && Wrote(db.txns[b], rid) &&
      (db.txns[b].phase.Active? || (db.txns[b].phase.Committed? && db.txns[b].phase.ts > db.txns[id].start))
  }

  /** A read-only snapshot in progress has the record's stamp as its start stamp: it borrowed the last commit stamp. */
  ghost predicate Borrowed(db: Db, ts: int) {
    exists o :: o in db.txns && db.txns[o].readOnly && db.txns[o].phase.Active? && db.txns[o].start == ts
  }

  /** The rule refuses exactly the contended writes to records the writer does not have yet, and those to a record whose
      stamp is borrowed. */
  lemma RuleIsExact(db: Db, first: int, id: TxnId, rid: Rid)
    requires Inv(db, first) && id in db.txns && db.txns[id].phase.Active? && !db.txns[id].readOnly && rid in db.stamps
    ensures IsWriteWriteConflict(db, db.stamps[rid], id)
       <==> (Contended(db, rid, id) && !Owned(db, rid, id)) || Borrowed(db, db.stamps[rid])
  {
    var ts := db.stamps[rid];
    assert RecordOk(db, first, rid) && TxnOk(db, first, id);
    if Borrowed(db, ts) {
      var o :| o in db.txns && db.txns[o].readOnly && db.txns[o].phase.Active? && db.txns[o].start == ts;
      assert Apart(db, id, o) && TxnOk(db, first, o);
    } else if a :| Owned(db, rid, a) {
      assert TxnOk(db, first, a) && Apart(db, a, id);
    } else {
      assert Latest(db, first, rid, ts);
      forall b | b in db.txns && Wrote(db.txns[b], rid) ensures !db.txns[b].phase.Active? {
        if db.txns[b].phase.Active? { assert Owned(db, rid, b); }
      }
    }
  }

  /** Somebody contends for a record with its owner just when the owner wrote it late. */
  lemma OwnIsContended(db: Db, first: int, rid: Rid, id: TxnId)
    requires Inv(db, first) && Owned(db, rid, id) && rid in db.stamps
    ensures db.stamps[rid] == db.txns[id].start
    ensures Contended(db, rid, id) <==> WroteLate(db, id, rid)
  {
    var ts := Base(db.txns[id].writes, rid, 0);
    assert RecordOk(db, first, rid) && TxnOk(db, first, id);
    assert Latest(db, first, rid, ts);
    if b :| b in db.txns && b != id && Wrote(db.txns[b], rid) && db.txns[b].phase.Active? {
      assert Owned(db, rid, b);
      OneOwner(db, first, rid, b, id);
    }
    if WroteLate(db, id, rid) {
      var b :| b in db.txns && db.txns[b].phase == Committed(ts) && Wrote(db.txns[b], rid);
      assert b != id && db.txns[b].phase.ts > db.txns[id].start;
    }
  }

  /** The first write of transaction id, to the only record, which nobody has written before. */
  lemma FirstWrite(db: Db, id: TxnId, r: Rid)
    requires id in db.txns && db.txns[id] == Txn(db.txns[id].start, false, Active, []) && db.stamps == map[r := 0]
    requires FoundByTs(db, 0, None)
    ensures Enabled(db, WriteRecord(id, r, None))
    ensures Apply(db, WriteRecord(id, r, None)) == db.(
      txns := db.txns[id := db.txns[id].(writes := [Write(r, 0)])], stamps := map[r := db.txns[id].start])
  {
    assert [] + [Write(r, 0)] == [Write(r, 0)];
  }

  /** Its commit. */
  lemma FirstCommit(db: Db, id: TxnId, r: Rid)
    requires id in db.txns && db.txns[id] == Txn(db.txns[id].start, false, Active, [Write(r, 0)])
    requires db.stamps == map[r := db.txns[id].start] && db.txns[id].start < db.nextTs
    ensures Apply(db, Commit(id)) == db.(txns := db.txns[id := db.txns[id].(phase := Committed(db.nextTs))],
      stamps := map[r := db.nextTs], lastCommit := db.nextTs, nextTs := db.nextTs + 1)
  {
    assert db.txns[id].writes[0].rid == r;
    assert Restamped(db.stamps, db.txns[id], db.nextTs) == map[r := db.nextTs];
  }

  /** Transaction 0 wrote record r and committed, snapshot 1 borrowed its commit stamp, transaction 2 began. */
  function BorrowedStamp(r: Rid): Db {
    Db(4, 2, map[0 := Txn(1, false, Committed(2), [Write(r, 0)]), 1 := Txn(2, true, Active, []),
                 2 := Txn(3, false, Active, [])],
       map[r := 2])
  }

  /** A run that gets there. */
  lemma BorrowedStampRun(r: Rid) returns (dbs: seq<Db>, steps: seq<Step>)
    ensures steps == [Begin(0), WriteRecord(0, r, None), Commit(0), BeginReadOnlySnapshot(1), Begin(2)]
    ensures IsRun(dbs, steps) && dbs[5] == BorrowedStamp(r)
  {
    steps := [Begin(0), WriteRecord(0, r, None), Commit(0), BeginReadOnlySnapshot(1), Begin(2)];
    var d0 := Db(1, 0, map[], map[r := 0]);
    var d1 := Db(2, 0, map[0 := Txn(1, false, Active, [])], map[r := 0]);
    FirstWrite(d1, 0, r);
    var d2 := Apply(d1, steps[1]);
    FirstCommit(d2, 0, r);
    var d3 := Apply(d2, steps[2]);
    dbs := [d0, d1, d2, d3, Apply(d3, steps[3]), BorrowedStamp(r)];
  }

  /** There transaction 2 competes with nobody, and still the rule and the guard refuse its write to r. */
  lemma SnapshotBlocksWriter(r: Rid)
    ensures var db := BorrowedStamp(r);
      && !Contended(db, r, 2) && IsWriteWriteConflict(db, db.stamps[r], 2)
      && FoundByTs(db, db.stamps[r], Some(1)) && CheckWriteWriteConflict(db, db.stamps[r], 2, Some(1))
  {
    assert BorrowedStamp(r).txns[1].start == BorrowedStamp(r).stamps[r];
  }

  /** The guard lets a contended write pass exactly when it is misled, or has been before: the writer has the record
      already, and wrote it late. */
  lemma GuardMisses(db: Db, first: int, id: TxnId, rid: Rid, owner: Option<TxnId>)
    requires Inv(db, first) && id in db.txns && db.txns[id].phase.Active? && !db.txns[id].readOnly && rid in db.stamps
    requires FoundByTs(db, db.stamps[rid], owner)
    ensures Contended(db, rid, id) && !CheckWriteWriteConflict(db, db.stamps[rid], id, owner)
       <==> Misled(db, WriteRecord(id, rid, owner)) || WroteLate(db, id, rid)
  {
    var ts := db.stamps[rid];
    assert RecordOk(db, first, rid) && TxnOk(db, first, id);
    if owner.Some? { assert TxnOk(db, first, owner.value) && Apart(db, id, owner.value); }
    if Owned(db, rid, id) {
      OwnIsContended(db, first, rid, id);
    } else if a :| Owned(db, rid, a) {
      assert TxnOk(db, first, a) && Apart(db, a, id);
      if owner.Some? { assert Apart(db, a, owner.value); }
    } else {
      assert Latest(db, first, rid, ts);
      forall b | b in db.txns && Wrote(db.txns[b], rid) ensures !db.txns[b].phase.Active? {
        if db.txns[b].phase.Active? { assert Owned(db, rid, b); }
      }
    }
  }

  /** The guard asked a read-only snapshot that has the stamp: one still in progress, or one that committed after the
      writer began, provided no aborted transaction has that stamp too. */
  ghost predicate AskedSnapshot(db: Db, ts: int, id: TxnId, owner: Option<TxnId>)
    requires id in db.txns
  {
    && ts > 0 && owner.Some? && owner.value in db.txns && db.txns[owner.value].readOnly
    && (db.txns[owner.value].phase.Active? ||
        (db.txns[owner.value].phase.Committed? && !AbortedTs(db, ts)
         && db.txns[owner.value].phase.ts > db.txns[id].start))
  }

  /** The guard refuses a write nobody competes for exactly when it asks such a snapshot. */
  lemma GuardRefuses(db: Db, first: int, id: TxnId, rid: Rid, owner: Option<TxnId>)
    requires Inv(db, first) && id in db.txns && db.txns[id].phase.Active? && !db.txns[id].readOnly && rid in db.stamps
    requires FoundByTs(db, db.stamps[rid], owner)
    ensures CheckWriteWriteConflict(db, db.stamps[rid], id, owner) && !Contended(db, rid, id)
       <==> AskedSnapshot(db, db.stamps[rid], id, owner) && !Contended(db, rid, id)
  {
    var ts := db.stamps[rid];
    assert RecordOk(db, first, rid) && TxnOk(db, first, id);
    if owner.Some? { assert TxnOk(db, first, owner.value) && Apart(db, id, owner.value); }
    if a :| Owned(db, rid, a) {
      assert TxnOk(db, first, a) && Apart(db, a, id);
      if owner.Some? { assert Apart(db, a, owner.value); }
    } else {
      assert Latest(db, first, rid, ts);
    }
  }

  /** Both directions: the guard refuses exactly the contended writes, but for those about which it is or has been
      misled, and the writes for which it asks another snapshot. */
  lemma GuardIsExact(db: Db, first: int, id: TxnId, rid: Rid, owner: Option<TxnId>)
    requires Inv(db, first) && id in db.txns && db.txns[id].phase.Active? && !db.txns[id].readOnly && rid in db.stamps
    requires FoundByTs(db, db.stamps[rid], owner)
    ensures CheckWriteWriteConflict(db, db.stamps[rid], id, owner)
       <==> if Contended(db, rid, id) then !Misled(db, WriteRecord(id, rid, owner)) && !WroteLate(db, id, rid)
            else AskedSnapshot(db, db.stamps[rid], id, owner)
  {
    GuardMisses(db, first, id, rid, owner);
    GuardRefuses(db, first, id, rid, owner);
  }

  /** The guard of the executors is the rule, but for those cases: it differs when it is misled, and when an uncontended
      write is refused by just one of the two. Without a snapshot that has the stamp they agree. */
  lemma GuardIsRule(db: Db, first: int, id: TxnId, rid: Rid, owner: Option<TxnId>)
    requires Inv(db, first) && id in db.txns && db.txns[id].phase.Active? && !db.txns[id].readOnly && rid in db.stamps
    requires FoundByTs(db, db.stamps[rid], owner)
    ensures CheckWriteWriteConflict(db, db.stamps[rid], id, owner) == IsWriteWriteConflict(db, db.stamps[rid], id)
       <==> if Contended(db, rid, id) then !Misled(db, WriteRecord(id, rid, owner))
            else AskedSnapshot(db, db.stamps[rid], id, owner) == Borrowed(db, db.stamps[rid])
    ensures (forall o | o in db.txns && db.txns[o].readOnly :: db.txns[o].start != db.stamps[rid]) ==>
      CheckWriteWriteConflict(db, db.stamps[rid], id, owner) == IsWriteWriteConflict(db, db.stamps[rid], id)
  {
    GuardIsExact(db, first, id, rid, owner);
    RuleIsExact(db, first, id, rid);
    if Owned(db, rid, id) {
      OwnIsContended(db, first, rid, id);
    } else {
      assert !WroteLate(db, id, rid) by { if Wrote(db.txns[id], rid) { assert Owned(db, rid, id); } }
    }
  }

  /** The state of BorrowedStamp after the snapshot has committed. */
  function CommittedSnapshot(r: Rid): Db {
    Db(5, 4, map[0 := Txn(1, false, Committed(2), [Write(r, 0)]), 1 := Txn(2, true, Committed(4), []),
                 2 := Txn(3, false, Active, [])], map[r := 2])
  }

  lemma CommittedSnapshotRun(r: Rid) returns (dbs: seq<Db>, steps: seq<Step>)
    ensures steps == [Begin(0), WriteRecord(0, r, None), Commit(0), BeginReadOnlySnapshot(1), Begin(2), Commit(1)]
    ensures IsRun(dbs, steps) && dbs[6] == CommittedSnapshot(r)
  {
    var dbs0, steps0 := BorrowedStampRun(r);
    dbs, steps := dbs0 + [CommittedSnapshot(r)], steps0 + [Commit(1)];
    assert Restamped(map[r := 2], BorrowedStamp(r).txns[1], 4) == map[r := 2];
    assert Apply(BorrowedStamp(r), Commit(1)) == CommittedSnapshot(r);
    forall i | 0 <= i < 6 ensures Enabled(dbs[i], steps[i]) && dbs[i + 1] == Apply(dbs[i], steps[i]) {
      if i < 5 { assert dbs[i] == dbs0[i] && dbs[i + 1] == dbs0[i + 1] && steps[i] == steps0[i]; }
    }
  }

  /** The snapshot is over, the rule would let transaction 2 write, and the guard, which can only ask the snapshot,
      refuses. */
  lemma CommittedSnapshotBlocksWriter(r: Rid, owner: Option<TxnId>)
    requires FoundByTs(CommittedSnapshot(r), 2, owner)
    ensures var db := CommittedSnapshot(r);
      && owner == Some(1) && !Contended(db, r, 2) && !Borrowed(db, 2) && !IsWriteWriteConflict(db, 2, 2)
      && CheckWriteWriteConflict(db, 2, 2, owner)
  {
    assert CommittedSnapshot(r).txns[1].start == 2;
  }

  /** Transactions 0 and 1 begin; 1 writes record r and commits; snapshot 2 borrows that stamp and is aborted. */
  function MisledDb(r: Rid): Db {
    Db(4, 3, map[0 := Txn(1, false, Active, []), 1 := Txn(2, false, Committed(3), [Write(r, 0)]),
                 2 := Txn(3, true, Aborted, [])],
       map[r := 3])
  }

  lemma MisledRun(r: Rid) returns (dbs: seq<Db>, steps: seq<Step>)
    ensures steps == [Begin(0), Begin(1), WriteRecord(1, r, None), Commit(1), BeginReadOnlySnapshot(2), Abort(2)]
    ensures IsRun(dbs, steps) && dbs[6] == MisledDb(r)
  {
    steps := [Begin(0), Begin(1), WriteRecord(1, r, None), Commit(1), BeginReadOnlySnapshot(2), Abort(2)];
    var t0 := Txn(1, false, Active, []);
    var d2 := Db(3, 0, map[0 := t0, 1 := Txn(2, false, Active, [])], map[r := 0]);
    FirstWrite(d2, 1, r);
    var d3 := Apply(d2, steps[2]);
    FirstCommit(d3, 1, r);
    var d4 := Apply(d3, steps[3]);
    dbs := [Db(1, 0, map[], map[r := 0]), Db(2, 0, map[0 := t0], map[r := 0]), d2, d3, d4, Apply(d4, steps[4]),
            MisledDb(r)];
  }

  /** Then the guard lets 0 write r as well, and when 0 commits, two overlapping transactions have committed writes to
      r. */
  lemma LostUpdate(r: Rid)
    ensures var db := MisledDb(r); var write := WriteRecord(0, r, Some(2));
      && Enabled(db, write) && Enabled(Apply(db, write), Commit(0))
      && !NoOverlap(Apply(Apply(db, write), Commit(0)), 0, 1, r)
  {
    var db, write := MisledDb(r), WriteRecord(0, r, Some(2));
    assert FoundByTs(db, 3, Some(2));
    var db' := Apply(Apply(db, write), Commit(0));
    assert db'.txns[0].writes[0].rid == r && db'.txns[1].writes[0].rid == r;
  }
}
