// Whole runs on the shared database: commits to any drive (retried, failing or
// successful), acknowledgements, and receipts stored by the extension.
module JournalRuns {
  import opened Prelude
  import opened Journal
  import opened JournalHistory

  datatype Op =
    | CommitOp(drive: string, records: seq<Event>, delivery: Option<string>, receipts: seq<Receipt>,
               legacy: Legacy, clock: Clock, refuses: Refusals)
    | AckOp(id: string)
    | PutReceipt(key: string, payload: string)

  // What the transactions that took effect did, in commit order.
  datatype Note =
    | Batch(drive: string, imported: seq<Event>, stamped: seq<Event>, delivery: Option<string>)
    | Acked(id: string)

  datatype World = World(db: Db, history: seq<Note>)

  function Start(): World {
    World(Db(map[], {}, map[]), [])
  }

  function Next(w: World, op: Op, retention: nat): World {
    match op
    case AckOp(id) => World(Acknowledge(w.db, id), w.history + [Acked(id)])
    case PutReceipt(key, payload) => w.(db := w.db.(receipts := w.db.receipts[key := payload]))
    case CommitOp(drive, records, delivery, receipts, legacy, clock, refuses) =>
      var r := Commit(w.db, drive, records, delivery, receipts, legacy, clock, refuses, retention);
      if r.None? || Redelivered(w.db, delivery) then w
      else
        World(r.value.db, w.history + [Batch(drive, Imported(HeadOf(w.db, drive), legacy), r.value.stamped, delivery)])
  }

  function Run(ops: seq<Op>, retention: nat): World {
    if ops == [] then Start() else Next(Run(ops[..|ops| - 1], retention), ops[|ops| - 1], retention)
  }

  function NoteEntries(n: Note, drive: string): seq<Entry> {
    if n.Batch? && n.drive == drive then Entries(n.imported, true) + Entries(n.stamped, false) else []
  }

  // Everything a drive's journal ever held, in commit order.
  function DriveLog(history: seq<Note>, drive: string): seq<Entry> {
    if history == [] then []
    else DriveLog(history[..|history| - 1], drive) + NoteEntries(history[|history| - 1], drive)
  }

  predicate Delivers(n: Note, id: string) {
    n.Batch? && n.delivery == Some(id)
  }

  // A batch of this delivery was committed and has not been acknowledged since.
  predicate Open(history: seq<Note>, id: string) {
    history != []
    && var last := history[|history| - 1];
       Delivers(last, id) || (last != Acked(id) && Open(history[..|history| - 1], id))
  }

  ghost predicate AckedBetween(history: seq<Note>, id: string, i: int, j: int) {
    exists k :: 0 <= i < k < j <= |history| && history[k] == Acked(id)
  }

  // Between two batches of one delivery there is an acknowledgement of it.
  ghost predicate OnceUntilAcked(history: seq<Note>) {
    forall id, i, j :: 0 <= i < j < |history| && Delivers(history[i], id) && Delivers(history[j], id) ==>
      AckedBetween(history, id, i, j)
  }

  ghost predicate HeadsFaithful(w: World) {
    forall drive :: Faithful(HeadOf(w.db, drive), DriveLog(w.history, drive))
  }

  ghost predicate DeliveriesOpen(w: World) {
    forall id :: id in w.db.deliveries <==> Open(w.history, id)
  }

  ghost predicate Bounded(w: World, retention: nat) {
    forall drive :: |HeadOf(w.db, drive).events| <= retention
  }

  ghost predicate Inv(w: World, retention: nat) {
    HeadsFaithful(w) && DeliveriesOpen(w) && OnceUntilAcked(w.history) && Bounded(w, retention)
  }

  lemma {:induction false} ClosedIsAcked(history: seq<Note>, id: string, i: nat)
    requires !Open(history, id) && i < |history| && Delivers(history[i], id)
    ensures AckedBetween(history, id, i, |history|)
    decreases |history|
  {
    var last, front := |history| - 1, history[..|history| - 1];
    if history[last] == Acked(id) {
    } else {
      ClosedIsAcked(front, id, i);
      var k :| i < k < last && front[k] == Acked(id);
      assert history[k] == Acked(id);
    }
  }

  lemma OnceStep(history: seq<Note>, n: Note)
    requires OnceUntilAcked(history)
    requires n.Batch? && n.delivery.Some? ==> !Open(history, n.delivery.value)
    ensures OnceUntilAcked(history + [n])
  {
    var after := history + [n];
    forall id, i, j | 0 <= i < j < |after| && Delivers(after[i], id) && Delivers(after[j], id)
      ensures AckedBetween(after, id, i, j)
    {
      if j == |history| {
        ClosedIsAcked(history, id, i);
      } else {
        assert Delivers(history[i], id) && Delivers(history[j], id);
        assert AckedBetween(history, id, i, j);
      }
      var k :| i < k < j && history[k] == Acked(id);
      assert after[k] == Acked(id);
    }
  }

  lemma DriveLogStep(history: seq<Note>, n: Note, drive: string)
    ensures DriveLog(history + [n], drive) == DriveLog(history, drive) + NoteEntries(n, drive)
  {
    assert (history + [n])[..|history|] == history;
  }

  lemma OpenStep(history: seq<Note>, n: Note, id: string)
    ensures Open(history + [n], id) <==> Delivers(n, id) || (n != Acked(id) && Open(history, id))
  {
    assert (history + [n])[..|history|] == history;
  }

  ghost predicate Idle(w: World, w': World, drive: string) {
    HeadOf(w'.db, drive) == HeadOf(w.db, drive) && DriveLog(w'.history, drive) == DriveLog(w.history, drive)
  }

  ghost predicate Commits(w: World, op: Op, w': World, drive: string, retention: nat) {
    && op.CommitOp? && op.drive == drive
    && var h := HeadOf(w.db, drive);
       var r := CommitHead(h, op.records, op.legacy, op.clock, op.refuses, retention);
       && r.Some?
       && HeadOf(w'.db, drive) == r.value.0
       && DriveLog(w'.history, drive) == LogAfter(DriveLog(w.history, drive), h, op.legacy, r.value.1)
  }

  lemma CommitMoves(w: World, op: Op, retention: nat, r: (Head, seq<Event>)) returns (n: Note)
    requires op.CommitOp? && !Redelivered(w.db, op.delivery)
    requires CommitHead(HeadOf(w.db, op.drive), op.records, op.legacy, op.clock, op.refuses, retention) == Some(r)
    ensures n == Batch(op.drive, Imported(HeadOf(w.db, op.drive), op.legacy), r.1, op.delivery)
    ensures Next(w, op, retention).history == w.history + [n]
    ensures Next(w, op, retention).db.heads == w.db.heads[op.drive := r.0]
  {
    n := Batch(op.drive, Imported(HeadOf(w.db, op.drive), op.legacy), r.1, op.delivery);
  }

  lemma CommitShape(w: World, op: Op, retention: nat, drive: string)
    requires op.CommitOp? && !Redelivered(w.db, op.delivery)
    ensures var w' := Next(w, op, retention);
            Idle(w, w', drive) || Commits(w, op, w', drive, retention)
  {
    var h := HeadOf(w.db, op.drive);
    var r := CommitHead(h, op.records, op.legacy, op.clock, op.refuses, retention);
    if r.Some? {
      var n := CommitMoves(w, op, retention, r.value);
      DriveLogStep(w.history, n, drive);
      var log := DriveLog(w.history, drive);
      if drive == op.drive {
        assert log + NoteEntries(n, drive) == LogAfter(log, h, op.legacy, r.value.1);
      } else {
        assert log + NoteEntries(n, drive) == log;
      }
    }
  }

  // A step leaves a drive's journal alone or is one successful commit to it.
  lemma StepShape(w: World, op: Op, retention: nat, drive: string)
    ensures var w' := Next(w, op, retention);
            Idle(w, w', drive) || Commits(w, op, w', drive, retention)
  {
    var w' := Next(w, op, retention);
    if op.PutReceipt? {
    } else if op.AckOp? {
      DriveLogStep(w.history, Acked(op.id), drive);
    } else if !Redelivered(w.db, op.delivery) {
      CommitShape(w, op, retention, drive);
    }
  }

  lemma HeadStep(w: World, op: Op, retention: nat, drive: string)
    requires var h := HeadOf(w.db, drive); Faithful(h, DriveLog(w.history, drive)) && |h.events| <= retention
    ensures var w' := Next(w, op, retention);
            var h := HeadOf(w'.db, drive);
            Faithful(h, DriveLog(w'.history, drive)) && |h.events| <= retention
  {
    StepShape(w, op, retention, drive);
    if Commits(w, op, Next(w, op, retention), drive, retention) {
      CommitKeeps(HeadOf(w.db, drive), DriveLog(w.history, drive), op.records, op.legacy, op.clock, op.refuses, retention);
    }
  }

  lemma HeadsStep(w: World, op: Op, retention: nat)
    requires HeadsFaithful(w) && Bounded(w, retention)
    ensures HeadsFaithful(Next(w, op, retention)) && Bounded(Next(w, op, retention), retention)
  {
    forall drive
      ensures var h := HeadOf(Next(w, op, retention).db, drive);
              Faithful(h, DriveLog(Next(w, op, retention).history, drive)) && |h.events| <= retention
    {
      assert Faithful(HeadOf(w.db, drive), DriveLog(w.history, drive));
      HeadStep(w, op, retention, drive);
    }
  }

  lemma DeliveriesStep(w: World, op: Op, retention: nat)
    requires DeliveriesOpen(w) && OnceUntilAcked(w.history)
    ensures DeliveriesOpen(Next(w, op, retention)) && OnceUntilAcked(Next(w, op, retention).history)
  {
    var w' := Next(w, op, retention);
    if w'.history != w.history {
      var n := w'.history[|w.history|];
      forall id ensures id in w'.db.deliveries <==> Open(w'.history, id) {
        OpenStep(w.history, n, id);
      }
      OnceStep(w.history, n);
    } else {
      assert w'.db.deliveries == w.db.deliveries;
    }
  }

  // After any run: each journal is faithful to everything it ever held, at most
  // the retention number of events is left in it, the delivery tokens are exactly
  // the unacknowledged deliveries, and none of those was committed twice.
  lemma {:induction false} RunsKeepInv(ops: seq<Op>, retention: nat)
    ensures Inv(Run(ops, retention), retention)
    decreases |ops|
  {
    if ops != [] {
      RunsKeepInv(ops[..|ops| - 1], retention);
      HeadsStep(Run(ops[..|ops| - 1], retention), ops[|ops| - 1], retention);
      DeliveriesStep(Run(ops[..|ops| - 1], retention), ops[|ops| - 1], retention);
    }
  }

  ghost predicate LegacyNotAllNegative(op: Op) {
    op.CommitOp? ==> NotAllNegative(op.legacy)
  }

  lemma FloorStep(w: World, op: Op, retention: nat, drive: string)
    requires Faithful(HeadOf(w.db, drive), DriveLog(w.history, drive)) && LegacyNotAllNegative(op)
    requires var h := HeadOf(w.db, drive); h.floor <= h.latest && 0 <= h.latest
    ensures var h := HeadOf(Next(w, op, retention).db, drive); h.floor <= h.latest && 0 <= h.latest
  {
    StepShape(w, op, retention, drive);
    if Commits(w, op, Next(w, op, retention), drive, retention) {
      CommitKeepsFloor(HeadOf(w.db, drive), DriveLog(w.history, drive), op.records, op.legacy, op.clock, op.refuses, retention);
    }
  }

  // If no legacy log has only negative timestamps, no run puts a floor above its head.
  lemma {:induction false} RunsKeepFloor(ops: seq<Op>, retention: nat, drive: string)
    requires forall i :: 0 <= i < |ops| ==> LegacyNotAllNegative(ops[i])
    ensures var h := HeadOf(Run(ops, retention).db, drive);
            h.floor <= h.latest && 0 <= h.latest
    decreases |ops|
  {
    if ops != [] {
      var front, op := ops[..|ops| - 1], ops[|ops| - 1];
      RunsKeepFloor(front, retention, drive);
      RunsKeepInv(front, retention);
      var w := Run(front, retention);
      assert Faithful(HeadOf(w.db, drive), DriveLog(w.history, drive)) && LegacyNotAllNegative(op);
      FloorStep(w, op, retention, drive);
    }
  }

  // A sequence the journal allocates is above every sequence it ever held, so
  // none is reused, also after the event that had it was pruned.
  lemma {:induction false} SequencesNeverReused(ops: seq<Op>, retention: nat, drive: string, i: nat, j: nat)
    requires i < j < |DriveLog(Run(ops, retention).history, drive)|
    ensures var log := DriveLog(Run(ops, retention).history, drive);
            && log[i].event.ts != log[j].event.ts
            && (!log[j].imported ==> log[i].event.ts < log[j].event.ts)
  {
    RunsKeepInv(ops, retention);
    assert Faithful(HeadOf(Run(ops, retention).db, drive), DriveLog(Run(ops, retention).history, drive));
  }

  // A reader at or above the floor misses nothing: whatever the journal held above
  // its anchor is still there, and nothing else is.
  lemma {:induction false} NothingMissingAboveFloor(ops: seq<Op>, retention: nat, drive: string, since: int, e: Event)
    requires HeadOf(Run(ops, retention).db, drive).floor <= since
    ensures var w := Run(ops, retention);
            e.ts > since ==> (Stored(HeadOf(w.db, drive).events, e) <==> Logged(DriveLog(w.history, drive), e))
  {
    RunsKeepInv(ops, retention);
    var w := Run(ops, retention);
    var h, log := HeadOf(w.db, drive), DriveLog(w.history, drive);
    assert Faithful(h, log);
    if e.ts > since && Logged(log, e) {
      var i :| 0 <= i < |log| && log[i].event == e;
      assert Stored(h.events, log[i].event);
    }
  }

  // Retrying a delivery whose commit would succeed adds its events again exactly
  // when it was acknowledged (or never committed) before; otherwise it succeeds and
  // leaves its records as they were.
  lemma RetryIsNoOpWhileOpen(ops: seq<Op>, op: Op, retention: nat)
    requires op.CommitOp? && op.delivery.Some?
    requires var w := Run(ops, retention);
             CommitHead(HeadOf(w.db, op.drive), op.records, op.legacy, op.clock, op.refuses, retention).Some?
    ensures var w := Run(ops, retention);
            && (Next(w, op, retention) == w <==> Open(w.history, op.delivery.value))
            && (Open(w.history, op.delivery.value) ==>
                  Commit(w.db, op.drive, op.records, op.delivery, op.receipts, op.legacy, op.clock, op.refuses, retention)
                  == Some(Committed(w.db, op.records)))
  {
    RunsKeepInv(ops, retention);
    var w := Run(ops, retention);
    assert Redelivered(w.db, op.delivery) <==> Open(w.history, op.delivery.value);
    if !Redelivered(w.db, op.delivery) {
      var r := CommitHead(HeadOf(w.db, op.drive), op.records, op.legacy, op.clock, op.refuses, retention).value;
      var n := CommitMoves(w, op, retention, r);
      assert |Next(w, op, retention).history| == |w.history| + 1;
    }
  }

  // Receipts

  predicate Consumes(receipts: seq<Receipt>, key: string, payload: string) {
    Receipt(key, payload) in receipts
  }

  lemma {:induction false} DeleteReceiptsExactly(table: map<string, string>, receipts: seq<Receipt>, key: string)
    ensures var left := DeleteReceipts(table, receipts);
            && (key in left <==> key in table && !Consumes(receipts, key, table[key]))
            && (key in left ==> left[key] == table[key])
    decreases |receipts|
  {
    if receipts != [] {
      var r := receipts[0];
      var next := if r.key in table && table[r.key] == r.payload then table - {r.key} else table;
      DeleteReceiptsExactly(next, receipts[1..], key);
      assert receipts == [r] + receipts[1..];
      if key in table {
        assert Consumes(receipts, key, table[key]) <==> r == Receipt(key, table[key]) || Consumes(receipts[1..], key, table[key]);
      }
    }
  }

  ghost predicate LeavesReceipt(op: Op, key: string, payload: string) {
    match op
    case CommitOp(_, _, _, receipts, _, _, _) => !Consumes(receipts, key, payload)
    case PutReceipt(other, _) => other != key
    case AckOp(_) => true
  }

  // A receipt that was put stays, with its payload, until a commit names it with that
  // payload or another is put in its place.
  lemma {:induction false} ReceiptStaysUntilConsumed(before: seq<Op>, key: string, payload: string, ops: seq<Op>, retention: nat)
    requires forall op :: op in ops ==> LeavesReceipt(op, key, payload)
    ensures var w := Run(before + [PutReceipt(key, payload)] + ops, retention);
            key in w.db.receipts && w.db.receipts[key] == payload
    decreases |ops|
  {
    var all := before + [PutReceipt(key, payload)] + ops;
    if ops == [] {
      assert all[..|all| - 1] == before && all[|all| - 1] == PutReceipt(key, payload);
    } else {
      var n := |ops| - 1;
      assert all[..|all| - 1] == before + [PutReceipt(key, payload)] + ops[..n];
      var op := all[|all| - 1];
      assert op == ops[n] && op in ops;
      ReceiptStaysUntilConsumed(before, key, payload, ops[..n], retention);
      if op.CommitOp? {
        var w := Run(before + [PutReceipt(key, payload)] + ops[..n], retention);
        DeleteReceiptsExactly(w.db.receipts, op.receipts, key);
      }
    }
  }

  // The step committed every one of these records, in order, to the history.
  ghost predicate CommittedAll(before: World, after: World, drive: string, records: seq<Event>) {
    && |after.history| == |before.history| + 1
    && before.history <= after.history
    && var n := after.history[|before.history|];
       n.Batch? && n.drive == drive && SameButStamp(records, n.stamped)
  }

  // A receipt disappears only in a transaction that also committed the events of
  // the commit that named it, and only with the payload that commit had read.
  lemma ReceiptsGoWithTheirEvents(ops: seq<Op>, op: Op, retention: nat, key: string)
    requires key in Run(ops, retention).db.receipts
    requires key !in Next(Run(ops, retention), op, retention).db.receipts
    ensures var w := Run(ops, retention);
            && op.CommitOp?
            && Consumes(op.receipts, key, w.db.receipts[key])
            && CommittedAll(w, Next(w, op, retention), op.drive, op.records)
  {
    var w := Run(ops, retention);
    if op.CommitOp? {
      DeleteReceiptsExactly(w.db.receipts, op.receipts, key);
      RunsKeepInv(ops, retention);
      var h, log := HeadOf(w.db, op.drive), DriveLog(w.history, op.drive);
      assert Faithful(h, log);
      CommitKeeps(h, log, op.records, op.legacy, op.clock, op.refuses, retention);
    }
  }
}
