// Delivery of the inventory outbox to the journal. A row is appended to the
// journal under its id, then deleted from the outbox, then acknowledged; the
// process may stop between any two of these steps, or an append may fail.
module Outbox {
  import opened Prelude
  import opened Journal
  import opened JournalHistory
  import opened JournalRuns

  datatype Row = Row(id: string, events: seq<Event>)

  // Where the one deliverer of the drive is; list is what it loaded and has left.
  datatype Phase =
    | Resting
    | Sending(list: seq<Row>)
    | Deleting(list: seq<Row>)
    | Acknowledging(list: seq<Row>)

  // queued is every row ever put in the outbox, in order.
  datatype State = State(world: World, queued: seq<Row>, rows: seq<Row>, phase: Phase)

  datatype Step =
    | Enqueue(id: string, events: seq<Event>)
    | Deliver(legacy: Legacy, clock: Clock, refuses: Refusals)
    | Crash
    | Other(op: Op)

  // The drive, the ids its outbox draws (random UUIDs, never shared), and the retention.
  datatype Setting = Setting(drive: string, ours: string -> bool, retention: nat)

  function Unstamped(es: seq<Event>): (r: seq<Event>)
    ensures |r| == |es| && forall i :: 0 <= i < |es| ==> r[i] == es[i].(ts := 0)
  {
    seq(|es|, i requires 0 <= i < |es| => es[i].(ts := 0))
  }

  predicate HasId(rows: seq<Row>, id: string) {
    exists i :: 0 <= i < |rows| && rows[i].id == id
  }

  function DeleteRow(rows: seq<Row>, id: string): seq<Row> {
    if rows == [] then []
    else if rows[0].id == id then DeleteRow(rows[1..], id)
    else [rows[0]] + DeleteRow(rows[1..], id)
  }

  // Steps of others: they neither deliver nor acknowledge our ids.
  predicate Foreign(op: Op, ours: string -> bool) {
    match op
    case CommitOp(_, _, delivery, _, _, _, _) => delivery.Some? ==> !ours(delivery.value)
    case AckOp(id) => !ours(id)
    case PutReceipt(_, _) => true
  }

  function DeliverStep(c: Setting, s: State, legacy: Legacy, clock: Clock, refuses: Refusals): State {
    match s.phase
    case Resting => s.(phase := Sending(s.rows))
    case Sending(list) =>
      if list == [] then s.(phase := Resting)
      else
        var op := CommitOp(c.drive, list[0].events, Some(list[0].id), [], legacy, clock, refuses);
        var failed := Commit(s.world.db, c.drive, list[0].events, Some(list[0].id), [], legacy, clock, refuses, c.retention).None?;
        s.(world := Next(s.world, op, c.retention), phase := if failed then Resting else Deleting(list))
    case Deleting(list) =>
      if list == [] then s else s.(rows := DeleteRow(s.rows, list[0].id), phase := Acknowledging(list))
    case Acknowledging(list) =>
      if list == [] then s
      else s.(world := Next(s.world, AckOp(list[0].id), c.retention), phase := Sending(list[1..]))
  }

  function StepOf(c: Setting, s: State, step: Step): State {
    match step
    case Enqueue(id, events) =>
      if events == [] || !c.ours(id) || HasId(s.queued, id) then s
      else
        var row := Row(id, Unstamped(events));
        s.(queued := s.queued + [row], rows := s.rows + [row])
    case Deliver(legacy, clock, refuses) => DeliverStep(c, s, legacy, clock, refuses)
    case Crash => s.(phase := Resting)
    case Other(op) => if Foreign(op, c.ours) then s.(world := Next(s.world, op, c.retention)) else s
  }

  function RunOf(c: Setting, steps: seq<Step>): State {
    if steps == [] then State(Start(), [], [], Resting)
    else StepOf(c, RunOf(c, steps[..|steps| - 1]), steps[|steps| - 1])
  }

  function DeliveredBy(n: Note, ours: string -> bool): seq<Row> {
    if n.Batch? && n.delivery.Some? && ours(n.delivery.value) then [Row(n.delivery.value, Unstamped(n.stamped))] else []
  }

  // What the history holds of our deliveries, in commit order.
  function Delivered(history: seq<Note>, ours: string -> bool): seq<Row> {
    if history == [] then []
    else
      var n := history[|history| - 1];
      Delivered(history[..|history| - 1], ours) + DeliveredBy(n, ours)
  }

  lemma DeliveredStep(history: seq<Note>, n: Note, ours: string -> bool)
    ensures Delivered(history + [n], ours) == Delivered(history, ours) + DeliveredBy(n, ours)
  {
    assert (history + [n])[..|history|] == history;
  }

  // Invariant

  ghost predicate DistinctIds(rows: seq<Row>) {
    forall i, j :: 0 <= i < j < |rows| ==> rows[i].id != rows[j].id
  }

  ghost predicate AllOurs(c: Setting, rows: seq<Row>) {
    forall i :: 0 <= i < |rows| ==> c.ours(rows[i].id) && rows[i].events == Unstamped(rows[i].events)
  }

  // Our tokens in the database are among the first m queued ids.
  ghost predicate TokensWithin(c: Setting, s: State, m: nat)
    requires m <= |s.queued|
  {
    forall id :: c.ours(id) && id in s.world.db.deliveries ==> HasId(s.queued[..m], id)
  }

  ghost predicate PhaseFits(s: State, gone: nat, m: nat)
    requires gone <= m <= |s.queued|
  {
    match s.phase
    case Resting => true
    case Sending(list) => list <= s.queued[gone..]
    case Deleting(list) => list != [] && list <= s.queued[gone..] && m == gone + 1
    case Acknowledging(list) => list != [] && gone > 0 && list <= s.queued[gone - 1..] && m == gone
  }

  // The journal holds the first m queued rows, in order and once each; the outbox
  // holds all but the first gone; at most one row is in both.
  ghost predicate ExactlyOnce(c: Setting, s: State, gone: nat, m: nat) {
    && gone <= m <= |s.queued| && m <= gone + 1
    && s.rows == s.queued[gone..]
    && Delivered(s.world.history, c.ours) == s.queued[..m]
    && (m == gone + 1 ==> s.queued[gone].id in s.world.db.deliveries)
    && TokensWithin(c, s, m)
  }

  ghost predicate Inv(c: Setting, s: State, gone: nat, m: nat) {
    && HeadsFaithful(s.world) && Bounded(s.world, c.retention)
    && DistinctIds(s.queued) && AllOurs(c, s.queued)
    && ExactlyOnce(c, s, gone, m)
    && PhaseFits(s, gone, m)
  }

  lemma {:induction false} DeleteAbsent(rows: seq<Row>, id: string)
    requires !HasId(rows, id)
    ensures DeleteRow(rows, id) == rows
    decreases |rows|
  {
    if rows != [] {
      assert rows[0].id != id;
      forall i | 0 <= i < |rows[1..]| ensures rows[1..][i].id != id { assert rows[1..][i] == rows[i + 1]; }
      DeleteAbsent(rows[1..], id);
    }
  }

  lemma EnqueueKeeps(c: Setting, s: State, row: Row, gone: nat, m: nat)
    requires Inv(c, s, gone, m) && c.ours(row.id) && !HasId(s.queued, row.id) && row.events == Unstamped(row.events)
    ensures Inv(c, s.(queued := s.queued + [row], rows := s.rows + [row]), gone, m)
  {
    var s' := s.(queued := s.queued + [row], rows := s.rows + [row]);
    assert s'.queued[..m] == s.queued[..m];
    assert s'.queued[gone..] == s.queued[gone..] + [row];
    if gone > 0 { assert s'.queued[gone - 1..] == s.queued[gone - 1..] + [row]; }
  }

  // A committed note that does not touch our deliveries.
  ghost predicate Unrelated(c: Setting, w: World, w': World) {
    && Delivered(w'.history, c.ours) == Delivered(w.history, c.ours)
    && forall id :: c.ours(id) ==> (id in w'.db.deliveries <==> id in w.db.deliveries)
  }

  lemma ForeignUnrelated(c: Setting, w: World, op: Op)
    requires Foreign(op, c.ours)
    ensures Unrelated(c, w, Next(w, op, c.retention))
  {
    var w' := Next(w, op, c.retention);
    if w'.history != w.history {
      DeliveredStep(w.history, w'.history[|w.history|], c.ours);
    }
  }

  lemma UnrelatedKeeps(c: Setting, s: State, w': World, gone: nat, m: nat)
    requires Inv(c, s, gone, m) && Unrelated(c, s.world, w') && HeadsFaithful(w') && Bounded(w', c.retention)
    ensures Inv(c, s.(world := w'), gone, m)
  {
    if m == gone + 1 { assert c.ours(s.queued[gone].id); }
  }

  lemma NotYetTaken(c: Setting, s: State, gone: nat, m: nat, i: nat)
    requires Inv(c, s, gone, m) && m <= i < |s.queued|
    ensures s.queued[i].id !in s.world.db.deliveries
  {
    forall k | 0 <= k < m ensures s.queued[..m][k].id != s.queued[i].id {
      assert s.queued[..m][k] == s.queued[k];
    }
    assert !HasId(s.queued[..m], s.queued[i].id);
  }

  // What a commit of the next row does to history and tokens.
  lemma AppendRow(c: Setting, w: World, row: Row, op: Op)
    requires HeadsFaithful(w) && c.ours(row.id) && row.id !in w.db.deliveries && row.events == Unstamped(row.events)
    requires op.CommitOp? && op.drive == c.drive && op.records == row.events && op.delivery == Some(row.id) && op.receipts == []
    requires CommitHead(HeadOf(w.db, c.drive), op.records, op.legacy, op.clock, op.refuses, c.retention).Some?
    ensures var w' := Next(w, op, c.retention);
            && Delivered(w'.history, c.ours) == Delivered(w.history, c.ours) + [row]
            && w'.db.deliveries == w.db.deliveries + {row.id}
  {
    var h, log := HeadOf(w.db, c.drive), DriveLog(w.history, c.drive);
    assert Faithful(h, log);
    CommitKeeps(h, log, op.records, op.legacy, op.clock, op.refuses, c.retention);
    var r := CommitHead(h, op.records, op.legacy, op.clock, op.refuses, c.retention).value;
    var n := CommitMoves(w, op, c.retention, r);
    DeliveredStep(w.history, n, c.ours);
    assert Unstamped(r.1) == Unstamped(row.events);
  }

  lemma AppendedFits(c: Setting, s: State, gone: nat, w': World, row: Row)
    requires Inv(c, s, gone, gone) && gone < |s.queued| && row == s.queued[gone]
    requires s.phase.Sending? && s.phase.list != []
    requires Delivered(w'.history, c.ours) == Delivered(s.world.history, c.ours) + [row]
    requires w'.db.deliveries == s.world.db.deliveries + {row.id}
    requires HeadsFaithful(w') && Bounded(w', c.retention)
    ensures Inv(c, s.(world := w', phase := Deleting(s.phase.list)), gone, gone + 1)
  {
    var s' := s.(world := w', phase := Deleting(s.phase.list));
    assert s.queued[..gone + 1] == s.queued[..gone] + [row];
    forall id | c.ours(id) && id in w'.db.deliveries ensures HasId(s'.queued[..gone + 1], id) {
      if id == row.id {
        assert s'.queued[..gone + 1][gone].id == id;
      } else {
        var k :| 0 <= k < gone && s.queued[..gone][k].id == id;
        assert s'.queued[..gone + 1][k].id == id;
      }
    }
  }

  lemma AppendKeeps(c: Setting, s: State, gone: nat, m: nat, legacy: Legacy, clock: Clock, refuses: Refusals) returns (m': nat)
    requires Inv(c, s, gone, m) && s.phase.Sending? && s.phase.list != []
    ensures Inv(c, DeliverStep(c, s, legacy, clock, refuses), gone, m')
  {
    var row := s.phase.list[0];
    assert row == s.queued[gone];
    var op := CommitOp(c.drive, row.events, Some(row.id), [], legacy, clock, refuses);
    HeadsStep(s.world, op, c.retention);
    m' := m;
    if m == gone {
      NotYetTaken(c, s, gone, m, gone);
      if CommitHead(HeadOf(s.world.db, c.drive), row.events, legacy, clock, refuses, c.retention).Some? {
        AppendRow(c, s.world, row, op);
        m' := gone + 1;
        AppendedFits(c, s, gone, Next(s.world, op, c.retention), row);
      }
    }
  }

  lemma DeleteKeeps(c: Setting, s: State, gone: nat, m: nat)
    requires Inv(c, s, gone, m) && s.phase.Deleting?
    ensures Inv(c, s.(rows := DeleteRow(s.rows, s.phase.list[0].id), phase := Acknowledging(s.phase.list)), gone + 1, m)
  {
    var row, rest := s.queued[gone], s.queued[gone + 1..];
    assert s.phase.list[0] == row && s.rows == [row] + rest;
    forall i | 0 <= i < |rest| ensures rest[i].id != row.id {
      assert rest[i] == s.queued[gone + 1 + i];
    }
    assert s.rows[1..] == rest;
    DeleteAbsent(rest, row.id);
  }

  lemma AcknowledgeKeeps(c: Setting, s: State, gone: nat, m: nat)
    requires Inv(c, s, gone, m) && s.phase.Acknowledging?
    ensures Inv(c, s.(world := Next(s.world, AckOp(s.phase.list[0].id), c.retention), phase := Sending(s.phase.list[1..])), gone, m)
  {
    var op := AckOp(s.phase.list[0].id);
    HeadsStep(s.world, op, c.retention);
    DeliveredStep(s.world.history, Acked(op.id), c.ours);
    assert s.queued[gone - 1..][1..] == s.queued[gone..];
  }

  lemma StepKeeps(c: Setting, s: State, step: Step, gone: nat, m: nat) returns (gone': nat, m': nat)
    requires Inv(c, s, gone, m)
    ensures Inv(c, StepOf(c, s, step), gone', m')
  {
    gone', m' := gone, m;
    match step
    case Enqueue(id, events) =>
      if events != [] && c.ours(id) && !HasId(s.queued, id) {
        assert Unstamped(Unstamped(events)) == Unstamped(events);
        EnqueueKeeps(c, s, Row(id, Unstamped(events)), gone, m);
      }
    case Crash =>
    case Other(op) =>
      if Foreign(op, c.ours) {
        ForeignUnrelated(c, s.world, op);
        HeadsStep(s.world, op, c.retention);
        UnrelatedKeeps(c, s, Next(s.world, op, c.retention), gone, m);
      }
    case Deliver(legacy, clock, refuses) =>
      match s.phase {
        case Resting =>
        case Sending(list) => if list != [] { m' := AppendKeeps(c, s, gone, m, legacy, clock, refuses); }
        case Deleting(list) => DeleteKeeps(c, s, gone, m); gone' := gone + 1;
        case Acknowledging(list) => AcknowledgeKeeps(c, s, gone, m);
      }
  }

  // In every run, with crashes anywhere, the journal has received exactly a
  // prefix of the queued rows, in order, each once with its own events, and that
  // prefix covers every row no longer in the outbox and at most one that still is.
  lemma {:induction false} RunsDeliverExactlyOnce(c: Setting, steps: seq<Step>) returns (gone: nat, m: nat)
    ensures Inv(c, RunOf(c, steps), gone, m)
    decreases |steps|
  {
    if steps == [] {
      gone, m := 0, 0;
      var s := RunOf(c, steps);
      forall drive ensures Faithful(HeadOf(s.world.db, drive), DriveLog(s.world.history, drive)) {
      }
    } else {
      gone, m := RunsDeliverExactlyOnce(c, steps[..|steps| - 1]);
      gone, m := StepKeeps(c, RunOf(c, steps[..|steps| - 1]), steps[|steps| - 1], gone, m);
    }
  }

  // Once the outbox is empty the journal has received all of it.
  lemma DrainedMeansDelivered(c: Setting, steps: seq<Step>)
    requires RunOf(c, steps).rows == []
    ensures Delivered(RunOf(c, steps).world.history, c.ours) == RunOf(c, steps).queued
  {
    var gone, m := RunsDeliverExactlyOnce(c, steps);
    var s := RunOf(c, steps);
    assert |s.rows| == |s.queued| - gone;
    assert s.queued[..m] == s.queued;
  }

  // Progress

  // The queued row has the id and, in order, the events it was given, with no stamp yet;
  // without events nothing is queued.
  lemma EnqueueExactly(c: Setting, s: State, id: string, events: seq<Event>) returns (row: Row)
    requires c.ours(id) && !HasId(s.queued, id)
    ensures StepOf(c, s, Enqueue(id, events)) ==
            if events == [] then s else s.(queued := s.queued + [row], rows := s.rows + [row])
    ensures row.id == id && |row.events| == |events|
    ensures forall i :: 0 <= i < |events| ==> SameButStamp([events[i]], [row.events[i]]) && row.events[i].ts == 0
  {
    row := Row(id, Unstamped(events));
  }

  // What the system supplies to one step of the deliverer.
  datatype Supply = Supply(legacy: Legacy, clock: Clock, refuses: Refusals)

  function Pass(c: Setting, s: State, supplies: seq<Supply>): State
    decreases |supplies|
  {
    if supplies == [] then s
    else Pass(c, DeliverStep(c, s, supplies[0].legacy, supplies[0].clock, supplies[0].refuses), supplies[1..])
  }

  // No commit on the way fails.
  ghost predicate Undisturbed(c: Setting, s: State, supplies: seq<Supply>)
    decreases |supplies|
  {
    supplies == [] ||
    var e := supplies[0];
    && (s.phase.Sending? && s.phase.list != [] ==>
          Commit(s.world.db, c.drive, s.phase.list[0].events, Some(s.phase.list[0].id), [], e.legacy, e.clock, e.refuses, c.retention).Some?)
    && Undisturbed(c, DeliverStep(c, s, e.legacy, e.clock, e.refuses), supplies[1..])
  }

  // A commit that fails ends the pass, with rows and journal as they were.
  lemma FailedCommitEndsPass(c: Setting, s: State, e: Supply)
    requires s.phase.Sending? && s.phase.list != []
    requires Commit(s.world.db, c.drive, s.phase.list[0].events, Some(s.phase.list[0].id), [], e.legacy, e.clock, e.refuses, c.retention).None?
    ensures DeliverStep(c, s, e.legacy, e.clock, e.refuses) == s.(phase := Resting)
  {}

  lemma DeleteFirst(rows: seq<Row>)
    requires rows != [] && DistinctIds(rows)
    ensures DeleteRow(rows, rows[0].id) == rows[1..]
  {
    forall i | 0 <= i < |rows[1..]| ensures rows[1..][i].id != rows[0].id {
      assert rows[1..][i] == rows[i + 1];
    }
    DeleteAbsent(rows[1..], rows[0].id);
  }

  // One row takes three steps: append, delete, acknowledge.
  lemma {:induction false} OneRow(c: Setting, s: State, supplies: seq<Supply>) returns (t: State)
    requires DistinctIds(s.rows) && s.rows != [] && s.phase == Sending(s.rows)
    requires |supplies| >= 3 && Undisturbed(c, s, supplies)
    ensures Pass(c, s, supplies) == Pass(c, t, supplies[3..]) && Undisturbed(c, t, supplies[3..])
    ensures t.rows == s.rows[1..] && t.queued == s.queued && t.phase == Sending(t.rows)
  {
    var a, b, d := supplies[0], supplies[1], supplies[2];
    var sent := DeliverStep(c, s, a.legacy, a.clock, a.refuses);
    assert sent.phase == Deleting(s.rows) && sent.rows == s.rows;
    DeleteFirst(s.rows);
    var deleted := DeliverStep(c, sent, b.legacy, b.clock, b.refuses);
    t := DeliverStep(c, deleted, d.legacy, d.clock, d.refuses);
    var two, one := supplies[1..], supplies[1..][1..];
    assert one[1..] == supplies[3..] && two[0] == b && one[0] == d;
    assert Undisturbed(c, sent, two) && Undisturbed(c, deleted, one);
    assert Pass(c, s, supplies) == Pass(c, sent, two) == Pass(c, deleted, one) == Pass(c, t, one[1..]);
  }

  lemma {:induction false} AllRows(c: Setting, s: State, supplies: seq<Supply>)
    requires DistinctIds(s.rows) && s.phase == Sending(s.rows)
    requires |supplies| == 3 * |s.rows| && Undisturbed(c, s, supplies)
    ensures var t := Pass(c, s, supplies); t.rows == [] && t.queued == s.queued
    decreases |supplies|
  {
    if s.rows != [] {
      var t := OneRow(c, s, supplies);
      assert DistinctIds(t.rows);
      AllRows(c, t, supplies[3..]);
    }
  }

  ghost function Deliveries(supplies: seq<Supply>): (steps: seq<Step>)
    ensures |steps| == |supplies|
  {
    seq(|supplies|, i requires 0 <= i < |supplies| => Deliver(supplies[i].legacy, supplies[i].clock, supplies[i].refuses))
  }

  // Passing on from a run is one longer run.
  lemma {:induction false} PassIsRun(c: Setting, steps: seq<Step>, supplies: seq<Supply>)
    ensures Pass(c, RunOf(c, steps), supplies) == RunOf(c, steps + Deliveries(supplies))
    decreases |supplies|
  {
    if supplies == [] {
      assert steps + Deliveries(supplies) == steps;
    } else {
      var e := supplies[0];
      var next := steps + [Deliver(e.legacy, e.clock, e.refuses)];
      assert next[..|steps|] == steps;
      assert next + Deliveries(supplies[1..]) == steps + Deliveries(supplies);
      PassIsRun(c, next, supplies[1..]);
    }
  }

  // A pass that nothing disturbs empties the outbox, after whatever run, and then
  // everything ever queued is in the journal.
  lemma {:induction false} UndisturbedPassDelivers(c: Setting, steps: seq<Step>, supplies: seq<Supply>)
    requires var s := RunOf(c, steps); s.phase == Resting && |supplies| == 1 + 3 * |s.rows| && Undisturbed(c, s, supplies)
    ensures var t := RunOf(c, steps + Deliveries(supplies));
            && t.rows == [] && t.queued == RunOf(c, steps).queued
            && Delivered(t.world.history, c.ours) == t.queued
  {
    var s := RunOf(c, steps);
    var gone, m := RunsDeliverExactlyOnce(c, steps);
    AllRows(c, s.(phase := Sending(s.rows)), supplies[1..]);
    PassIsRun(c, steps, supplies);
    DrainedMeansDelivered(c, steps + Deliveries(supplies));
  }

  // The same after a stop anywhere, in the middle of a pass too.
  lemma {:induction false} PassAfterStopDelivers(c: Setting, steps: seq<Step>, supplies: seq<Supply>)
    requires var s := RunOf(c, steps);
             |supplies| == 1 + 3 * |s.rows| && Undisturbed(c, s.(phase := Resting), supplies)
    ensures var t := RunOf(c, steps + [Crash] + Deliveries(supplies));
            && t.rows == [] && t.queued == RunOf(c, steps).queued
            && Delivered(t.world.history, c.ours) == t.queued
  {
    var stopped := steps + [Crash];
    assert stopped[..|steps|] == steps;
    UndisturbedPassDelivers(c, stopped, supplies);
  }
}
