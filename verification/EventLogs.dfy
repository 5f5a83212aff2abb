// The legacy event logs, one file a drive, and their removal. Every commit to a drive
// not yet imported reads the drive's log; the cleanup commits nothing to it and then
// deletes the file. Other commits, and crashes, may come between any two steps.
module EventLogs {
  import opened Prelude
  import opened Journal
  import opened JournalHistory
  import opened JournalRuns

  // late are the drives whose log was written after the drive's import; removed are
  // the logs deleted, with what they held.
  datatype State = State(world: World, logs: map<string, Legacy>, late: set<string>, removed: set<(string, Legacy)>)

  datatype Step =
    | JournalStep(op: Op)
    | LogWrite(drive: string, content: Legacy)
    | RemoveLog(drive: string)

  // isLog says whether a file is named after a drive's UUID.
  datatype Setting = Setting(isLog: string -> bool, retention: nat)

  function LogAt(logs: map<string, Legacy>, drive: string): Legacy {
    if drive in logs then logs[drive] else Missing
  }

  // The commit reads the log that is there.
  function OnDisk(op: Op, logs: map<string, Legacy>): Op {
    if op.CommitOp? then op.(legacy := LogAt(logs, op.drive)) else op
  }

  function StepOf(c: Setting, s: State, step: Step): State {
    match step
    case JournalStep(op) => s.(world := Next(s.world, OnDisk(op, s.logs), c.retention))
    case LogWrite(drive, content) =>
      s.(logs := s.logs[drive := content],
         late := if HeadOf(s.world.db, drive).imported then s.late + {drive} else s.late)
    case RemoveLog(drive) =>
      // Deleted only after the empty commit, which leaves the drive imported.
      if drive !in s.logs || !c.isLog(drive) || !HeadOf(s.world.db, drive).imported then s
      else s.(logs := s.logs - {drive}, removed := s.removed + {(drive, s.logs[drive])})
  }

  function RunOf(c: Setting, s: State, steps: seq<Step>): State {
    if steps == [] then s else StepOf(c, RunOf(c, s, steps[..|steps| - 1]), steps[|steps| - 1])
  }

  function Fresh(logs: map<string, Legacy>): State {
    State(Start(), logs, {}, {})
  }

  // Invariant

  // The log was read in full, and all its events are in the journal's history.
  ghost predicate TakenOver(log: seq<Entry>, legacy: Legacy) {
    LegacyEvents(legacy).Some? && forall e :: e in LegacyEvents(legacy).value ==> Logged(log, e)
  }

  ghost predicate LogsTakenOver(s: State) {
    forall drive :: drive in s.logs && HeadOf(s.world.db, drive).imported ==>
      drive in s.late || TakenOver(DriveLog(s.world.history, drive), s.logs[drive])
  }

  ghost predicate RemovedTakenOver(s: State) {
    forall r :: r in s.removed ==> r.0 in s.late || TakenOver(DriveLog(s.world.history, r.0), r.1)
  }

  ghost predicate Inv(c: Setting, s: State) {
    HeadsFaithful(s.world) && Bounded(s.world, c.retention) && LogsTakenOver(s) && RemovedTakenOver(s)
  }

  lemma TakenOverStays(log: seq<Entry>, more: seq<Entry>, legacy: Legacy)
    requires TakenOver(log, legacy)
    ensures TakenOver(log + more, legacy)
  {
    forall e | e in LegacyEvents(legacy).value ensures Logged(log + more, e) {
      var i :| 0 <= i < |log| && log[i].event == e;
      assert (log + more)[i] == log[i];
    }
  }

  lemma TakenOverAfter(log: seq<Entry>, h: Head, read: Legacy, stamped: seq<Event>, legacy: Legacy)
    requires TakenOver(log, legacy)
    ensures TakenOver(LogAfter(log, h, read, stamped), legacy)
  {
    TakenOverStays(log, Entries(Imported(h, read), true), legacy);
    TakenOverStays(log + Entries(Imported(h, read), true), Entries(stamped, false), legacy);
  }

  lemma CommitTakesOver(h: Head, log: seq<Entry>, records: seq<Event>, legacy: Legacy, clock: Clock, refuses: Refusals, retention: nat)
    requires Faithful(h, log) && CommitHead(h, records, legacy, clock, refuses, retention).Some?
    ensures var r := CommitHead(h, records, legacy, clock, refuses, retention).value;
            !h.imported ==> TakenOver(LogAfter(log, h, legacy, r.1), legacy)
  {
    if !h.imported {
      var r := CommitHead(h, records, legacy, clock, refuses, retention).value;
      forall e | e in Imported(h, legacy) ensures Logged(LogAfter(log, h, legacy, r.1), e) {
        ImportedIsLogged(h, log, legacy, r.1, e);
      }
    }
  }

  // What one journal step does to a drive's history: what it had taken over it keeps,
  // and if the step imports the drive, the log is taken over.
  lemma DriveStep(w: World, op: Op, logs: map<string, Legacy>, retention: nat, drive: string, legacy: Legacy)
    requires Faithful(HeadOf(w.db, drive), DriveLog(w.history, drive))
    ensures var w' := Next(w, OnDisk(op, logs), retention);
            TakenOver(DriveLog(w.history, drive), legacy) ==> TakenOver(DriveLog(w'.history, drive), legacy)
    ensures var w' := Next(w, OnDisk(op, logs), retention);
            HeadOf(w'.db, drive).imported && !HeadOf(w.db, drive).imported ==>
            TakenOver(DriveLog(w'.history, drive), LogAt(logs, drive))
  {
    var read := OnDisk(op, logs);
    StepShape(w, read, retention, drive);
    if Commits(w, read, Next(w, read, retention), drive, retention) {
      var h, log := HeadOf(w.db, drive), DriveLog(w.history, drive);
      CommitTakesOver(h, log, read.records, read.legacy, read.clock, read.refuses, retention);
      if TakenOver(log, legacy) {
        var r := CommitHead(h, read.records, read.legacy, read.clock, read.refuses, retention).value;
        TakenOverAfter(log, h, read.legacy, r.1, legacy);
      }
    }
  }

  lemma JournalStepKeeps(c: Setting, s: State, op: Op)
    requires Inv(c, s)
    ensures Inv(c, StepOf(c, s, JournalStep(op)))
  {
    var read := OnDisk(op, s.logs);
    var w' := Next(s.world, read, c.retention);
    HeadsStep(s.world, read, c.retention);
    forall drive | drive in s.logs && HeadOf(w'.db, drive).imported
      ensures drive in s.late || TakenOver(DriveLog(w'.history, drive), s.logs[drive])
    {
      assert Faithful(HeadOf(s.world.db, drive), DriveLog(s.world.history, drive));
      DriveStep(s.world, op, s.logs, c.retention, drive, s.logs[drive]);
    }
    forall r | r in s.removed ensures r.0 in s.late || TakenOver(DriveLog(w'.history, r.0), r.1) {
      assert Faithful(HeadOf(s.world.db, r.0), DriveLog(s.world.history, r.0));
      DriveStep(s.world, op, s.logs, c.retention, r.0, r.1);
    }
  }

  lemma StepKeeps(c: Setting, s: State, step: Step)
    requires Inv(c, s)
    ensures Inv(c, StepOf(c, s, step))
  {
    if step.JournalStep? { JournalStepKeeps(c, s, step.op); }
  }

  lemma {:induction false} RunsKeepInv(c: Setting, s: State, steps: seq<Step>)
    requires Inv(c, s)
    ensures Inv(c, RunOf(c, s, steps))
    decreases |steps|
  {
    if steps != [] {
      RunsKeepInv(c, s, steps[..|steps| - 1]);
      StepKeeps(c, RunOf(c, s, steps[..|steps| - 1]), steps[|steps| - 1]);
    }
  }

  lemma FreshInv(c: Setting, logs: map<string, Legacy>)
    ensures Inv(c, Fresh(logs))
  {
    forall drive ensures Faithful(HeadOf(Start().db, drive), DriveLog(Start().history, drive)) {
    }
  }

  // In every run: a log that was removed, and not written after its drive's import, was
  // read in full; each of its events is in the drive's history, and is stored or at or
  // below the floor.
  lemma {:induction false} RemovedLogsAreInJournal(c: Setting, logs: map<string, Legacy>, steps: seq<Step>, drive: string, legacy: Legacy)
    requires (drive, legacy) in RunOf(c, Fresh(logs), steps).removed && drive !in RunOf(c, Fresh(logs), steps).late
    ensures var w := RunOf(c, Fresh(logs), steps).world;
            && TakenOver(DriveLog(w.history, drive), legacy)
            && forall e :: e in LegacyEvents(legacy).value ==>
                 Stored(HeadOf(w.db, drive).events, e) || e.ts <= HeadOf(w.db, drive).floor
  {
    FreshInv(c, logs);
    RunsKeepInv(c, Fresh(logs), steps);
    var s := RunOf(c, Fresh(logs), steps);
    assert (drive, legacy).0 == drive && (drive, legacy).1 == legacy;
    var h, log := HeadOf(s.world.db, drive), DriveLog(s.world.history, drive);
    assert Faithful(h, log);
    forall e | e in LegacyEvents(legacy).value ensures Stored(h.events, e) || e.ts <= h.floor {
      LoggedIsStoredOrPruned(h, log, e);
    }
  }

  // A log written after its drive's import is removed unread: an event of it survives
  // iff the file is not named like a log or the journal had the event anyway.
  lemma LateLogSurvivesExactly(c: Setting, s: State, drive: string, content: Legacy, e: Event)
    requires HeadOf(s.world.db, drive).imported
    requires LegacyEvents(content).Some? && e in LegacyEvents(content).value
    ensures var t := StepOf(c, StepOf(c, s, LogWrite(drive, content)), RemoveLog(drive));
            (drive in t.logs && t.logs[drive] == content) || Logged(DriveLog(t.world.history, drive), e)
            <==> !c.isLog(drive) || Logged(DriveLog(s.world.history, drive), e)
  {
  }

  // The cleanup of the logs

  ghost predicate CleanerStep(step: Step) {
    step.RemoveLog? || (step.JournalStep? && step.op.CommitOp? && step.op.records == [] && step.op.delivery == None && step.op.receipts == [])
  }

  ghost predicate CleansTo(c: Setting, before: State, steps: seq<Step>, after: State) {
    after == RunOf(c, before, steps) && forall i :: 0 <= i < |steps| ==> CleanerStep(steps[i])
  }

  lemma CleansOne(c: Setting, first: State, steps: seq<Step>, s: State, step: Step)
    requires CleansTo(c, first, steps, s) && CleanerStep(step)
    ensures CleansTo(c, first, steps + [step], StepOf(c, s, step))
  {
    assert (steps + [step])[..|steps|] == steps;
  }

  function EmptyCommit(drive: string, legacy: Legacy, clock: Clock, refuses: Refusals): Op {
    CommitOp(drive, [], None, [], legacy, clock, refuses)
  }

  // The empty commit to a drive fails on this log.
  ghost predicate CommitFails(db: Db, drive: string, legacy: Legacy, clock: Clock, refuses: Refusals, retention: nat) {
    Commit(db, drive, [], None, [], legacy, clock, refuses, retention).None?
  }

  lemma CommitImports(h: Head, records: seq<Event>, legacy: Legacy, clock: Clock, refuses: Refusals, retention: nat)
    requires CommitHead(h, records, legacy, clock, refuses, retention).Some?
    ensures CommitHead(h, records, legacy, clock, refuses, retention).value.0.imported
  {
  }

  // The empty commit before a removal adds nothing but the log it imports, and nothing
  // at all to a drive already imported.
  lemma EmptyCommitAddsOnlyTheLog(w: World, drive: string, legacy: Legacy, clock: Clock, refuses: Refusals, retention: nat)
    ensures var after := Next(w, EmptyCommit(drive, legacy, clock, refuses), retention);
            && (after.history == w.history || after.history == w.history + [Batch(drive, Imported(HeadOf(w.db, drive), legacy), [], None)])
            && after.db.deliveries == w.db.deliveries && after.db.receipts == w.db.receipts
            && (HeadOf(w.db, drive).imported ==> DriveLog(after.history, drive) == DriveLog(w.history, drive))
  {
    var after := Next(w, EmptyCommit(drive, legacy, clock, refuses), retention);
    if after.history != w.history {
      assert after.history[..|after.history| - 1] == w.history;
    }
  }

  class EventLogStore {
    const db: StateDb
    const setting: Setting
    var logs: map<string, Legacy>
    ghost var trace: State

    ghost predicate Valid()
      reads this, db
    {
      trace.world.db == db.View() && trace.logs == logs
    }

    constructor (db: StateDb, setting: Setting, logs: map<string, Legacy>)
      requires db.View() == Start().db
      ensures Valid() && trace == Fresh(logs) && this.db == db && this.setting == setting
    {
      this.db, this.setting, this.logs := db, setting, logs;
      trace := Fresh(logs);
    }

    // Commits nothing to the drive, which imports its log, and then deletes the log.
    method RemoveEventLog(drive: string, clock: Clock, refuses: Refusals, ghost first: State, ghost before: seq<Step>)
      returns (ok: bool, ghost steps: seq<Step>)
      requires Valid() && drive in logs && setting.isLog(drive) && CleansTo(setting, first, before, trace)
      modifies this, db
      ensures Valid() && CleansTo(setting, first, steps, trace)
      ensures ok <==> !CommitFails(old(db.View()), drive, old(logs)[drive], clock, refuses, setting.retention)
      ensures if ok then logs == old(logs) - {drive} else logs == old(logs) && db.View() == old(db.View())
    {
      var records := new Event[0];
      assert records[..] == [];
      ok := db.CommitEvents(drive, records, None, [], logs[drive], clock, refuses, setting.retention);
      if !ok {
        return false, before;
      }
      ghost var op := EmptyCommit(drive, logs[drive], clock, refuses);
      CommitImports(HeadOf(trace.world.db, drive), [], logs[drive], clock, refuses, setting.retention);
      CleansOne(setting, first, before, trace, JournalStep(op));
      trace := StepOf(setting, trace, JournalStep(op));
      CleansOne(setting, first, before + [JournalStep(op)], trace, RemoveLog(drive));
      trace := StepOf(setting, trace, RemoveLog(drive));
      steps := before + [JournalStep(op)] + [RemoveLog(drive)];
      logs := logs - {drive};
    }

    // In whatever order the directory lists them; stops at the first log whose commit fails.
    method RemoveEventLogs(clock: Clock, refuses: Refusals) returns (ok: bool, ghost steps: seq<Step>)
      requires Valid()
      modifies this, db
      ensures Valid() && CleansTo(setting, old(trace), steps, trace)
      ensures ok ==> logs == map n | n in old(logs) && !setting.isLog(n) :: old(logs)[n]
      ensures !ok ==> exists n :: n in logs && setting.isLog(n) && CommitFails(db.View(), n, logs[n], clock, refuses, setting.retention)
    {
      steps := [];
      var left := logs.Keys;
      while left != {}
        invariant Valid() && CleansTo(setting, old(trace), steps, trace)
        invariant left <= logs.Keys
        invariant forall n :: n in logs ==> n in old(logs) && logs[n] == old(logs)[n]
        invariant forall n :: n in old(logs) ==> (n in logs <==> n in left || !setting.isLog(n))
        decreases |left|
      {
        var drive :| drive in left;
        if setting.isLog(drive) {
          ok, steps := RemoveEventLog(drive, clock, refuses, old(trace), steps);
          if !ok {
            return;
          }
        }
        left := left - {drive};
      }
      ok := true;
    }
  }
}
