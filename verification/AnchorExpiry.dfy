// What becomes of an anchor the feed has handed out, while the journal goes on.
module AnchorExpiry {
  import opened Prelude
  import opened Journal
  import opened JournalHistory
  import opened JournalRuns
  import opened ChangeFeed

  // An anchor the journal can still answer: the feed hands out only such anchors.
  ghost predicate Issued(w: World, drive: string, since: int) {
    && drive in w.db.heads && w.db.heads[drive].imported
    && w.db.heads[drive].floor <= since <= w.db.heads[drive].latest
  }

  function RunOn(w: World, ops: seq<Op>, retention: nat): World {
    if ops == [] then w else Next(RunOn(w, ops[..|ops| - 1], retention), ops[|ops| - 1], retention)
  }

  // An event above the anchor was committed and is no longer stored.
  ghost predicate PrunedAbove(h: Head, log: seq<Entry>, since: int) {
    exists i :: 0 <= i < |log| && log[i].event.ts > since && !Stored(h.events, log[i].event)
  }

  // What is true of the journal ever after the anchor was issued: the floor passes
  // the anchor only by pruning an event above it.
  ghost predicate Reaches(h: Head, log: seq<Entry>, since: int) {
    && Faithful(h, log) && h.imported && since <= h.latest
    && (h.floor > since >= 0 ==> PrunedAbove(h, log, since))
  }

  // A commit to an imported journal, split where it prunes.
  lemma CommitSplits(h: Head, log: seq<Entry>, records: seq<Event>, legacy: Legacy, clock: Clock, refuses: Refusals, retention: nat)
    returns (grown: Head, tail: seq<Event>)
    requires Faithful(h, log) && h.imported
    requires CommitHead(h, records, legacy, clock, refuses, retention).Some?
    ensures CommitHead(h, records, legacy, clock, refuses, retention) == Some((Prune(grown, retention), tail))
    ensures grown == h.(latest := grown.latest, events := grown.events)
    ensures Climbs(h.latest, tail, grown.latest) && Gains(h.events, grown.events, tail)
    ensures Faithful(grown, log + Entries(tail, false))
  {
    var a := Appending(h.events, h.latest, []);
    AppendClimbs(a, records, clock, refuses);
    var b := Append(a, records, clock, refuses).value;
    assert b.stamped[|a.stamped|..] == b.stamped;
    grown, tail := h.(latest := b.latest, events := b.events), b.stamped;
    AppendKeeps(h, log, b, tail);
  }

  // New events lie above the old head, so a pruned event does not come back.
  lemma GrowthReaches(h: Head, log: seq<Entry>, grown: Head, tail: seq<Event>, since: int)
    requires Reaches(h, log, since)
    requires grown == h.(latest := grown.latest, events := grown.events)
    requires Climbs(h.latest, tail, grown.latest) && Gains(h.events, grown.events, tail)
    requires Faithful(grown, log + Entries(tail, false))
    ensures Reaches(grown, log + Entries(tail, false), since)
  {
    var after := log + Entries(tail, false);
    if h.floor > since >= 0 {
      var i :| 0 <= i < |log| && log[i].event.ts > since && !Stored(h.events, log[i].event);
      assert after[i] == log[i] && log[i].event !in tail;
      assert !Stored(grown.events, after[i].event);
    }
  }

  // A floor that pruning raises above a non-negative anchor is a pruned sequence.
  lemma PruneReaches(h: Head, log: seq<Entry>, since: int, retention: nat)
    requires Reaches(h, log, since)
    ensures Reaches(Prune(h, retention), log, since)
  {
    PruneKeeps(h, log, retention);
    var p, cutoff := Prune(h, retention), Cutoff(h.events.Keys, retention);
    if p.floor > since >= 0 {
      if h.floor > since {
        var i :| 0 <= i < |log| && log[i].event.ts > since && !Stored(h.events, log[i].event);
        assert !Stored(p.events, log[i].event);
      } else {
        NthNewestSplits(h.events.Keys, retention);
        assert Logged(log, h.events[cutoff]);
        var i :| 0 <= i < |log| && log[i].event == h.events[cutoff];
        assert !Stored(p.events, log[i].event);
      }
    }
  }

  lemma CommitReaches(h: Head, log: seq<Entry>, op: Op, retention: nat, since: int)
    requires Reaches(h, log, since) && op.CommitOp?
    requires CommitHead(h, op.records, op.legacy, op.clock, op.refuses, retention).Some?
    ensures var r := CommitHead(h, op.records, op.legacy, op.clock, op.refuses, retention).value;
            Reaches(r.0, LogAfter(log, h, op.legacy, r.1), since)
  {
    var grown, tail := CommitSplits(h, log, op.records, op.legacy, op.clock, op.refuses, retention);
    CommitClimbs(h, log, op.records, op.legacy, op.clock, op.refuses, retention);
    GrowthReaches(h, log, grown, tail, since);
    PruneReaches(grown, log + Entries(tail, false), since, retention);
  }

  lemma StepReaches(w: World, op: Op, retention: nat, drive: string, since: int)
    requires Reaches(HeadOf(w.db, drive), DriveLog(w.history, drive), since)
    ensures var w' := Next(w, op, retention);
            Reaches(HeadOf(w'.db, drive), DriveLog(w'.history, drive), since)
  {
    StepShape(w, op, retention, drive);
    var w' := Next(w, op, retention);
    if Commits(w, op, w', drive, retention) {
      CommitReaches(HeadOf(w.db, drive), DriveLog(w.history, drive), op, retention, since);
    }
  }

  lemma {:induction false} RunsReach(w: World, more: seq<Op>, retention: nat, drive: string, since: int)
    requires Faithful(HeadOf(w.db, drive), DriveLog(w.history, drive)) && Issued(w, drive, since)
    ensures var w' := RunOn(w, more, retention);
            Reaches(HeadOf(w'.db, drive), DriveLog(w'.history, drive), since)
    decreases |more|
  {
    if more != [] {
      RunsReach(w, more[..|more| - 1], retention, drive, since);
      StepReaches(RunOn(w, more[..|more| - 1], retention), more[|more| - 1], retention, drive, since);
    }
  }

  lemma ReachesDecides(h: Head, log: seq<Entry>, since: int)
    requires Reaches(h, log, since)
    ensures h.floor > since <==> PrunedAbove(h, log, since) || (since < 0 && h.floor > since)
  {
    if i :| 0 <= i < |log| && log[i].event.ts > since && !Stored(h.events, log[i].event) {
      assert log[i].event.ts <= h.floor;
    }
  }

  // After any run, take an anchor the journal can answer, and any further run: it is
  // refused then iff an event committed above it has been pruned, or a rescan was
  // ever committed above it. (A negative anchor, from a log with negative timestamps,
  // is also refused once the floor has gone to zero.)
  lemma {:induction false} IssuedAnchorExpiresExactly(
    ops: seq<Op>, more: seq<Op>, retention: nat, drive: string, since: int, touches: Event -> bool, pageSize: nat)
    requires Issued(Run(ops, retention), drive, since)
    ensures var w := RunOn(Run(ops, retention), more, retention);
            var log := DriveLog(w.history, drive);
            Changes(w.db, drive, Some(since), touches, pageSize) == Err(Expired) <==>
            || PrunedAbove(HeadOf(w.db, drive), log, since)
            || RescanAbove(log, since)
            || (since < 0 && HeadOf(w.db, drive).floor > since)
  {
    var start := Run(ops, retention);
    RunsKeepInv(ops, retention);
    assert Faithful(HeadOf(start.db, drive), DriveLog(start.history, drive));
    RunsReach(start, more, retention, drive, since);
    var w := RunOn(start, more, retention);
    var h, log := HeadOf(w.db, drive), DriveLog(w.history, drive);
    assert drive in w.db.heads;
    ReachesDecides(h, log, since);
    ExpiresExactly(w.db, drive, log, Some(since), touches, pageSize);
  }
}
