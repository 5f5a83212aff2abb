// One working-set reader against a live journal. Between any two of the reader's
// steps the app may commit (and prune) any number of times; a callback may fail
// at any event and is then repeated from the anchor the system still holds.
module WorkingSetReader {
  import opened Prelude
  import opened Journal
  import opened JournalHistory
  import opened JournalRuns
  import opened ChangeFeed

  datatype Phase =
    | Idle
    | Applying(page: Page, applied: nat, read: nat)
    | AnchorExpired
    | Reconciling(captured: int, read: nat)

  // start is the anchor the reader began with (None: its text is unreadable) and
  // anchor the one the system holds now. acked are the events of all finished
  // pages; reconciled is how much of the log had been committed when the last
  // finished reconciliation captured its anchor.
  datatype State = State(
    world: World, start: Option<int>, anchor: Option<int>, acked: seq<Event>, reconciled: nat, phase: Phase)

  datatype Step =
    | JournalStep(op: Op)
    | Begin(policyChanged: bool)
    | ApplyNext(ok: bool)
    | Finish
    | Capture
    | Reconciled(ok: bool)
    | Reenumerate

  // source is the drive as the feed knows it: its remote path and the decoding.
  datatype Setting = Setting(drive: string, source: Drive, retention: nat, pageSize: nat)

  function LogOf(c: Setting, s: State): seq<Entry> {
    DriveLog(s.world.history, c.drive)
  }

  function HeadAt(c: Setting, s: State): Head {
    HeadOf(s.world.db, c.drive)
  }

  function NextState(c: Setting, s: State, step: Step): State {
    match step
    case JournalStep(op) => s.(world := Next(s.world, op, c.retention))
    case Begin(policyChanged) =>
      if !s.phase.Idle? || policyChanged then s
      else
        (match Changes(s.world.db, c.drive, s.anchor, Feed(c.source, WorkingSet), c.pageSize)
         case Ok(page) => s.(phase := Applying(page, 0, |LogOf(c, s)|))
         case Err(NotReady) => s
         case Err(Expired) => s.(phase := AnchorExpired))
    case ApplyNext(ok) =>
      if !s.phase.Applying? || s.phase.applied >= |s.phase.page.events| then s
      else if ok then s.(phase := s.phase.(applied := s.phase.applied + 1))
      else s.(phase := Idle)
    case Finish =>
      if !s.phase.Applying? || s.phase.applied < |s.phase.page.events| then s
      else s.(anchor := Some(s.phase.page.anchor), acked := s.acked + s.phase.page.events, phase := Idle)
    case Capture =>
      if !s.phase.AnchorExpired? then s
      else
        var captured := CurrentSyncAnchor(s.world.db, c.drive);
        if captured.None? then s.(phase := Idle)
        else s.(phase := Reconciling(captured.value, |LogOf(c, s)|))
    case Reconciled(ok) =>
      if !s.phase.Reconciling? then s
      else if ok then s.(anchor := Some(s.phase.captured), reconciled := s.phase.read, phase := Idle)
      else s.(phase := Idle)
    case Reenumerate =>
      if !s.phase.Idle? then s
      else
        var latest := CurrentSyncAnchor(s.world.db, c.drive);
        if latest.None? then s else s.(start := latest, anchor := latest, acked := [], reconciled := 0)
  }

  function RunFrom(c: Setting, start: Option<int>, steps: seq<Step>): State {
    if steps == [] then State(World(Db(map[], {}, map[]), []), start, start, [], 0, Idle)
    else NextState(c, RunFrom(c, start, steps[..|steps| - 1]), steps[|steps| - 1])
  }

  // Everything committed after the first n log entries lies above the bound.
  ghost predicate LaterIsAbove(h: Head, log: seq<Entry>, n: nat, bound: int) {
    && n <= |log| && h.imported && bound <= h.latest
    && forall j :: n <= j < |log| ==> log[j].event.ts > bound
  }

  // The property the anchors are for: nothing between the two anchors was skipped.
  ghost predicate Covered(log: seq<Entry>, start: Option<int>, anchor: Option<int>, acked: seq<Event>, reconciled: nat) {
    anchor.Some? ==>
      forall i :: 0 <= i < |log| && (start.None? || start.value < log[i].event.ts) && log[i].event.ts <= anchor.value ==>
        i < reconciled || log[i].event in acked
  }

  ghost predicate Ascending(es: seq<Event>) {
    forall i, j :: 0 <= i < j < |es| ==> es[i].ts < es[j].ts
  }

  ghost predicate AllAtMost(es: seq<Event>, bound: int) {
    forall i :: 0 <= i < |es| ==> es[i].ts <= bound
  }

  ghost predicate AllAbove(es: seq<Event>, bound: int) {
    forall i :: 0 <= i < |es| ==> es[i].ts > bound
  }

  // What is still true of a page read when the log had n entries.
  ghost predicate PageFits(log: seq<Entry>, since: int, page: Page, n: nat) {
    && n <= |log|
    && since <= page.anchor
    && Ascending(page.events) && AllAbove(page.events, since) && AllAtMost(page.events, page.anchor)
    && forall i :: 0 <= i < n && since < log[i].event.ts <= page.anchor ==> log[i].event in page.events
  }

  ghost predicate PhaseInv(h: Head, log: seq<Entry>, anchor: Option<int>, acked: seq<Event>, phase: Phase) {
    match phase
    case Idle => true
    case AnchorExpired => true
    case Applying(page, applied, read) =>
      && anchor.Some? && applied <= |page.events|
      && PageFits(log, anchor.value, page, read) && LaterIsAbove(h, log, read, page.anchor)
    case Reconciling(captured, read) =>
      LaterIsAbove(h, log, read, captured) && AllAtMost(acked, captured)
  }

  ghost predicate ReaderInv(h: Head, log: seq<Entry>, s: State) {
    && (s.anchor == s.start || (s.anchor.Some? && h.imported && s.anchor.value <= h.latest))
    && Covered(log, s.start, s.anchor, s.acked, s.reconciled)
    && Ascending(s.acked) && AllAtMost(s.acked, h.latest)
    && (s.acked != [] ==> s.anchor.Some? && h.imported && AllAtMost(s.acked, s.anchor.value))
    && s.reconciled <= |log|
    && PhaseInv(h, log, s.anchor, s.acked, s.phase)
  }

  ghost predicate Inv(c: Setting, s: State) {
    && HeadsFaithful(s.world) && Bounded(s.world, c.retention)
    && ReaderInv(HeadAt(c, s), LogOf(c, s), s)
  }

  // How a commit extends the log: above the old head, once imported.
  ghost predicate Grows(h: Head, log: seq<Entry>, h': Head, tail: seq<Entry>) {
    && h'.imported
    && (h.imported ==> h.latest <= h'.latest && forall i :: 0 <= i < |tail| ==> tail[i].event.ts > h.latest)
    && (!h.imported ==> log == [] && h == NoHead())
  }

  lemma ClimbGrows(h: Head, log: seq<Entry>, h': Head, imported: seq<Event>, stamped: seq<Event>)
    requires h'.imported
    requires h.imported ==> imported == [] && Climbs(h.latest, stamped, h'.latest)
    requires !h.imported ==> log == [] && h == NoHead()
    ensures Grows(h, log, h', Entries(imported, true) + Entries(stamped, false))
  {
    if h.imported {
      assert Entries(imported, true) + Entries(stamped, false) == Entries(stamped, false);
    }
  }

  function Growth(h: Head, legacy: Legacy, stamped: seq<Event>): seq<Entry> {
    Entries(Imported(h, legacy), true) + Entries(stamped, false)
  }

  lemma LogGrows(h: Head, log: seq<Entry>, legacy: Legacy, stamped: seq<Event>)
    ensures LogAfter(log, h, legacy, stamped) == log + Growth(h, legacy, stamped)
  {
  }

  lemma CommitGrows(h: Head, log: seq<Entry>, op: Op, retention: nat, h': Head, stamped: seq<Event>)
    requires Faithful(h, log) && op.CommitOp?
    requires CommitHead(h, op.records, op.legacy, op.clock, op.refuses, retention) == Some((h', stamped))
    ensures Grows(h, log, h', Growth(h, op.legacy, stamped))
  {
    assert h'.imported by {
      CommitKeeps(h, log, op.records, op.legacy, op.clock, op.refuses, retention);
    }
    if h.imported {
      assert Climbs(h.latest, stamped, h'.latest) by {
        CommitClimbs(h, log, op.records, op.legacy, op.clock, op.refuses, retention);
      }
      assert Imported(h, op.legacy) == [];
    }
    ClimbGrows(h, log, h', Imported(h, op.legacy), stamped);
  }

  lemma GrowKeeps(h: Head, log: seq<Entry>, s: State, h': Head, tail: seq<Entry>)
    requires ReaderInv(h, log, s) && Grows(h, log, h', tail)
    ensures ReaderInv(h', log + tail, s)
  {
    var log' := log + tail;
    assert forall j :: |log| <= j < |log'| ==> log'[j] == tail[j - |log|];
  }

  lemma {:induction false} ReaderKeeps(c: Setting, s: State, op: Op, h: Head, log: seq<Entry>)
    requires h == HeadAt(c, s) && log == LogOf(c, s) && HeadsFaithful(s.world) && ReaderInv(h, log, s)
    ensures var s' := NextState(c, s, JournalStep(op)); ReaderInv(HeadAt(c, s'), LogOf(c, s'), s)
  {
    assert Faithful(HeadOf(s.world.db, c.drive), DriveLog(s.world.history, c.drive));
    StepShape(s.world, op, c.retention, c.drive);
    if Commits(s.world, op, Next(s.world, op, c.retention), c.drive, c.retention) {
      var r := CommitHead(h, op.records, op.legacy, op.clock, op.refuses, c.retention).value;
      CommitGrows(h, log, op, c.retention, r.0, r.1);
      LogGrows(h, log, op.legacy, r.1);
      GrowKeeps(h, log, s, r.0, Growth(h, op.legacy, r.1));
    }
  }

  lemma JournalStepKeeps(c: Setting, s: State, op: Op)
    requires Inv(c, s)
    ensures Inv(c, NextState(c, s, JournalStep(op)))
  {
    HeadsStep(s.world, op, c.retention);
    ReaderKeeps(c, s, op, HeadAt(c, s), LogOf(c, s));
  }

  lemma PagePrefix(h: Head, since: int, p: Page, rest: seq<Event>)
    requires WellKept(h) && since <= h.latest
    requires ExactlyAbove(h.events, since, p.events + rest) && ExactlyAbove(h.events, p.anchor, rest)
    requires p.moreComing ==> since < p.anchor
    requires !p.moreComing ==> p.anchor == h.latest
    ensures since <= p.anchor
    ensures Ascending(p.events) && AllAbove(p.events, since) && AllAtMost(p.events, p.anchor)
  {
    var es := p.events + rest;
    forall i | 0 <= i < |p.events| ensures since < p.events[i].ts <= p.anchor {
      var e := p.events[i];
      assert es[i] == e && e in es && Stored(h.events, e);
      forall k | 0 <= k < |rest| ensures rest[k] != e {
        assert es[|p.events| + k] == rest[k];
      }
      assert e !in rest;
    }
    forall i, j | 0 <= i < j < |p.events| ensures p.events[i].ts < p.events[j].ts {
      assert es[i] == p.events[i] && es[j] == p.events[j];
    }
  }

  // A page read from a faithful journal leaves out nothing up to its anchor.
  lemma ReadFits(db: Db, drive: string, source: Drive, log: seq<Entry>, since: int, pageSize: nat)
    requires drive in db.heads && db.heads[drive].imported && Faithful(db.heads[drive], log)
    requires pageSize > 0 && Accepts(db.heads[drive], since)
    ensures var r := Changes(db, drive, Some(since), Feed(source, WorkingSet), pageSize);
            && r.Ok?
            && PageFits(log, since, r.value, |log|)
            && LaterIsAbove(db.heads[drive], log, |log|, r.value.anchor)
  {
    var h := db.heads[drive];
    FaithfulIsWellKept(h, log);
    ChangesSplit(db, drive, since, Feed(source, WorkingSet), pageSize);
    var p := Changes(db, drive, Some(since), Feed(source, WorkingSet), pageSize).value;
    var es, rest := EventsAbove(h.events, since), EventsAbove(h.events, p.anchor);
    WorkingSetHearsEverything(source, h, since);
    WorkingSetHearsEverything(source, h, p.anchor);
    EventsAboveExactly(h.events, since);
    EventsAboveExactly(h.events, p.anchor);
    assert es == p.events + rest;
    PagePrefix(h, since, p, rest);
    forall i | 0 <= i < |log| && since < log[i].event.ts <= p.anchor ensures log[i].event in p.events {
      assert Stored(h.events, log[i].event);
      assert log[i].event in es && log[i].event !in rest;
    }
  }

  lemma BeginKeeps(c: Setting, s: State)
    requires Inv(c, s) && c.pageSize > 0 && s.phase.Idle?
    ensures Inv(c, NextState(c, s, Begin(false)))
  {
    var db := s.world.db;
    assert Faithful(HeadAt(c, s), LogOf(c, s));
    if s.anchor.Some? && c.drive in db.heads && db.heads[c.drive].imported && Accepts(db.heads[c.drive], s.anchor.value) {
      ReadFits(db, c.drive, c.source, LogOf(c, s), s.anchor.value, c.pageSize);
    } else {
      assert !Changes(db, c.drive, s.anchor, Feed(c.source, WorkingSet), c.pageSize).Ok?;
    }
  }

  lemma FinishKeeps(h: Head, log: seq<Entry>, s: State)
    requires ReaderInv(h, log, s) && s.phase.Applying?
    ensures ReaderInv(h, log, s.(anchor := Some(s.phase.page.anchor), acked := s.acked + s.phase.page.events, phase := Idle))
  {
    var page := s.phase.page;
    var acked := s.acked + page.events;
    forall i | 0 <= i < |log| && (s.start.None? || s.start.value < log[i].event.ts) && log[i].event.ts <= page.anchor
      ensures i < s.reconciled || log[i].event in acked
    {
      if log[i].event.ts > s.anchor.value {
        assert i < s.phase.read;
      }
    }
  }

  lemma ReconciledKeeps(h: Head, log: seq<Entry>, s: State)
    requires ReaderInv(h, log, s) && s.phase.Reconciling?
    ensures ReaderInv(h, log, s.(anchor := Some(s.phase.captured), reconciled := s.phase.read, phase := Idle))
  {
  }

  lemma CaptureKeeps(h: Head, log: seq<Entry>, s: State)
    requires ReaderInv(h, log, s) && Faithful(h, log) && h.imported
    ensures ReaderInv(h, log, s.(phase := Reconciling(h.latest, |log|)))
    ensures ReaderInv(h, log, s.(start := Some(h.latest), anchor := Some(h.latest), acked := [], reconciled := 0, phase := Idle))
  {
  }

  lemma CaptureStepKeeps(c: Setting, s: State)
    requires Inv(c, s)
    ensures Inv(c, NextState(c, s, Capture))
  {
    var h, log := HeadAt(c, s), LogOf(c, s);
    assert Faithful(HeadOf(s.world.db, c.drive), DriveLog(s.world.history, c.drive));
    if s.phase.AnchorExpired? && CurrentSyncAnchor(s.world.db, c.drive).Some? {
      CaptureKeeps(h, log, s);
    }
  }

  lemma ReenumerateStepKeeps(c: Setting, s: State)
    requires Inv(c, s)
    ensures Inv(c, NextState(c, s, Reenumerate))
  {
    var h, log := HeadAt(c, s), LogOf(c, s);
    assert Faithful(HeadOf(s.world.db, c.drive), DriveLog(s.world.history, c.drive));
    if s.phase.Idle? && CurrentSyncAnchor(s.world.db, c.drive).Some? {
      CaptureKeeps(h, log, s);
    }
  }

  lemma {:induction false} StepKeeps(c: Setting, s: State, step: Step)
    requires Inv(c, s) && c.pageSize > 0
    ensures Inv(c, NextState(c, s, step))
  {
    var h, log := HeadAt(c, s), LogOf(c, s);
    match step
    case JournalStep(op) => JournalStepKeeps(c, s, op);
    case Begin(policyChanged) => if s.phase.Idle? && !policyChanged { BeginKeeps(c, s); }
    case ApplyNext(ok) =>
    case Finish => if s.phase.Applying? { FinishKeeps(h, log, s); }
    case Capture => CaptureStepKeeps(c, s);
    case Reconciled(ok) => if s.phase.Reconciling? { ReconciledKeeps(h, log, s); }
    case Reenumerate => ReenumerateStepKeeps(c, s);
  }

  lemma {:induction false} RunsKeepInv(c: Setting, start: Option<int>, steps: seq<Step>)
    requires c.pageSize > 0
    ensures Inv(c, RunFrom(c, start, steps))
    decreases |steps|
  {
    if steps == [] {
      forall drive ensures Faithful(HeadOf(RunFrom(c, start, steps).world.db, drive), DriveLog(RunFrom(c, start, steps).world.history, drive)) {
      }
    } else {
      RunsKeepInv(c, start, steps[..|steps| - 1]);
      StepKeeps(c, RunFrom(c, start, steps[..|steps| - 1]), steps[|steps| - 1]);
    }
  }

  // In every interleaving: each event ever committed above the starting anchor and
  // at or below the anchor now held was handed over in a finished page, or had been
  // committed before a finished reconciliation captured its anchor; and finished
  // pages hand events over in strictly growing sequence order.
  lemma {:induction false} NothingSkipped(c: Setting, start: Option<int>, steps: seq<Step>)
    requires c.pageSize > 0
    ensures var s := RunFrom(c, start, steps);
            Covered(LogOf(c, s), s.start, s.anchor, s.acked, s.reconciled) && Ascending(s.acked)
  {
    RunsKeepInv(c, start, steps);
  }

  // What is committed while a reconciliation runs stays above the anchor it will return.
  lemma {:induction false} CommittedDuringReconciliationStaysAbove(c: Setting, start: Option<int>, steps: seq<Step>, j: nat)
    requires c.pageSize > 0 && RunFrom(c, start, steps).phase.Reconciling?
    requires RunFrom(c, start, steps).phase.read <= j < |LogOf(c, RunFrom(c, start, steps))|
    ensures LogOf(c, RunFrom(c, start, steps))[j].event.ts > RunFrom(c, start, steps).phase.captured
  {
    RunsKeepInv(c, start, steps);
  }

  // Progress

  function Play(c: Setting, s: State, steps: seq<Step>): State
    decreases |steps|
  {
    if steps == [] then s else Play(c, NextState(c, s, steps[0]), steps[1..])
  }

  function Applies(n: nat): seq<Step> {
    if n == 0 then [Finish] else [ApplyNext(true)] + Applies(n - 1)
  }

  lemma {:induction false} AppliesFinish(c: Setting, s: State, n: nat)
    requires s.phase.Applying? && s.phase.applied + n == |s.phase.page.events|
    ensures Play(c, s, Applies(n)) ==
            s.(anchor := Some(s.phase.page.anchor), acked := s.acked + s.phase.page.events, phase := Idle)
    decreases n
  {
    var t := NextState(c, s, Applies(n)[0]);
    if n == 0 {
      assert [Finish][1..] == [] && Play(c, t, []) == t;
    } else {
      assert Applies(n)[1..] == Applies(n - 1);
      AppliesFinish(c, t, n - 1);
    }
  }

  // A callback that is not disturbed and applies its page moves the anchor to the
  // page's, and what it handed over is that page.
  lemma UndisturbedCallback(c: Setting, s: State, page: Page)
    requires s.phase.Idle? && Changes(s.world.db, c.drive, s.anchor, Feed(c.source, WorkingSet), c.pageSize) == Ok(page)
    ensures Play(c, s, [Begin(false)] + Applies(|page.events|)) ==
            s.(anchor := Some(page.anchor), acked := s.acked + page.events)
  {
    var steps := [Begin(false)] + Applies(|page.events|);
    assert steps[1..] == Applies(|page.events|);
    AppliesFinish(c, NextState(c, s, Begin(false)), |page.events|);
  }

  // One that finds its anchor expired and reconciles ends at the journal's head, with
  // everything committed until then accounted for.
  lemma UndisturbedReconciliation(c: Setting, s: State)
    requires s.phase.Idle? && c.drive in s.world.db.heads && s.world.db.heads[c.drive].imported
    requires Changes(s.world.db, c.drive, s.anchor, Feed(c.source, WorkingSet), c.pageSize) == Err(Expired)
    ensures Play(c, s, [Begin(false), Capture, Reconciled(true)]) ==
            s.(anchor := Some(s.world.db.heads[c.drive].latest), reconciled := |LogOf(c, s)|)
  {
    var steps := [Begin(false), Capture, Reconciled(true)];
    var s1 := NextState(c, s, Begin(false));
    var s2 := NextState(c, s1, Capture);
    assert steps[1..] == [Capture, Reconciled(true)] && steps[1..][1..] == [Reconciled(true)];
    assert Play(c, s, steps) == Play(c, s1, steps[1..]) == Play(c, s2, steps[1..][1..]);
    assert [Reconciled(true)][1..] == [] && Play(c, s2, [Reconciled(true)]) == NextState(c, s2, Reconciled(true));
  }

  function AppliesThenFails(n: nat): seq<Step> {
    if n == 0 then [ApplyNext(false)] else [ApplyNext(true)] + AppliesThenFails(n - 1)
  }

  lemma {:induction false} FailureDropsPage(c: Setting, s: State, n: nat)
    requires s.phase.Applying? && s.phase.applied + n < |s.phase.page.events|
    ensures Play(c, s, AppliesThenFails(n)) == s.(phase := Idle)
    decreases n
  {
    var t := NextState(c, s, AppliesThenFails(n)[0]);
    if n == 0 {
      assert [ApplyNext(false)][1..] == [] && Play(c, t, []) == t;
    } else {
      assert AppliesThenFails(n)[1..] == AppliesThenFails(n - 1);
      FailureDropsPage(c, t, n - 1);
    }
  }

  // A callback that fails at one of its events leaves the reader where it was, however
  // many it had applied: the next one starts from the same anchor.
  lemma FailedCallbackKeepsAnchor(c: Setting, s: State, page: Page, n: nat)
    requires s.phase.Idle? && n < |page.events|
    requires Changes(s.world.db, c.drive, s.anchor, Feed(c.source, WorkingSet), c.pageSize) == Ok(page)
    ensures Play(c, s, [Begin(false)] + AppliesThenFails(n)) == s
  {
    var steps := [Begin(false)] + AppliesThenFails(n);
    assert steps[1..] == AppliesThenFails(n);
    FailureDropsPage(c, NextState(c, s, Begin(false)), n);
  }

  // So does one that waits for the app, or cannot capture an anchor or reconcile.
  lemma UnreadyCallbackKeepsAnchor(c: Setting, s: State)
    requires s.phase.Idle?
    ensures var r := Changes(s.world.db, c.drive, s.anchor, Feed(c.source, WorkingSet), c.pageSize);
            && (r == Err(NotReady) ==> Play(c, s, [Begin(false)]) == s)
            && (r == Err(Expired) && CurrentSyncAnchor(s.world.db, c.drive).None? ==> Play(c, s, [Begin(false), Capture]) == s)
            && (r == Err(Expired) && CurrentSyncAnchor(s.world.db, c.drive).Some? ==>
                  Play(c, s, [Begin(false), Capture, Reconciled(false)]) == s)
  {
    var s1 := NextState(c, s, Begin(false));
    var s2 := NextState(c, s1, Capture);
    var three, two := [Begin(false), Capture, Reconciled(false)], [Begin(false), Capture];
    assert three[1..] == [Capture, Reconciled(false)] && three[1..][1..] == [Reconciled(false)];
    assert two[1..] == [Capture] && [Capture][1..] == [] && [Begin(false)][1..] == [] && [Reconciled(false)][1..] == [];
    assert Play(c, s, [Begin(false)]) == Play(c, s1, []) == s1;
    assert Play(c, s, two) == Play(c, s1, [Capture]) == Play(c, s2, []) == s2;
    assert Play(c, s, three) == Play(c, s1, three[1..]) == Play(c, s2, [Reconciled(false)]) == NextState(c, s2, Reconciled(false));
  }

  // A reader that enumerates everything anew goes on from the head, with nothing left
  // to be told.
  lemma RestartIsCaughtUp(c: Setting, s: State)
    requires s.phase.Idle? && c.drive in s.world.db.heads && s.world.db.heads[c.drive].imported
    requires WellKept(s.world.db.heads[c.drive]) && s.world.db.heads[c.drive].floor <= s.world.db.heads[c.drive].latest
    ensures var t := NextState(c, s, Reenumerate);
            && t.anchor == Some(s.world.db.heads[c.drive].latest) && t.world == s.world
            && Changes(t.world.db, c.drive, t.anchor, Feed(c.source, WorkingSet), c.pageSize) == Ok(Page([], t.anchor.value, false))
  {
    CurrentAnchorIsCaughtUp(s.world.db, c.drive, Feed(c.source, WorkingSet), c.pageSize);
  }
}
