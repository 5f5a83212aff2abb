// When a commit succeeds, and what it then records: nothing but a malformed or
// clashing log, a refusing database or a head at the end of the range stops it.
module CommitSuccess {
  import opened Prelude
  import opened Journal
  import opened JournalHistory
  import opened JournalRuns

  // The legacy log

  ghost predicate Picked(idx: seq<nat>, i: nat) {
    exists k :: 0 <= k < |idx| && idx[k] == i
  }

  ghost predicate Increasing(idx: seq<nat>) {
    forall k, l :: 0 <= k < l < |idx| ==> idx[k] < idx[l]
  }

  ghost predicate Holds(lines: seq<Line>, idx: seq<nat>, events: seq<Event>) {
    |idx| == |events| && forall k :: 0 <= k < |idx| ==> idx[k] < |lines| && lines[idx[k]] == Parsed(events[k])
  }

  // idx are the positions of the parsed lines, in order, and events what they hold.
  ghost predicate PicksParsed(lines: seq<Line>, idx: seq<nat>, events: seq<Event>) {
    && Increasing(idx) && Holds(lines, idx, events)
    && (forall i: nat :: i < |lines| && lines[i].Parsed? ==> Picked(idx, i))
  }

  ghost predicate WellFormed(lines: seq<Line>) {
    forall i :: 0 <= i < |lines| ==> !lines[i].Malformed?
  }

  function Shifted(idx: seq<nat>): (r: seq<nat>)
    ensures |r| == |idx| && forall k :: 0 <= k < |idx| ==> r[k] == idx[k] + 1
  {
    seq(|idx|, k requires 0 <= k < |idx| => idx[k] + 1)
  }

  // One more line in front shifts the positions.
  lemma PickBehind(line: Line, lines: seq<Line>, idx: seq<nat>, events: seq<Event>)
    requires PicksParsed(lines, idx, events) && !line.Parsed?
    ensures PicksParsed([line] + lines, Shifted(idx), events)
  {
    var all, shifted := [line] + lines, Shifted(idx);
    forall i: nat | i < |all| && all[i].Parsed? ensures Picked(shifted, i) {
      assert lines[i - 1].Parsed?;
      var k :| 0 <= k < |idx| && idx[k] == i - 1;
      assert shifted[k] == i;
    }
  }

  lemma FrontHolds(e: Event, lines: seq<Line>, idx: seq<nat>, events: seq<Event>)
    requires Holds(lines, idx, events)
    ensures Holds([Parsed(e)] + lines, [0] + Shifted(idx), [e] + events)
  {
    var all, picked, more := [Parsed(e)] + lines, [0] + Shifted(idx), [e] + events;
    forall k | 0 <= k < |picked| ensures picked[k] < |all| && all[picked[k]] == Parsed(more[k]) {
      if k > 0 { assert picked[k] == idx[k - 1] + 1 && more[k] == events[k - 1]; }
    }
  }

  lemma FrontIncreases(idx: seq<nat>)
    requires Increasing(idx)
    ensures Increasing([0] + Shifted(idx))
  {
    var picked := [0] + Shifted(idx);
    forall k, l | 0 <= k < l < |picked| ensures picked[k] < picked[l] {
      if k > 0 { assert picked[k] == idx[k - 1] + 1 && picked[l] == idx[l - 1] + 1; }
    }
  }

  lemma PickFront(e: Event, lines: seq<Line>, idx: seq<nat>, events: seq<Event>)
    requires PicksParsed(lines, idx, events)
    ensures PicksParsed([Parsed(e)] + lines, [0] + Shifted(idx), [e] + events)
  {
    var all, shifted, picked := [Parsed(e)] + lines, Shifted(idx), [0] + Shifted(idx);
    FrontHolds(e, lines, idx, events);
    FrontIncreases(idx);
    forall i: nat | i < |all| && all[i].Parsed? ensures Picked(picked, i) {
      if i == 0 {
        assert picked[0] == 0;
      } else {
        assert lines[i - 1].Parsed?;
        var k :| 0 <= k < |idx| && idx[k] == i - 1;
        assert picked[k + 1] == i;
      }
    }
  }

  // A log is read iff no line is malformed.
  lemma {:induction false} ParsesExactly(lines: seq<Line>)
    ensures ParseLines(lines).Some? <==> WellFormed(lines)
    decreases |lines|
  {
    if lines != [] {
      ParsesExactly(lines[1..]);
      assert forall i :: 0 < i < |lines| ==> lines[i] == lines[1..][i - 1];
    }
  }

  // It then yields what the parsed lines hold, in their order.
  lemma {:induction false} ParsedInOrder(lines: seq<Line>) returns (idx: seq<nat>)
    requires ParseLines(lines).Some?
    ensures PicksParsed(lines, idx, ParseLines(lines).value)
    decreases |lines|
  {
    if lines == [] {
      idx := [];
    } else {
      var rest := ParsedInOrder(lines[1..]);
      assert lines == [lines[0]] + lines[1..];
      if lines[0].Parsed? {
        PickFront(lines[0].event, lines[1..], rest, ParseLines(lines[1..]).value);
        idx := [0] + Shifted(rest);
      } else {
        PickBehind(lines[0], lines[1..], rest, ParseLines(lines[1..]).value);
        idx := Shifted(rest);
      }
    }
  }

  // The log can be imported: it is there in full or not at all, no line is malformed,
  // and the database takes its events at their sequences, each once.
  ghost predicate Importable(legacy: Legacy, refuses: Refusals) {
    match legacy
    case Missing => true
    case Unreadable => false
    case Text(lines) => WellFormed(lines) && ParseLines(lines).Some? && Fits(map[], ParseLines(lines).value, refuses)
  }

  lemma ImportSucceedsExactly(h: Head, log: seq<Entry>, legacy: Legacy, refuses: Refusals)
    requires Faithful(h, log)
    ensures Import(h, legacy, refuses).Some? <==> h.imported || Importable(legacy, refuses)
  {
    if !h.imported {
      if legacy.Text? {
        ParsesExactly(legacy.lines);
      }
      if LegacyEvents(legacy).Some? {
        InsertAllExactly(map[], LegacyEvents(legacy).value, refuses);
      }
    }
  }

  // The records

  ghost predicate Accepted(stamped: seq<Event>, refuses: Refusals) {
    forall i :: 0 <= i < |stamped| ==> !refuses(stamped[i].ts)
  }

  predicate RoomAt(latest: int, stamped: seq<Event>, i: int)
    requires 0 <= i < |stamped|
  {
    (if i == 0 then latest else stamped[i - 1].ts) < 0x7FFF_FFFF_FFFF_FFFF
  }

  // The head before each record leaves room for another sequence.
  ghost predicate HasRoom(latest: int, stamped: seq<Event>) {
    forall i :: 0 <= i < |stamped| ==> RoomAt(latest, stamped, i)
  }

  // stamped are the records under the sequences the clock and the head give them, all
  // of which can be had.
  ghost predicate Stamps(
    latest: int, records: seq<Event>, stamped: seq<Event>, clock: Clock, first: nat, refuses: Refusals
  ) {
    && SameButStamp(records, stamped) && FollowsClock(latest, stamped, clock, first)
    && Accepted(stamped, refuses) && HasRoom(latest, stamped)
  }

  lemma StampsFirst(
    latest: int, records: seq<Event>, e: Event, rest: seq<Event>, clock: Clock, first: nat, refuses: Refusals)
    requires records != [] && e == records[0].(ts := Stamp(latest, clock(first)))
    requires latest < MAX_I64 && !refuses(e.ts) && Stamps(e.ts, records[1..], rest, clock, first + 1, refuses)
    ensures Stamps(latest, records, [e] + rest, clock, first, refuses)
  {
    var stamped := [e] + rest;
    SameButStampFirst(records, e, rest);
    FollowsFirst(latest, e, rest, clock, first);
    forall i | 0 <= i < |stamped| ensures RoomAt(latest, stamped, i) {
      if i > 0 { assert RoomAt(e.ts, rest, i - 1); }
    }
  }

  lemma StampsRest(latest: int, records: seq<Event>, stamped: seq<Event>, clock: Clock, first: nat, refuses: Refusals)
    requires records != [] && Stamps(latest, records, stamped, clock, first, refuses)
    ensures stamped[0] == records[0].(ts := Stamp(latest, clock(first))) && latest < MAX_I64 && !refuses(stamped[0].ts)
    ensures Stamps(stamped[0].ts, records[1..], stamped[1..], clock, first + 1, refuses)
  {
    var rest := stamped[1..];
    assert FollowsAt(latest, stamped, clock, first, 0) && RoomAt(latest, stamped, 0);
    var second: nat := first + 1;
    forall i | 0 <= i < |rest| ensures FollowsAt(stamped[0].ts, rest, clock, second, i) {
      assert FollowsAt(latest, stamped, clock, first, i + 1);
      assert second + i == first + (i + 1);
    }
    var others := records[1..];
    forall i | 0 <= i < |others| ensures rest[i] == others[i].(ts := rest[i].ts) {
      assert others[i] == records[i + 1] && rest[i] == stamped[i + 1];
    }
    forall i | 0 <= i < |rest| ensures RoomAt(stamped[0].ts, rest, i) {
      assert RoomAt(latest, stamped, i + 1);
    }
  }

  ghost predicate BelowHead(a: Appending) {
    forall s :: s in a.events ==> s <= a.latest
  }

  lemma {:induction false} AppendedStamps(a: Appending, records: seq<Event>, clock: Clock, refuses: Refusals)
    requires Append(a, records, clock, refuses).Some?
    ensures var b := Append(a, records, clock, refuses).value;
            a.stamped <= b.stamped && Stamps(a.latest, records, b.stamped[|a.stamped|..], clock, |a.stamped|, refuses)
    decreases |records|
  {
    if records != [] {
      var e := records[0].(ts := Stamp(a.latest, clock(|a.stamped|)));
      var next := Appending(a.events[e.ts := e], e.ts, a.stamped + [e]);
      AppendedStamps(next, records[1..], clock, refuses);
      var b := Append(next, records[1..], clock, refuses).value;
      SplitFirst(a.stamped, e, b.stamped);
      StampsFirst(a.latest, records, e, b.stamped[|a.stamped| + 1..], clock, |a.stamped|, refuses);
    }
  }

  lemma {:induction false} StampsAreAppended(a: Appending, records: seq<Event>, stamped: seq<Event>, clock: Clock, refuses: Refusals)
    requires BelowHead(a) && Stamps(a.latest, records, stamped, clock, |a.stamped|, refuses)
    ensures Append(a, records, clock, refuses).Some?
    ensures Append(a, records, clock, refuses).value.stamped == a.stamped + stamped
    decreases |records|
  {
    if records != [] {
      StampsRest(a.latest, records, stamped, clock, |a.stamped|, refuses);
      var e := stamped[0];
      var next := Appending(a.events[e.ts := e], e.ts, a.stamped + [e]);
      StampsAreAppended(next, records[1..], stamped[1..], clock, refuses);
      assert stamped == [e] + stamped[1..];
      assert a.stamped + [e] + stamped[1..] == a.stamped + stamped;
    }
  }

  // Appending to an empty list of stamps succeeds iff such stamps exist, and gives them.
  lemma AppendSucceedsExactly(a: Appending, records: seq<Event>, clock: Clock, refuses: Refusals)
    requires BelowHead(a) && a.stamped == []
    ensures Append(a, records, clock, refuses).Some? <==> exists stamped :: Stamps(a.latest, records, stamped, clock, 0, refuses)
    ensures Append(a, records, clock, refuses).Some? ==>
            Stamps(a.latest, records, Append(a, records, clock, refuses).value.stamped, clock, 0, refuses)
  {
    if Append(a, records, clock, refuses).Some? {
      AppendedStamps(a, records, clock, refuses);
      var b := Append(a, records, clock, refuses).value;
      assert b.stamped[|a.stamped|..] == b.stamped;
    }
    if stamped :| Stamps(a.latest, records, stamped, clock, 0, refuses) {
      StampsAreAppended(a, records, stamped, clock, refuses);
    }
  }

  // What the import of a commit starts the appending from.
  lemma ImportedStart(h: Head, log: seq<Entry>, legacy: Legacy, refuses: Refusals)
    requires Faithful(h, log) && Import(h, legacy, refuses).Some?
    ensures var r := Import(h, legacy, refuses).value;
            r.latest == HeadBefore(h, legacy) && BelowHead(Appending(r.events, r.latest, []))
  {
    var r := Import(h, legacy, refuses).value;
    ImportKeeps(h, log, legacy, refuses);
    forall s | s in r.events ensures s <= r.latest {
      StoredBelowLatest(r, log + Entries(Imported(h, legacy), true), s);
    }
  }

  // A commit succeeds iff the drive is imported or its log can be, and the sequences
  // that clock and head give the records can be had; and then it records exactly those.
  lemma CommitSucceedsExactly(
    h: Head, log: seq<Entry>, records: seq<Event>, legacy: Legacy, clock: Clock, refuses: Refusals, retention: nat)
    requires Faithful(h, log)
    ensures CommitHead(h, records, legacy, clock, refuses, retention).Some? <==>
            && (h.imported || Importable(legacy, refuses))
            && exists stamped :: Stamps(HeadBefore(h, legacy), records, stamped, clock, 0, refuses)
    ensures CommitHead(h, records, legacy, clock, refuses, retention).Some? ==>
            Stamps(HeadBefore(h, legacy), records, CommitHead(h, records, legacy, clock, refuses, retention).value.1, clock, 0, refuses)
  {
    ImportSucceedsExactly(h, log, legacy, refuses);
    if Import(h, legacy, refuses).Some? {
      var h1 := Import(h, legacy, refuses).value;
      ImportedStart(h, log, legacy, refuses);
      AppendSucceedsExactly(Appending(h1.events, h1.latest, []), records, clock, refuses);
    }
  }

  // An accepting database

  // The head and no reading comes so close to the end of the range that the records
  // after it run out of sequences.
  predicate LeavesRoom(clock: Clock, first: nat, n: nat, i: nat) {
    i + 1 < n ==> clock(first + i) + (n - 2 - i) < 0x7FFF_FFFF_FFFF_FFFF
  }

  ghost predicate Room(latest: int, n: nat, clock: Clock, first: nat) {
    (n > 0 ==> latest + n - 1 < 0x7FFF_FFFF_FFFF_FFFF) && forall i: nat :: LeavesRoom(clock, first, n, i)
  }

  lemma RoomStep(latest: int, n: nat, clock: Clock, first: nat)
    requires n > 0
    ensures Room(latest, n, clock, first) <==> latest < MAX_I64 && Room(Stamp(latest, clock(first)), n - 1, clock, first + 1)
  {
    var m: nat, second: nat := n - 1, first + 1;
    if Room(latest, n, clock, first) {
      assert LeavesRoom(clock, first, n, 0);
      forall i: nat ensures LeavesRoom(clock, second, m, i) {
        assert LeavesRoom(clock, first, n, i + 1);
        assert second + i == first + (i + 1);
      }
    }
    if latest < MAX_I64 && Room(Stamp(latest, clock(first)), m, clock, second) {
      forall i: nat ensures LeavesRoom(clock, first, n, i) {
        if i > 0 {
          assert LeavesRoom(clock, second, m, i - 1);
          assert second + (i - 1) == first + i;
        }
      }
    }
  }

  // With a database that refuses nothing, the sequences can be had iff there is room.
  lemma {:induction false} RoomExactly(latest: int, records: seq<Event>, clock: Clock, first: nat, refuses: Refusals)
    requires forall ts :: !refuses(ts)
    ensures (exists stamped :: Stamps(latest, records, stamped, clock, first, refuses)) <==> Room(latest, |records|, clock, first)
    decreases |records|
  {
    if records == [] {
      assert Stamps(latest, [], [], clock, first, refuses);
    } else {
      var e := records[0].(ts := Stamp(latest, clock(first)));
      RoomStep(latest, |records|, clock, first);
      RoomExactly(e.ts, records[1..], clock, first + 1, refuses);
      if stamped :| Stamps(latest, records, stamped, clock, first, refuses) {
        StampsRest(latest, records, stamped, clock, first, refuses);
      }
      if latest < MAX_I64 {
        var second: nat := first + 1;
        if rest :| Stamps(e.ts, records[1..], rest, clock, second, refuses) {
          StampsFirst(latest, records, e, rest, clock, first, refuses);
        }
      }
    }
  }

  // The step committed these records for this delivery, and nothing else.
  ghost predicate Committed(before: World, after: World, op: Op)
    requires op.CommitOp?
  {
    && |after.history| == |before.history| + 1 && before.history <= after.history
    && var n := after.history[|before.history|];
       n.Batch? && n.drive == op.drive && n.delivery == op.delivery && SameButStamp(op.records, n.stamped)
  }

  // After any run, with a database that refuses nothing: a delivery that is not already
  // committed and waiting for its acknowledgement is committed now, under any clock, iff
  // the drive is imported or its log can be, and the range has room.
  lemma {:induction false} FreshDeliveryCommitsExactly(ops: seq<Op>, op: Op, retention: nat)
    requires op.CommitOp? && forall ts :: !op.refuses(ts)
    requires op.delivery.Some? ==> !Open(Run(ops, retention).history, op.delivery.value)
    ensures var w := Run(ops, retention);
            var h := HeadOf(w.db, op.drive);
            var possible := (h.imported || Importable(op.legacy, op.refuses)) && Room(HeadBefore(h, op.legacy), |op.records|, op.clock, 0);
            if possible then Committed(w, Next(w, op, retention), op) else Next(w, op, retention) == w
  {
    RunsKeepInv(ops, retention);
    var w := Run(ops, retention);
    var h, log := HeadOf(w.db, op.drive), DriveLog(w.history, op.drive);
    assert Faithful(h, log);
    assert !Redelivered(w.db, op.delivery);
    RoomExactly(HeadBefore(h, op.legacy), op.records, op.clock, 0, op.refuses);
    CommitSucceedsExactly(h, log, op.records, op.legacy, op.clock, op.refuses, retention);
    var r := CommitHead(h, op.records, op.legacy, op.clock, op.refuses, retention);
    if r.Some? {
      var n := CommitMoves(w, op, retention, r.value);
    }
  }
}
