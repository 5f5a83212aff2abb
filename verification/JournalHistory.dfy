// What every transaction on the journal keeps, and what holds after any run of
// commits (retried, failing or successful, under any clock) and acknowledgements.
module JournalHistory {
  import opened Prelude
  import opened Journal

  // One drive

  datatype Entry = Entry(event: Event, imported: bool)

  function Entries(es: seq<Event>, imported: bool): (r: seq<Entry>)
    ensures |r| == |es| && forall i :: 0 <= i < |es| ==> r[i] == Entry(es[i], imported)
  {
    seq(|es|, i requires 0 <= i < |es| => Entry(es[i], imported))
  }

  ghost predicate Stored(events: map<int, Event>, e: Event) {
    e.ts in events && events[e.ts] == e
  }

  ghost predicate Keyed(events: map<int, Event>) {
    forall s :: s in events ==> events[s].ts == s
  }

  ghost predicate Logged(log: seq<Entry>, e: Event) {
    exists i :: 0 <= i < |log| && log[i].event == e
  }

  // Entries the journal allocated itself lie strictly above everything before them.
  ghost predicate Ordered(log: seq<Entry>) {
    forall i, j :: 0 <= i < j < |log| ==>
      log[i].event.ts != log[j].event.ts && (!log[j].imported ==> log[i].event.ts < log[j].event.ts)
  }

  // log is everything the drive's journal ever held, in commit order.
  ghost predicate Faithful(h: Head, log: seq<Entry>) {
    && Keyed(h.events)
    && (forall s :: s in h.events ==> Logged(log, h.events[s]))
    && (forall i :: 0 <= i < |log| ==> Stored(h.events, log[i].event) || log[i].event.ts <= h.floor)
    && (forall i :: 0 <= i < |log| ==> log[i].event.ts <= h.latest)
    && Ordered(log)
    && (!h.imported ==> h == NoHead() && log == [])
  }

  lemma StoredBelowLatest(h: Head, log: seq<Entry>, s: int)
    requires Faithful(h, log) && s in h.events
    ensures s <= h.latest
  {
    var i :| 0 <= i < |log| && log[i].event == h.events[s];
  }

  // Import

  ghost predicate DistinctTs(es: seq<Event>) {
    forall i, j :: 0 <= i < j < |es| ==> es[i].ts != es[j].ts
  }

  // The table after holds what it held before and es.
  ghost predicate Gains(before: map<int, Event>, after: map<int, Event>, es: seq<Event>) {
    Keyed(after) && forall e :: Stored(after, e) <==> Stored(before, e) || e in es
  }

  lemma GainFirst(before: map<int, Event>, e: Event, after: map<int, Event>, rest: seq<Event>)
    requires Keyed(before) && e.ts !in before && Gains(before[e.ts := e], after, rest)
    ensures Gains(before, after, [e] + rest)
  {
    forall x ensures Stored(after, x) <==> Stored(before, x) || x in [e] + rest {
      assert Stored(before[e.ts := e], x) <==> Stored(before, x) || x == e;
    }
  }

  ghost predicate Fits(events: map<int, Event>, es: seq<Event>, refuses: Refusals) {
    DistinctTs(es) && forall i :: 0 <= i < |es| ==> es[i].ts !in events && !refuses(es[i].ts)
  }

  // The insertions succeed exactly when no sequence is taken twice or refused,
  // and then the table holds what it held and the inserted events.
  lemma {:induction false} InsertAllExactly(events: map<int, Event>, es: seq<Event>, refuses: Refusals)
    requires Keyed(events)
    ensures InsertAll(events, es, refuses).Some? <==> Fits(events, es, refuses)
    ensures InsertAll(events, es, refuses).Some? ==> Gains(events, InsertAll(events, es, refuses).value, es)
    decreases |es|
  {
    if es != [] {
      var first, rest := es[0], es[1..];
      assert es == [first] + rest;
      if first.ts !in events && !refuses(first.ts) {
        var next := events[first.ts := first];
        InsertAllExactly(next, rest, refuses);
        if Fits(events, es, refuses) {
          assert forall i :: 0 <= i < |rest| ==> rest[i] == es[i + 1];
        }
        if Fits(next, rest, refuses) {
          GainFirst(events, first, InsertAll(next, rest, refuses).value, rest);
          assert forall i :: 0 < i < |es| ==> es[i] == rest[i - 1] && es[i].ts !in next;
        }
      }
    }
  }

  // Entries for es over an empty journal whose table is exactly es.
  lemma FreshJournal(h: Head, es: seq<Event>)
    requires h.imported && Gains(map[], h.events, es) && DistinctTs(es)
    requires forall e :: e in es ==> e.ts <= h.latest
    ensures Faithful(h, Entries(es, true))
  {
    var log := Entries(es, true);
    forall s | s in h.events ensures Logged(log, h.events[s]) {
      assert Stored(h.events, h.events[s]);
      var k :| 0 <= k < |es| && es[k] == h.events[s];
      assert log[k].event == h.events[s];
    }
    forall i | 0 <= i < |log| ensures Stored(h.events, log[i].event) && log[i].event.ts <= h.latest {
      assert log[i].event == es[i] && es[i] in es;
    }
  }

  lemma ImportKeeps(h: Head, log: seq<Entry>, legacy: Legacy, refuses: Refusals)
    requires Faithful(h, log) && Import(h, legacy, refuses).Some?
    ensures Faithful(Import(h, legacy, refuses).value, log + Entries(Imported(h, legacy), true))
    ensures Import(h, legacy, refuses).value.imported
  {
    var es := Imported(h, legacy);
    if h.imported {
      assert log + Entries(es, true) == log;
    } else {
      InsertAllExactly(map[], es, refuses);
      FreshJournal(Import(h, legacy, refuses).value, es);
      assert log + Entries(es, true) == Entries(es, true);
    }
  }

  // After the import of a log that is not empty, floor and head are the oldest and
  // the newest stored sequence; after that of an empty one both are zero.
  lemma ImportBoundsAreExact(h: Head, log: seq<Entry>, legacy: Legacy, refuses: Refusals)
    requires Faithful(h, log) && !h.imported && Import(h, legacy, refuses).Some?
    ensures var r := Import(h, legacy, refuses).value;
            if Imported(h, legacy) == [] then r.floor == r.latest == 0 && r.events == map[]
            else r.floor in r.events && r.latest in r.events && forall s :: s in r.events ==> r.floor <= s <= r.latest
  {
    var r := Import(h, legacy, refuses).value;
    var es := Imported(h, legacy);
    if es != [] {
      InsertAllExactly(map[], es, refuses);
      var oldest :| oldest in es && oldest.ts == r.floor;
      var newest :| newest in es && newest.ts == r.latest;
      assert Stored(r.events, oldest) && Stored(r.events, newest);
      forall s | s in r.events ensures r.floor <= s <= r.latest {
        assert Stored(r.events, r.events[s]) && !Stored(map[], r.events[s]);
      }
    }
  }

  // Append

  // tail climbs strictly from above the old head to the new one.
  ghost predicate Climbs(from: int, tail: seq<Event>, to: int) {
    && (forall i :: 0 <= i < |tail| ==> from < tail[i].ts <= to)
    && (forall i, j :: 0 <= i < j < |tail| ==> tail[i].ts < tail[j].ts)
    && to == if tail == [] then from else tail[|tail| - 1].ts
  }

  ghost predicate SameButStamp(records: seq<Event>, stamped: seq<Event>) {
    |records| == |stamped| && forall i :: 0 <= i < |records| ==> stamped[i] == records[i].(ts := stamped[i].ts)
  }

  // b adds to a the records, in order, under strictly growing sequences above
  // a's head, whatever the clock read.
  ghost predicate Appended(a: Appending, records: seq<Event>, b: Appending) {
    && a.stamped <= b.stamped
    && var tail := b.stamped[|a.stamped|..];
       SameButStamp(records, tail) && Climbs(a.latest, tail, b.latest) && Gains(a.events, b.events, tail)
  }

  lemma SplitFirst(stamped: seq<Event>, e: Event, all: seq<Event>)
    requires stamped + [e] <= all
    ensures all[|stamped|..] == [e] + all[|stamped| + 1..]
  {
    assert all[|stamped|] == (stamped + [e])[|stamped|];
  }

  lemma ClimbsFirst(from: int, e: Event, rest: seq<Event>, to: int)
    requires from < e.ts && Climbs(e.ts, rest, to)
    ensures Climbs(from, [e] + rest, to)
  {}

  lemma SameButStampFirst(records: seq<Event>, e: Event, rest: seq<Event>)
    requires records != [] && e == records[0].(ts := e.ts) && SameButStamp(records[1..], rest)
    ensures SameButStamp(records, [e] + rest)
  {
    var tail := [e] + rest;
    forall i | 0 <= i < |records| ensures tail[i] == records[i].(ts := tail[i].ts) {
      if i > 0 { assert records[i] == records[1..][i - 1] && tail[i] == rest[i - 1]; }
    }
  }

  lemma AppendFirst(a: Appending, e: Event, records: seq<Event>, b: Appending)
    requires Keyed(a.events) && e.ts !in a.events && records != [] && a.latest < e.ts && e == records[0].(ts := e.ts)
    requires Appended(Appending(a.events[e.ts := e], e.ts, a.stamped + [e]), records[1..], b)
    ensures Appended(a, records, b)
  {
    var rest := b.stamped[|a.stamped| + 1..];
    SplitFirst(a.stamped, e, b.stamped);
    GainFirst(a.events, e, b.events, rest);
    ClimbsFirst(a.latest, e, rest, b.latest);
    SameButStampFirst(records, e, rest);
  }

  lemma {:induction false} AppendClimbs(a: Appending, records: seq<Event>, clock: Clock, refuses: Refusals)
    requires Keyed(a.events) && Append(a, records, clock, refuses).Some?
    ensures Appended(a, records, Append(a, records, clock, refuses).value)
    decreases |records|
  {
    if records != [] {
      var e := records[0].(ts := Stamp(a.latest, clock(|a.stamped|)));
      AppendClimbs(Appending(a.events[e.ts := e], e.ts, a.stamped + [e]), records[1..], clock, refuses);
      AppendFirst(a, e, records, Append(a, records, clock, refuses).value);
    }
  }

  predicate FollowsAt(from: int, tail: seq<Event>, clock: Clock, first: nat, i: int)
    requires 0 <= i < |tail|
  {
    var before, reading := if i == 0 then from else tail[i - 1].ts, clock(first + i);
    if reading > before then tail[i].ts == reading else tail[i].ts == before + 1
  }

  // Each sequence is the clock's reading for that record if that lies above the
  // sequence before it, and otherwise the one next to it.
  ghost predicate FollowsClock(from: int, tail: seq<Event>, clock: Clock, first: nat) {
    forall i :: 0 <= i < |tail| ==> FollowsAt(from, tail, clock, first, i)
  }

  lemma FollowsFirst(from: int, e: Event, rest: seq<Event>, clock: Clock, first: nat)
    requires e.ts == Stamp(from, clock(first)) && FollowsClock(e.ts, rest, clock, first + 1)
    ensures FollowsClock(from, [e] + rest, clock, first)
  {
    var tail := [e] + rest;
    forall i | 0 <= i < |tail| ensures FollowsAt(from, tail, clock, first, i) {
      if i > 0 {
        assert FollowsAt(e.ts, rest, clock, first + 1, i - 1);
        assert first + 1 + (i - 1) == first + i;
      }
    }
  }

  lemma {:induction false} StampsFollowClock(a: Appending, records: seq<Event>, clock: Clock, refuses: Refusals)
    requires Append(a, records, clock, refuses).Some?
    ensures var b := Append(a, records, clock, refuses).value;
            a.stamped <= b.stamped && FollowsClock(a.latest, b.stamped[|a.stamped|..], clock, |a.stamped|)
    decreases |records|
  {
    if records != [] {
      var e := records[0].(ts := Stamp(a.latest, clock(|a.stamped|)));
      var next := Appending(a.events[e.ts := e], e.ts, a.stamped + [e]);
      StampsFollowClock(next, records[1..], clock, refuses);
      var b := Append(next, records[1..], clock, refuses).value;
      SplitFirst(a.stamped, e, b.stamped);
      FollowsFirst(a.latest, e, b.stamped[|a.stamped| + 1..], clock, |a.stamped|);
    }
  }

  lemma AppendKeeps(h: Head, log: seq<Entry>, b: Appending, tail: seq<Event>)
    requires Faithful(h, log) && h.imported
    requires Climbs(h.latest, tail, b.latest) && Gains(h.events, b.events, tail)
    ensures Faithful(h.(latest := b.latest, events := b.events), log + Entries(tail, false))
  {
    var after := log + Entries(tail, false);
    forall s | s in b.events ensures Logged(after, b.events[s]) {
      var e := b.events[s];
      assert Stored(b.events, e);
      if Stored(h.events, e) {
        var i :| 0 <= i < |log| && log[i].event == h.events[s];
        assert after[i].event == e;
      } else {
        var k :| 0 <= k < |tail| && tail[k] == e;
        assert after[|log| + k].event == e;
      }
    }
    forall i | 0 <= i < |after|
      ensures (Stored(b.events, after[i].event) || after[i].event.ts <= h.floor) && after[i].event.ts <= b.latest
    {
      if i >= |log| { assert after[i].event == tail[i - |log|] && tail[i - |log|] in tail; }
    }
  }

  // Prune

  function Above(keys: set<int>, c: int): set<int> {
    set k | k in keys && k > c
  }

  // The n-th newest key has exactly n keys above it; there is none when at most n are left.
  lemma {:induction false} NthNewestSplits(keys: set<int>, n: nat)
    ensures NthNewest(keys, n).None? <==> |keys| <= n
    ensures NthNewest(keys, n).Some? ==> NthNewest(keys, n).value in keys && |Above(keys, NthNewest(keys, n).value)| == n
    decreases n
  {
    if keys == {} {
    } else {
      var top := MaxOf(keys);
      var rest := keys - {top};
      assert |rest| == |keys| - 1;
      if n == 0 {
        assert Above(keys, top) == {};
      } else {
        NthNewestSplits(rest, n - 1);
        if NthNewest(rest, n - 1).Some? {
          var c := NthNewest(rest, n - 1).value;
          assert Above(keys, c) == Above(rest, c) + {top};
        }
      }
    }
  }

  lemma SubsetSize(a: set<int>, b: set<int>)
    requires a <= b
    ensures |a| <= |b|
  {
    assert b == a + (b - a);
  }

  // At most the retention number is left, those are the newest, everything
  // removed is at or below the new floor, and the floor never goes down.
  lemma PruneKeepsNewest(h: Head, retention: nat)
    ensures var p := Prune(h, retention);
            && |p.events| <= retention
            && (|h.events| > retention ==> |p.events| == retention)
            && (forall s :: s in p.events ==> s in h.events && p.events[s] == h.events[s])
            && (forall r, s :: r in h.events && r !in p.events && s in p.events ==> r < s)
            && (forall r :: r in h.events && r !in p.events ==> r <= p.floor)
            && (forall r :: r in h.events && r !in p.events && |h.events| <= retention ==> r <= 0)
            && h.floor <= p.floor
  {
    var keys := h.events.Keys;
    var p := Prune(h, retention);
    NthNewestSplits(keys, retention);
    var cutoff := Cutoff(keys, retention);
    assert p.events.Keys == Above(keys, cutoff);
    assert |p.events| == |p.events.Keys| && |h.events| == |keys|;
    SubsetSize(Above(keys, cutoff), keys);
  }

  // The floor stays at or below the head exactly when the head is not negative
  // or the cutoff is one of the stored sequences.
  lemma FloorBelowLatestExactly(h: Head, log: seq<Entry>, retention: nat)
    requires Faithful(h, log) && h.floor <= h.latest
    ensures Prune(h, retention).floor <= Prune(h, retention).latest <==> h.latest >= 0 || |h.events| > retention
  {
    NthNewestSplits(h.events.Keys, retention);
    assert |h.events| == |h.events.Keys|;
    if |h.events| > retention {
      StoredBelowLatest(h, log, Cutoff(h.events.Keys, retention));
    }
  }

  // A legacy log whose events are all negative does put the floor above the head.
  lemma NegativeLegacyBreaksFloor(kind: string, retention: nat)
    requires retention >= 1
    ensures var legacy := Text([Parsed(Event(-5, kind, "", "", false))]);
            var r := CommitHead(NoHead(), [], legacy, i => 0, s => false, retention);
            r.Some? && r.value.0.floor > r.value.0.latest
  {
    var e := Event(-5, kind, "", "", false);
    var legacy := Text([Parsed(e)]);
    var lines := [Parsed(e)];
    assert lines[1..] == [] && ParseLines(lines[1..]) == Some([]);
    assert [e] + [] == [e];
    assert ParseLines(lines) == Some([e]);
    var none: Refusals := s => false;
    assert InsertAll(map[], [e], none) == Some(map[-5 := e]) by {
      assert [e][1..] == [];
    }
    var head := Head(-5, -5, true, map[-5 := e]);
    assert Import(NoHead(), legacy, none) == Some(head);
    assert NthNewest(head.events.Keys, retention).None? by {
      NthNewestSplits(head.events.Keys, retention);
      assert head.events.Keys == {-5};
    }
    var clock: Clock := i => 0;
    assert Append(Appending(head.events, head.latest, []), [], clock, none) == Some(Appending(head.events, -5, []));
  }

  lemma PruneKeeps(h: Head, log: seq<Entry>, retention: nat)
    requires Faithful(h, log) && h.imported
    ensures Faithful(Prune(h, retention), log)
  {
    PruneKeepsNewest(h, retention);
    var p := Prune(h, retention);
    forall i | 0 <= i < |log| ensures Stored(p.events, log[i].event) || log[i].event.ts <= p.floor {
      if Stored(h.events, log[i].event) {
        assert log[i].event.ts in h.events;
      }
    }
  }

  // One transaction

  function LogAfter(log: seq<Entry>, h: Head, legacy: Legacy, stamped: seq<Event>): seq<Entry> {
    log + Entries(Imported(h, legacy), true) + Entries(stamped, false)
  }

  lemma CommitKeeps(h: Head, log: seq<Entry>, records: seq<Event>, legacy: Legacy, clock: Clock, refuses: Refusals, retention: nat)
    requires Faithful(h, log)
    requires CommitHead(h, records, legacy, clock, refuses, retention).Some?
    ensures var r := CommitHead(h, records, legacy, clock, refuses, retention).value;
            && Faithful(r.0, LogAfter(log, h, legacy, r.1))
            && r.0.imported
            && SameButStamp(records, r.1)
            && |r.0.events| <= retention
  {
    var h1 := Import(h, legacy, refuses).value;
    var log1 := log + Entries(Imported(h, legacy), true);
    ImportKeeps(h, log, legacy, refuses);
    var a := Appending(h1.events, h1.latest, []);
    AppendClimbs(a, records, clock, refuses);
    var b := Append(a, records, clock, refuses).value;
    assert b.stamped[|a.stamped|..] == b.stamped;
    AppendKeeps(h1, log1, b, b.stamped);
    var h2 := h1.(latest := b.latest, events := b.events);
    PruneKeeps(h2, log1 + Entries(b.stamped, false), retention);
    PruneKeepsNewest(h2, retention);
  }

  lemma ImportedIsLogged(h: Head, log: seq<Entry>, legacy: Legacy, stamped: seq<Event>, e: Event)
    requires e in Imported(h, legacy)
    ensures Logged(LogAfter(log, h, legacy, stamped), e)
  {
    var es := Imported(h, legacy);
    var k :| 0 <= k < |es| && es[k] == e;
    assert LogAfter(log, h, legacy, stamped)[|log| + k].event == e;
  }

  lemma LoggedIsStoredOrPruned(h: Head, log: seq<Entry>, e: Event)
    requires Faithful(h, log) && Logged(log, e)
    ensures Stored(h.events, e) || e.ts <= h.floor
  {
    var i :| 0 <= i < |log| && log[i].event == e;
  }

  // The first commit to a drive succeeds only if every line of its legacy log was
  // read, and then the journal holds every event of the log, or has it at or below
  // its floor; removing the log loses no history.
  lemma FirstCommitImportsLog(
    h: Head, log: seq<Entry>, records: seq<Event>, legacy: Legacy, clock: Clock, refuses: Refusals, retention: nat, e: Event)
    requires Faithful(h, log) && !h.imported
    requires CommitHead(h, records, legacy, clock, refuses, retention).Some?
    ensures LegacyEvents(legacy).Some?
    ensures e in LegacyEvents(legacy).value ==>
            var r := CommitHead(h, records, legacy, clock, refuses, retention).value;
            r.0.imported && Logged(LogAfter(log, h, legacy, r.1), e) && (Stored(r.0.events, e) || e.ts <= r.0.floor)
  {
    var r := CommitHead(h, records, legacy, clock, refuses, retention).value;
    if e in LegacyEvents(legacy).value {
      CommitKeeps(h, log, records, legacy, clock, refuses, retention);
      ImportedIsLogged(h, log, legacy, r.1, e);
      LoggedIsStoredOrPruned(r.0, LogAfter(log, h, legacy, r.1), e);
    }
  }

  // On an imported journal a commit only climbs: it imports nothing more, and
  // the floor and the head never go down.
  lemma CommitClimbs(h: Head, log: seq<Entry>, records: seq<Event>, legacy: Legacy, clock: Clock, refuses: Refusals, retention: nat)
    requires Faithful(h, log) && h.imported
    requires CommitHead(h, records, legacy, clock, refuses, retention).Some?
    ensures var r := CommitHead(h, records, legacy, clock, refuses, retention).value;
            && Climbs(h.latest, r.1, r.0.latest)
            && h.floor <= r.0.floor
            && LogAfter(log, h, legacy, r.1) == log + Entries(r.1, false)
  {
    var a := Appending(h.events, h.latest, []);
    AppendClimbs(a, records, clock, refuses);
    var b := Append(a, records, clock, refuses).value;
    assert b.stamped[|a.stamped|..] == b.stamped;
    assert log + Entries([], true) == log;
  }

  // The floor against the head

  lemma PutCounts(events: map<int, Event>, e: Event)
    requires e.ts !in events
    ensures |events[e.ts := e]| == |events| + 1
  {
    assert events[e.ts := e].Keys == events.Keys + {e.ts};
  }

  lemma {:induction false} InsertCounts(events: map<int, Event>, es: seq<Event>, refuses: Refusals)
    requires InsertAll(events, es, refuses).Some?
    ensures |InsertAll(events, es, refuses).value| == |events| + |es|
    decreases |es|
  {
    if es != [] {
      PutCounts(events, es[0]);
      InsertCounts(events[es[0].ts := es[0]], es[1..], refuses);
    }
  }

  lemma {:induction false} AppendCounts(a: Appending, records: seq<Event>, clock: Clock, refuses: Refusals)
    requires Append(a, records, clock, refuses).Some?
    ensures |Append(a, records, clock, refuses).value.events| == |a.events| + |records|
    decreases |records|
  {
    if records != [] {
      var e := records[0].(ts := Stamp(a.latest, clock(|a.stamped|)));
      PutCounts(a.events, e);
      AppendCounts(Appending(a.events[e.ts := e], e.ts, a.stamped + [e]), records[1..], clock, refuses);
    }
  }

  // The i-th of n readings alone lifts the head to zero or above.
  predicate Lifts(clock: Clock, first: nat, n: nat, i: nat) {
    i < n && clock(first + i) + (n - 1 - i) >= 0
  }

  // n records stamped by this clock after the head latest end at zero or above.
  ghost predicate EndsNonNegative(latest: int, n: nat, clock: Clock, first: nat) {
    latest + n >= 0 || exists i: nat :: Lifts(clock, first, n, i)
  }

  lemma LiftsLater(latest: int, n: nat, clock: Clock, first: nat)
    requires n > 0
    ensures EndsNonNegative(Stamp(latest, clock(first)), n - 1, clock, first + 1) <==> EndsNonNegative(latest, n, clock, first)
  {
    var m: nat, second: nat := n - 1, first + 1;
    if i: nat :| Lifts(clock, second, m, i) {
      assert second + i == first + (i + 1);
      assert Lifts(clock, first, n, i + 1);
    }
    if i: nat :| Lifts(clock, first, n, i) {
      if i == 0 {
        assert Stamp(latest, clock(first)) + m >= 0;
      } else {
        assert second + (i - 1) == first + i;
        assert Lifts(clock, second, m, i - 1);
      }
    }
    if Stamp(latest, clock(first)) + m >= 0 && latest + n < 0 {
      assert Lifts(clock, first, n, 0);
    }
  }

  lemma {:induction false} AppendedHeadSign(a: Appending, records: seq<Event>, clock: Clock, refuses: Refusals)
    requires Append(a, records, clock, refuses).Some?
    ensures Append(a, records, clock, refuses).value.latest >= 0 <==> EndsNonNegative(a.latest, |records|, clock, |a.stamped|)
    decreases |records|
  {
    if records != [] {
      var e := records[0].(ts := Stamp(a.latest, clock(|a.stamped|)));
      AppendedHeadSign(Appending(a.events[e.ts := e], e.ts, a.stamped + [e]), records[1..], clock, refuses);
      LiftsLater(a.latest, |records|, clock, |a.stamped|);
    }
  }

  // The head and the number of events a commit starts from once it has imported.
  function HeadBefore(h: Head, legacy: Legacy): int {
    if h.imported then h.latest
    else if Imported(h, legacy) == [] then 0 else MaxTs(Imported(h, legacy))
  }

  function CountBefore(h: Head, legacy: Legacy): nat {
    if h.imported then |h.events| else |Imported(h, legacy)|
  }

  lemma ImportStarts(h: Head, log: seq<Entry>, legacy: Legacy, refuses: Refusals)
    requires Faithful(h, log) && h.floor <= h.latest && Import(h, legacy, refuses).Some?
    ensures var r := Import(h, legacy, refuses).value;
            r.latest == HeadBefore(h, legacy) && |r.events| == CountBefore(h, legacy) && r.floor <= r.latest
  {
    if !h.imported {
      InsertCounts(map[], Imported(h, legacy), refuses);
    }
  }

  // When a commit keeps floor <= latest, in terms of what is there before it: the
  // head, the log still to be imported, the number of records and the clock.
  lemma CommitFloorExactly(
    h: Head, log: seq<Entry>, records: seq<Event>, legacy: Legacy, clock: Clock, refuses: Refusals, retention: nat)
    requires Faithful(h, log) && h.floor <= h.latest
    requires CommitHead(h, records, legacy, clock, refuses, retention).Some?
    ensures var r := CommitHead(h, records, legacy, clock, refuses, retention).value.0;
            r.floor <= r.latest <==>
            EndsNonNegative(HeadBefore(h, legacy), |records|, clock, 0) || CountBefore(h, legacy) + |records| > retention
    ensures CommitHead(h, records, legacy, clock, refuses, retention).value.0.latest >= 0 <==>
            EndsNonNegative(HeadBefore(h, legacy), |records|, clock, 0)
  {
    var h1 := Import(h, legacy, refuses).value;
    ImportKeeps(h, log, legacy, refuses);
    ImportStarts(h, log, legacy, refuses);
    var log1 := log + Entries(Imported(h, legacy), true);
    var a := Appending(h1.events, h1.latest, []);
    AppendClimbs(a, records, clock, refuses);
    AppendCounts(a, records, clock, refuses);
    AppendedHeadSign(a, records, clock, refuses);
    var b := Append(a, records, clock, refuses).value;
    assert b.stamped[|a.stamped|..] == b.stamped;
    AppendKeeps(h1, log1, b, b.stamped);
    FloorBelowLatestExactly(h1.(latest := b.latest, events := b.events), log1 + Entries(b.stamped, false), retention);
  }

  // For the empty commit to a drive not yet imported: the log is empty, or its newest
  // timestamp is not negative, or it has more events than are retained.
  lemma EmptyCommitFloorExactly(legacy: Legacy, clock: Clock, refuses: Refusals, retention: nat)
    requires CommitHead(NoHead(), [], legacy, clock, refuses, retention).Some?
    ensures var r := CommitHead(NoHead(), [], legacy, clock, refuses, retention).value.0;
            var es := Imported(NoHead(), legacy);
            r.floor <= r.latest <==> es == [] || MaxTs(es) >= 0 || |es| > retention
  {
    CommitFloorExactly(NoHead(), [], [], legacy, clock, refuses, retention);
    assert EndsNonNegative(HeadBefore(NoHead(), legacy), 0, clock, 0) <==> HeadBefore(NoHead(), legacy) >= 0;
  }

  // A legacy log that is unreadable, empty, or has a timestamp that is not negative.
  ghost predicate NotAllNegative(legacy: Legacy) {
    LegacyEvents(legacy).Some? && LegacyEvents(legacy).value != [] ==> MaxTs(LegacyEvents(legacy).value) >= 0
  }

  lemma CommitKeepsFloor(h: Head, log: seq<Entry>, records: seq<Event>, legacy: Legacy, clock: Clock, refuses: Refusals, retention: nat)
    requires Faithful(h, log) && 0 <= h.latest && h.floor <= h.latest && NotAllNegative(legacy)
    requires CommitHead(h, records, legacy, clock, refuses, retention).Some?
    ensures var r := CommitHead(h, records, legacy, clock, refuses, retention).value;
            0 <= r.0.latest && r.0.floor <= r.0.latest
  {
    CommitFloorExactly(h, log, records, legacy, clock, refuses, retention);
  }
}
