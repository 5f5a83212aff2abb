// The event journal of the shared state database. Each commit is one SQLite
// transaction: it imports the legacy log once, allocates sequences, inserts,
// prunes with a persisted floor, and consumes receipts, or does nothing at all.
module Journal {
  import opened Prelude

  const MAX_I64: int := 0x7FFF_FFFF_FFFF_FFFF

  datatype Event = Event(ts: int, kind: string, from: string, to: string, localEcho: bool)

  // One drive's row of fp_event_heads and its rows of fp_events, keyed by sequence.
  datatype Head = Head(latest: int, floor: int, imported: bool, events: map<int, Event>)

  datatype Line = Blank | Malformed | Parsed(event: Event)

  datatype Legacy = Missing | Unreadable | Text(lines: seq<Line>)

  datatype Receipt = Receipt(key: string, payload: string)

  // receipts is the fileprovider-upload-receipts namespace of fp_records.
  datatype Db = Db(heads: map<string, Head>, deliveries: set<string>, receipts: map<string, string>)

  type Clock = nat -> int

  // The insertions the database refuses for reasons of its own, by sequence.
  type Refusals = int -> bool

  function NoHead(): Head
  {
    Head(0, 0, false, map[])
  }

  function HeadOf(db: Db, drive: string): Head
  {
    if drive in db.heads then db.heads[drive] else NoHead()
  }

  // Import

  function ParseLines(lines: seq<Line>): Option<seq<Event>>
  {
    if lines == [] then Some([])
    else if lines[0].Blank? then ParseLines(lines[1..])
    else if lines[0].Malformed? then None
    else
      var rest := ParseLines(lines[1..]);
      if rest.None? then None else Some([lines[0].event] + rest.value)
  }

  // (drive, sequence) is the primary key, so a second event at a sequence is refused.
  function InsertAll(events: map<int, Event>, es: seq<Event>, refuses: Refusals): Option<map<int, Event>>
    decreases |es|
  {
    if es == [] then Some(events)
    else if es[0].ts in events || refuses(es[0].ts) then None
    else InsertAll(events[es[0].ts := es[0]], es[1..], refuses)
  }

  function MaxTs(es: seq<Event>): (m: int)
    requires es != []
    ensures forall e :: e in es ==> e.ts <= m
    ensures exists e :: e in es && e.ts == m
  {
    if |es| == 1 then es[0].ts
    else
      var m := MaxTs(es[1..]);
      if es[0].ts > m then es[0].ts else m
  }

  function MinTs(es: seq<Event>): (m: int)
    requires es != []
    ensures forall e :: e in es ==> m <= e.ts
    ensures exists e :: e in es && e.ts == m
  {
    if |es| == 1 then es[0].ts
    else
      var m := MinTs(es[1..]);
      if es[0].ts < m then es[0].ts else m
  }

  function LegacyEvents(legacy: Legacy): Option<seq<Event>>
  {
    match legacy
    case Missing => Some([])
    case Unreadable => None
    case Text(lines) => ParseLines(lines)
  }

  function Import(h: Head, legacy: Legacy, refuses: Refusals): Option<Head>
  {
    if h.imported then Some(h)
    else
      var es := LegacyEvents(legacy);
      if es.None? then None
      else
        var events := InsertAll(h.events, es.value, refuses);
        if events.None? then None
        else if es.value == [] then Some(Head(0, 0, true, events.value))
        else Some(Head(MaxTs(es.value), MinTs(es.value), true, events.value))
  }

  // What a successful import adds to the journal.
  function Imported(h: Head, legacy: Legacy): seq<Event>
  {
    if h.imported || LegacyEvents(legacy).None? then [] else LegacyEvents(legacy).value
  }

  // Append

  // The i-th record is stamped with the clock's i-th reading or the next free sequence.
  function Stamp(latest: int, reading: int): int
  {
    if reading > latest + 1 then reading else latest + 1
  }

  datatype Appending = Appending(events: map<int, Event>, latest: int, stamped: seq<Event>)

  function Append(a: Appending, records: seq<Event>, clock: Clock, refuses: Refusals): Option<Appending>
    decreases |records|
  {
    if records == [] then Some(a)
    else if a.latest >= MAX_I64 then None
    else
      var e := records[0].(ts := Stamp(a.latest, clock(|a.stamped|)));
      if e.ts in a.events || refuses(e.ts) then None
      else Append(Appending(a.events[e.ts := e], e.ts, a.stamped + [e]), records[1..], clock, refuses)
  }

  // Prune

  predicate IsMax(s: set<int>, m: int) {
    m in s && forall x :: x in s ==> x <= m
  }

  lemma AnyOf<T>(s: set<T>) returns (x: T)
    requires s != {}
    ensures x in s
  {
    x :| x in s;
  }

  lemma {:induction false} HasMax(s: set<int>)
    requires s != {}
    ensures exists m :: IsMax(s, m)
    decreases |s|
  {
    var x := AnyOf(s);
    if s == {x} {
      assert IsMax(s, x);
    } else {
      var rest := s - {x};
      assert s == rest + {x};
      HasMax(rest);
      var m :| IsMax(rest, m);
      assert IsMax(s, if x > m then x else m);
    }
  }

  function MaxOf(s: set<int>): (m: int)
    requires s != {}
    ensures IsMax(s, m)
  {
    HasMax(s);
    var m :| IsMax(s, m);
    m
  }

  // ORDER BY sequence DESC LIMIT 1 OFFSET n
  function NthNewest(keys: set<int>, n: nat): Option<int>
    decreases |keys|
  {
    if keys == {} then None
    else if n == 0 then Some(MaxOf(keys))
    else NthNewest(keys - {MaxOf(keys)}, n - 1)
  }

  function Cutoff(keys: set<int>, retention: nat): int
  {
    var c := NthNewest(keys, retention);
    if c.Some? then c.value else 0
  }

  function Prune(h: Head, retention: nat): Head
  {
    var cutoff := Cutoff(h.events.Keys, retention);
    h.(floor := if cutoff > h.floor then cutoff else h.floor, events := map s | s in h.events && s > cutoff :: h.events[s])
  }

  // Receipts

  function DeleteReceipts(table: map<string, string>, receipts: seq<Receipt>): map<string, string>
    decreases |receipts|
  {
    if receipts == [] then table
    else
      var r := receipts[0];
      DeleteReceipts(if r.key in table && table[r.key] == r.payload then table - {r.key} else table, receipts[1..])
  }

  // One transaction

  datatype Committed = Committed(db: Db, stamped: seq<Event>)

  function CommitHead(h: Head, records: seq<Event>, legacy: Legacy, clock: Clock, refuses: Refusals, retention: nat): Option<(Head, seq<Event>)>
  {
    var imported := Import(h, legacy, refuses);
    if imported.None? then None
    else
      var appended := Append(Appending(imported.value.events, imported.value.latest, []), records, clock, refuses);
      if appended.None? then None
      else
        var a := appended.value;
        Some((Prune(imported.value.(latest := a.latest, events := a.events), retention), a.stamped))
  }

  function Redelivered(db: Db, delivery: Option<string>): bool
  {
    delivery.Some? && delivery.value in db.deliveries
  }

  function Commit(
    db: Db, drive: string, records: seq<Event>, delivery: Option<string>, receipts: seq<Receipt>,
    legacy: Legacy, clock: Clock, refuses: Refusals, retention: nat
  ): Option<Committed>
  {
    if Redelivered(db, delivery) then Some(Committed(db, records))
    else
      var r := CommitHead(HeadOf(db, drive), records, legacy, clock, refuses, retention);
      if r.None? then None
      else
        Some(Committed(
          Db(db.heads[drive := r.value.0],
             if delivery.Some? then db.deliveries + {delivery.value} else db.deliveries,
             DeleteReceipts(db.receipts, receipts)),
          r.value.1))
  }

  function Acknowledge(db: Db, id: string): Db
  {
    db.(deliveries := db.deliveries - {id})
  }

  class StateDb {
    var heads: map<string, Head>
    var deliveries: set<string>
    var receiptRecords: map<string, string>

    ghost function View(): Db
      reads this
    {
      Db(heads, deliveries, receiptRecords)
    }

    constructor ()
      ensures View() == Db(map[], {}, map[])
    {
      heads, deliveries, receiptRecords := map[], {}, map[];
    }

    // Either the whole transaction or, on any error, none of it. The records
    // are stamped in place as far as the loop came.
    method CommitEvents(
      drive: string, records: array<Event>, delivery: Option<string>, receipts: seq<Receipt>,
      legacy: Legacy, clock: Clock, refuses: Refusals, retention: nat := 100_000
    ) returns (ok: bool)
      modifies this, records
      ensures var r := Commit(old(View()), drive, old(records[..]), delivery, receipts, legacy, clock, refuses, retention);
              && (ok <==> r.Some?)
              && (ok ==> View() == r.value.db && records[..] == r.value.stamped)
      ensures !ok ==> View() == old(View())
    {
      if delivery.Some? && delivery.value in deliveries {
        return true;
      }
      // BEGIN IMMEDIATE: the rows the transaction works on until it commits.
      var head := if drive in heads then heads[drive] else NoHead();
      var committed := CommitDrive(head, records, legacy, clock, refuses, retention);
      if committed.None? {
        return false;
      }
      var left := ConsumeReceipts(receiptRecords, receipts);
      heads, receiptRecords := heads[drive := committed.value], left;
      if delivery.Some? {
        deliveries := deliveries + {delivery.value};
      }
      return true;
    }

    static method CommitDrive(
      head: Head, records: array<Event>, legacy: Legacy, clock: Clock, refuses: Refusals, retention: nat
    ) returns (r: Option<Head>)
      modifies records
      ensures var h := CommitHead(head, old(records[..]), legacy, clock, refuses, retention);
              && (r.Some? <==> h.Some?)
              && (r.Some? ==> r.value == h.value.0 && records[..] == h.value.1)
    {
      var imported := ImportLegacy(head, legacy, refuses);
      if imported.None? {
        return None;
      }
      var appended := AppendRecords(imported.value, records, clock, refuses);
      if appended.None? {
        return None;
      }
      return Some(Prune(appended.value, retention));
    }

    static method ConsumeReceipts(table: map<string, string>, receipts: seq<Receipt>) returns (left: map<string, string>)
      ensures left == DeleteReceipts(table, receipts)
    {
      left := table;
      for i := 0 to |receipts|
        invariant DeleteReceipts(table, receipts) == DeleteReceipts(left, receipts[i..])
      {
        var receipt := receipts[i];
        assert receipts[i..][1..] == receipts[i + 1..];
        if receipt.key in left && left[receipt.key] == receipt.payload {
          left := left - {receipt.key};
        }
      }
    }

    static method ImportLegacy(head: Head, legacy: Legacy, refuses: Refusals) returns (r: Option<Head>)
      ensures r == Import(head, legacy, refuses)
    {
      if head.imported {
        return Some(head);
      }
      var parsed := LegacyEvents(legacy);
      if parsed.None? {
        return None;
      }
      var es, events := parsed.value, head.events;
      for i := 0 to |es|
        invariant InsertAll(head.events, es, refuses) == InsertAll(events, es[i..], refuses)
      {
        assert es[i..][1..] == es[i + 1..];
        if es[i].ts in events || refuses(es[i].ts) {
          return None;
        }
        events := events[es[i].ts := es[i]];
      }
      return Some(if es == [] then Head(0, 0, true, events) else Head(MaxTs(es), MinTs(es), true, events));
    }

    static method AppendRecords(head: Head, records: array<Event>, clock: Clock, refuses: Refusals) returns (r: Option<Head>)
      modifies records
      ensures var a := Append(Appending(head.events, head.latest, []), old(records[..]), clock, refuses);
              && (r.Some? <==> a.Some?)
              && (r.Some? ==> r.value == head.(latest := a.value.latest, events := a.value.events) && records[..] == a.value.stamped)
    {
      var latest, events := head.latest, head.events;
      ghost var given := records[..];
      for i := 0 to records.Length
        invariant Append(Appending(head.events, head.latest, []), given, clock, refuses)
               == Append(Appending(events, latest, records[..i]), given[i..], clock, refuses)
        invariant records[i..] == given[i..]
      {
        assert given[i..][1..] == given[i + 1..] && records[i] == given[i];
        if latest >= MAX_I64 {
          return None;
        }
        latest := if clock(i) > latest + 1 then clock(i) else latest + 1;
        var stamped := records[i].(ts := latest);
        ghost var front := records[..i];
        records[i] := stamped;
        assert records[..i + 1] == front + [stamped];
        if stamped.ts in events || refuses(stamped.ts) {
          return None;
        }
        events := events[stamped.ts := stamped];
      }
      assert records[..records.Length] == records[..];
      return Some(head.(latest := latest, events := events));
    }

    method AcknowledgeDelivery(id: string)
      modifies this
      ensures View() == Acknowledge(old(View()), id)
    {
      deliveries := deliveries - {id};
    }
  }
}
