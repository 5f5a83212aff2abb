// The extension's side of the journal: one snapshot of head and events, paged
// per container, with anchors that expire when the journal cannot answer.
module ChangeFeed {
  import opened Prelude
  import opened Journal
  import opened JournalHistory

  datatype Failure = NotReady | Expired

  datatype Snapshot = Snapshot(latest: int, floor: int, events: seq<Event>)

  datatype Page = Page(events: seq<Event>, anchor: int, moreComing: bool)

  // Snapshot

  predicate IsMin(s: set<int>, m: int) {
    m in s && forall x :: x in s ==> m <= x
  }

  lemma {:induction false} HasMin(s: set<int>)
    requires s != {}
    ensures exists m :: IsMin(s, m)
    decreases |s|
  {
    var x := AnyOf(s);
    if s == {x} {
      assert IsMin(s, x);
    } else {
      var rest := s - {x};
      assert s == rest + {x};
      HasMin(rest);
      var m :| IsMin(rest, m);
      assert IsMin(s, if x < m then x else m);
    }
  }

  function MinOf(s: set<int>): (m: int)
    requires s != {}
    ensures IsMin(s, m)
  {
    HasMin(s);
    var m :| IsMin(s, m);
    m
  }

  lemma AboveShrinks(keys: set<int>, since: int, k: int)
    requires k in keys && k > since
    ensures |Above(keys, k)| < |Above(keys, since)|
  {
    SubsetSize(Above(keys, k) + {k}, Above(keys, since));
  }

  // SELECT payload ... WHERE sequence > since ORDER BY sequence
  function EventsAbove(events: map<int, Event>, since: int): seq<Event>
    decreases |Above(events.Keys, since)|
  {
    var keys := Above(events.Keys, since);
    if keys == {} then []
    else
      var k := MinOf(keys);
      AboveShrinks(events.Keys, since, k);
      [events[k]] + EventsAbove(events, k)
  }

  function EventSnapshot(db: Db, drive: string, since: Option<int>): Option<Snapshot> {
    if drive !in db.heads || !db.heads[drive].imported then None
    else
      var h := db.heads[drive];
      Some(Snapshot(h.latest, h.floor, if since.Some? then EventsAbove(h.events, since.value) else []))
  }

  function CurrentSyncAnchor(db: Db, drive: string): Option<int> {
    var s := EventSnapshot(db, drive, None);
    if s.None? then None else Some(s.value.latest)
  }

  ghost predicate ExactlyAbove(events: map<int, Event>, since: int, es: seq<Event>) {
    && (forall e :: e in es <==> Stored(events, e) && e.ts > since)
    && (forall i, j :: 0 <= i < j < |es| ==> es[i].ts < es[j].ts)
  }

  lemma FirstAbove(events: map<int, Event>, since: int, k: int, rest: seq<Event>)
    requires Keyed(events) && IsMin(Above(events.Keys, since), k) && ExactlyAbove(events, k, rest)
    ensures ExactlyAbove(events, since, [events[k]] + rest)
  {
    forall e ensures e in [events[k]] + rest <==> Stored(events, e) && e.ts > since {
      if Stored(events, e) && e.ts > since {
        assert e.ts in Above(events.Keys, since);
      }
    }
    assert forall i :: 0 <= i < |rest| ==> rest[i] in rest;
  }

  // The snapshot is exactly the stored events above the anchor, oldest first, once each.
  lemma {:induction false} EventsAboveExactly(events: map<int, Event>, since: int)
    requires Keyed(events)
    ensures ExactlyAbove(events, since, EventsAbove(events, since))
    decreases |Above(events.Keys, since)|
  {
    var keys := Above(events.Keys, since);
    if keys == {} {
      forall e | Stored(events, e) ensures e.ts <= since {
        assert e.ts !in keys;
      }
    } else {
      var k := MinOf(keys);
      AboveShrinks(events.Keys, since, k);
      EventsAboveExactly(events, k);
      FirstAbove(events, since, k, EventsAbove(events, k));
    }
  }

  // Changes

  function Filter(es: seq<Event>, touches: Event -> bool): seq<Event> {
    if es == [] then [] else (if touches(es[0]) then [es[0]] else []) + Filter(es[1..], touches)
  }

  predicate HasRescan(es: seq<Event>, since: int) {
    exists i :: 0 <= i < |es| && es[i].kind == "rescan" && es[i].ts > since
  }

  function PageOf(matching: seq<Event>, since: int, latest: int, pageSize: nat): Page {
    var page := if |matching| > pageSize then matching[..pageSize] else matching;
    var moreComing := |matching| > |page|;
    Page(page, if !moreComing then latest else if page == [] then since else page[|page| - 1].ts, moreComing)
  }

  // anchor is None when its text is not "evt-" and a 64-bit integer.
  function Changes(db: Db, drive: string, anchor: Option<int>, touches: Event -> bool, pageSize: nat): Result<Page, Failure> {
    if anchor.None? then Err(Expired)
    else
      var since := anchor.value;
      var snapshot := EventSnapshot(db, drive, Some(since));
      if snapshot.None? then Err(NotReady)
      else
        var s := snapshot.value;
        if since < s.floor || since > s.latest then Err(Expired)
        else if HasRescan(s.events, since) then Err(Expired)
        else
          var relevant := Filter(s.events, (e: Event) => e.ts > since);
          Ok(PageOf(Filter(relevant, touches), since, s.latest, pageSize))
  }

  // The events a container still has to hear about after an anchor.
  function Matching(h: Head, since: int, touches: Event -> bool): seq<Event> {
    Filter(EventsAbove(h.events, since), touches)
  }

  // What every commit keeps of a journal, as far as the reader relies on it.
  ghost predicate WellKept(h: Head) {
    Keyed(h.events) && forall s :: s in h.events ==> s <= h.latest
  }

  lemma FaithfulIsWellKept(h: Head, log: seq<Entry>)
    requires Faithful(h, log)
    ensures WellKept(h)
  {
    forall s | s in h.events ensures s <= h.latest { StoredBelowLatest(h, log, s); }
  }

  ghost predicate Accepts(h: Head, since: int) {
    h.floor <= since <= h.latest && !HasRescan(EventsAbove(h.events, since), since)
  }

  lemma {:induction false} FilterKeepsAll(es: seq<Event>, f: Event -> bool)
    requires forall i :: 0 <= i < |es| ==> f(es[i])
    ensures Filter(es, f) == es
  {
    if es != [] { FilterKeepsAll(es[1..], f); }
  }

  // A page that stops early stops exactly where the rest of the feed begins.
  lemma {:induction false} RestAfter(events: map<int, Event>, since: int, touches: Event -> bool, n: nat)
    requires Keyed(events)
    requires 0 < n <= |Filter(EventsAbove(events, since), touches)|
    ensures var f := Filter(EventsAbove(events, since), touches);
            && Filter(EventsAbove(events, f[n - 1].ts), touches) == f[n..]
            && since < f[n - 1].ts && f[n - 1].ts in events
    decreases |Above(events.Keys, since)|
  {
    var es := EventsAbove(events, since);
    if es != [] {
      var k := MinOf(Above(events.Keys, since));
      AboveShrinks(events.Keys, since, k);
      var rest := EventsAbove(events, k);
      assert es == [events[k]] + rest && es[1..] == rest;
      if touches(events[k]) {
        assert Filter(es, touches) == [events[k]] + Filter(rest, touches);
        if n > 1 { RestAfter(events, k, touches, n - 1); }
      } else {
        RestAfter(events, k, touches, n);
      }
    }
  }

  ghost predicate Ready(db: Db, drive: string) {
    drive in db.heads && db.heads[drive].imported && WellKept(db.heads[drive])
  }

  lemma ChangesReads(db: Db, drive: string, since: int, touches: Event -> bool, pageSize: nat)
    requires Ready(db, drive) && Accepts(db.heads[drive], since)
    ensures var h := db.heads[drive];
            Changes(db, drive, Some(since), touches, pageSize) == Ok(PageOf(Matching(h, since, touches), since, h.latest, pageSize))
  {
    var es := EventsAbove(db.heads[drive].events, since);
    EventsAboveExactly(db.heads[drive].events, since);
    assert forall i :: 0 <= i < |es| ==> es[i] in es;
    FilterKeepsAll(es, (e: Event) => e.ts > since);
  }

  lemma NothingAboveLatest(h: Head)
    requires WellKept(h)
    ensures EventsAbove(h.events, h.latest) == []
  {
    assert Above(h.events.Keys, h.latest) == {};
  }

  // The feed above the anchor is this page followed by the feed above the anchor
  // it returns; moreComing says whether any is left.
  ghost predicate Splits(h: Head, since: int, touches: Event -> bool, pageSize: nat, p: Page) {
    && Matching(h, since, touches) == p.events + Matching(h, p.anchor, touches)
    && |p.events| <= pageSize
    && (p.moreComing <==> Matching(h, p.anchor, touches) != [])
    && (p.moreComing ==> |p.events| == pageSize && since < p.anchor)
    && (!p.moreComing ==> p.anchor == h.latest)
    && Accepts(h, p.anchor)
  }

  lemma AcceptsLater(h: Head, since: int, later: int)
    requires Keyed(h.events) && Accepts(h, since) && since <= later <= h.latest
    ensures Accepts(h, later)
  {
    EventsAboveExactly(h.events, since);
    EventsAboveExactly(h.events, later);
    var es, rest := EventsAbove(h.events, since), EventsAbove(h.events, later);
    forall i | 0 <= i < |rest| ensures !(rest[i].kind == "rescan" && rest[i].ts > later) {
      assert rest[i] in rest;
      assert rest[i] in es;
      var k :| 0 <= k < |es| && es[k] == rest[i];
    }
  }

  lemma PageSplits(h: Head, since: int, touches: Event -> bool, pageSize: nat)
    requires WellKept(h) && Accepts(h, since) && pageSize > 0
    ensures Splits(h, since, touches, pageSize, PageOf(Matching(h, since, touches), since, h.latest, pageSize))
  {
    var f := Matching(h, since, touches);
    if |f| > pageSize {
      RestAfter(h.events, since, touches, pageSize);
      AcceptsLater(h, since, f[pageSize - 1].ts);
      assert f == f[..pageSize] + f[pageSize..];
    } else {
      NothingAboveLatest(h);
      AcceptsLater(h, since, h.latest);
      assert f + [] == f;
    }
  }

  // An accepted call never fails and splits the feed.
  lemma ChangesSplit(db: Db, drive: string, since: int, touches: Event -> bool, pageSize: nat)
    requires Ready(db, drive) && Accepts(db.heads[drive], since) && pageSize > 0
    ensures var r := Changes(db, drive, Some(since), touches, pageSize);
            r.Ok? && Splits(db.heads[drive], since, touches, pageSize, r.value)
  {
    ChangesReads(db, drive, since, touches, pageSize);
    PageSplits(db.heads[drive], since, touches, pageSize);
  }

  ghost predicate Rising(es: seq<Event>) {
    forall i, j :: 0 <= i < j < |es| ==> es[i].ts < es[j].ts
  }

  lemma {:induction false} FilterExactly(es: seq<Event>, f: Event -> bool)
    ensures forall e :: e in Filter(es, f) <==> e in es && f(e)
    ensures Rising(es) ==> Rising(Filter(es, f))
    decreases |es|
  {
    if es != [] {
      var rest := es[1..];
      FilterExactly(rest, f);
      assert es == [es[0]] + rest;
      if Rising(es) {
        forall e | e in rest ensures es[0].ts < e.ts {
          var k :| 0 <= k < |rest| && rest[k] == e;
          assert es[k + 1] == e;
        }
        assert forall k :: 0 <= k < |Filter(rest, f)| ==> Filter(rest, f)[k] in rest;
      }
    }
  }

  // What a container still has to hear: exactly the stored events above the anchor that
  // touch it, oldest first, once each.
  lemma MatchingExactly(h: Head, since: int, touches: Event -> bool)
    requires Keyed(h.events)
    ensures forall e :: e in Matching(h, since, touches) <==> Stored(h.events, e) && e.ts > since && touches(e)
    ensures Rising(Matching(h, since, touches))
  {
    EventsAboveExactly(h.events, since);
    FilterExactly(EventsAbove(h.events, since), touches);
  }

  ghost predicate RescanAbove(log: seq<Entry>, since: int) {
    exists i :: 0 <= i < |log| && log[i].event.kind == "rescan" && log[i].event.ts > since
  }

  // At or above the floor the stored events show every rescan ever committed above.
  lemma RescansShow(h: Head, log: seq<Entry>, since: int)
    requires Faithful(h, log) && h.floor <= since
    ensures HasRescan(EventsAbove(h.events, since), since) <==> RescanAbove(log, since)
  {
    var es := EventsAbove(h.events, since);
    EventsAboveExactly(h.events, since);
    if i :| 0 <= i < |log| && log[i].event.kind == "rescan" && log[i].event.ts > since {
      assert Stored(h.events, log[i].event) && log[i].event in es;
      var k :| 0 <= k < |es| && es[k] == log[i].event;
      assert es[k].kind == "rescan" && es[k].ts > since;
    }
    if k :| 0 <= k < |es| && es[k].kind == "rescan" && es[k].ts > since {
      assert es[k] in es && Stored(h.events, es[k]) && Logged(log, h.events[es[k].ts]);
      var i :| 0 <= i < |log| && log[i].event == es[k];
    }
  }

  // An anchor is refused iff it is unreadable or above the head, or the journal no
  // longer reaches back to it, or a rescan was ever committed above it.
  lemma ExpiresExactly(db: Db, drive: string, log: seq<Entry>, anchor: Option<int>, touches: Event -> bool, pageSize: nat)
    requires drive in db.heads && db.heads[drive].imported && Faithful(db.heads[drive], log)
    ensures var h := db.heads[drive];
            Changes(db, drive, anchor, touches, pageSize) == Err(Expired) <==>
            anchor.None? || anchor.value < h.floor || anchor.value > h.latest || RescanAbove(log, anchor.value)
  {
    if anchor.Some? && db.heads[drive].floor <= anchor.value {
      RescansShow(db.heads[drive], log, anchor.value);
    }
  }

  // So far delivered, with the feed above the anchor still to come.
  ghost predicate DrainedTo(h: Head, since: int, touches: Event -> bool, delivered: seq<Event>, anchor: int) {
    Accepts(h, anchor) && delivered + Matching(h, anchor, touches) == Matching(h, since, touches)
  }

  lemma DrainStep(h: Head, since: int, touches: Event -> bool, pageSize: nat, delivered: seq<Event>, anchor: int, p: Page)
    requires DrainedTo(h, since, touches, delivered, anchor) && Splits(h, anchor, touches, pageSize, p) && pageSize > 0
    ensures DrainedTo(h, since, touches, delivered + p.events, p.anchor)
    ensures p.moreComing ==> |Matching(h, p.anchor, touches)| < |Matching(h, anchor, touches)|
    ensures !p.moreComing ==> p.anchor == h.latest && Matching(h, p.anchor, touches) == []
  {
    var rest := Matching(h, p.anchor, touches);
    assert delivered + p.events + rest == delivered + (p.events + rest);
  }

  // Repeating the call on a quiet journal until nothing more is coming hands over
  // exactly the matching events above the first anchor, in order, once each.
  method Drain(db: Db, drive: string, since: int, touches: Event -> bool, pageSize: nat := 100)
    returns (delivered: seq<Event>, anchor: int)
    requires Ready(db, drive) && pageSize > 0
    requires Accepts(db.heads[drive], since)
    ensures delivered == Matching(db.heads[drive], since, touches)
    ensures anchor == db.heads[drive].latest
  {
    delivered, anchor := [], since;
    ghost var h := db.heads[drive];
    var moreComing := true;
    while moreComing
      invariant DrainedTo(h, since, touches, delivered, anchor)
      invariant !moreComing ==> anchor == h.latest && Matching(h, anchor, touches) == []
      decreases moreComing, |Matching(h, anchor, touches)|
    {
      ChangesSplit(db, drive, anchor, touches, pageSize);
      var page := Changes(db, drive, Some(anchor), touches, pageSize).value;
      DrainStep(h, since, touches, pageSize, delivered, anchor, page);
      delivered := delivered + page.events;
      anchor, moreComing := page.anchor, page.moreComing;
    }
    assert delivered + [] == delivered;
  }

  // Which container an event belongs to

  // canonical is percent-decoding, applied where the code applies it.
  datatype Drive = Drive(remotePath: string, canonical: string -> string)

  // A folder is given by the canonical URI of its identifier, the root by its path.
  datatype Container = WorkingSet | Folder(uri: string)

  function RootPath(d: Drive): string {
    (d.canonical)(d.remotePath)
  }

  function UriFor(d: Drive, path: string): string {
    if "cloudreve://" <= path then (d.canonical)(path)
    else (d.canonical)(d.remotePath + (if "/" <= path then path else "/" + path))
  }

  function UpToLastSlash(u: string): Option<string> {
    if u == [] then None
    else if u[|u| - 1] == '/' then Some(u[..|u| - 1])
    else UpToLastSlash(u[..|u| - 1])
  }

  function WithoutSlash(u: string): string {
    if u != [] && u[|u| - 1] == '/' then u[..|u| - 1] else u
  }

  function ParentOf(d: Drive, uri: string): string {
    var parent := UpToLastSlash(WithoutSlash(uri));
    if parent.None? then RootPath(d)
    else if parent.value == d.remotePath || parent.value == "cloudreve://my" || parent.value == "" then RootPath(d)
    else (d.canonical)(parent.value)
  }

  // The address of an event path is the folder or lies directly in it.
  predicate InFolder(d: Drive, path: string, uri: string) {
    UriFor(d, path) == uri || ParentOf(d, UriFor(d, path)) == uri
  }

  function Touches(d: Drive, change: Event, container: Container): bool {
    match container
    case WorkingSet => true
    case Folder(uri) => InFolder(d, change.from, uri) || InFolder(d, change.to, uri)
  }

  lemma {:induction false} CutsAtLastSlash(folder: string, name: string)
    requires '/' !in name
    ensures UpToLastSlash(folder + "/" + name) == Some(folder)
    decreases |name|
  {
    var u := folder + "/" + name;
    if name == [] {
      assert u[..|u| - 1] == folder;
    } else {
      CutsAtLastSlash(folder, name[..|name| - 1]);
      assert u[..|u| - 1] == folder + "/" + name[..|name| - 1];
    }
  }

  // An event on a direct child of a folder, at either end and in whatever form the
  // path is written, is in that folder's feed. Percent-decoding must leave the
  // folder's URI alone, and a folder named like the root must be the root.
  lemma ChildEventTouchesFolder(d: Drive, change: Event, folder: string, name: string)
    requires name != "" && '/' !in name && folder != ""
    requires (d.canonical)(folder) == folder
    requires folder == d.remotePath || folder == "cloudreve://my" ==> folder == RootPath(d)
    requires UriFor(d, change.from) == folder + "/" + name || UriFor(d, change.to) == folder + "/" + name
    ensures Touches(d, change, Folder(folder))
  {
    CutsAtLastSlash(folder, name);
    var u := folder + "/" + name;
    assert u[|u| - 1] == name[|name| - 1];
    assert ParentOf(d, u) == folder;
  }

  lemma TargetOfNothing(d: Drive)
    ensures UriFor(d, "") == (d.canonical)(d.remotePath + "/")
  {
    assert "/" + "" == "/";
  }

  // An event without a target has "" there, which stands for the remote path with a
  // slash. For a drive on a folder below another one, that puts every such event in
  // the root's feed iff the drive's folder lies at the top of "my" (or its parent is
  // empty), wherever the event itself happened.
  lemma EmptyTargetInRootFeed(d: Drive, change: Event, folder: string, name: string)
    requires d.remotePath == folder + "/" + name && name != "" && '/' !in name
    requires (d.canonical)(d.remotePath + "/") == d.remotePath + "/"
    requires (d.canonical)(d.remotePath) == d.remotePath && (d.canonical)(folder) == folder
    requires change.to == ""
    ensures Touches(d, change, Folder(RootPath(d))) <==>
            InFolder(d, change.from, RootPath(d)) || folder == "cloudreve://my" || folder == ""
  {
    var to := d.remotePath + "/";
    TargetOfNothing(d);
    CutsAtLastSlash(folder, name);
    assert to[..|to| - 1] == d.remotePath;
    assert |folder| < |d.remotePath| < |to|;
  }

  // The filter of one container's feed.
  function Feed(d: Drive, container: Container): Event -> bool {
    (e: Event) => Touches(d, e, container)
  }

  // The working set hears about every event above its anchor.
  lemma WorkingSetHearsEverything(d: Drive, h: Head, since: int)
    ensures Matching(h, since, Feed(d, WorkingSet)) == EventsAbove(h.events, since)
  {
    FilterKeepsAll(EventsAbove(h.events, since), Feed(d, WorkingSet));
  }

  // Without one slash at the end, the address is parent, a slash, and a name without slashes.
  ghost predicate CutsTo(address: string, parent: string, name: string) {
    '/' !in name && ((name != "" && address == parent + "/" + name) || address == parent + "/" + name + "/")
  }

  // Without one slash at the end, the address has none.
  ghost predicate Uncut(address: string) {
    '/' !in address || exists base :: '/' !in base && address == base + "/"
  }

  // What the cut-off parent stands for: the root under its names, itself decoded otherwise.
  ghost predicate StandsFor(d: Drive, parent: string, uri: string) {
    if parent == d.remotePath || parent == "cloudreve://my" || parent == "" then (d.canonical)(d.remotePath) == uri
    else (d.canonical)(parent) == uri
  }

  ghost predicate LiesIn(d: Drive, address: string, uri: string) {
    || address == uri
    || (exists parent, name :: CutsTo(address, parent, name) && StandsFor(d, parent, uri))
    || (Uncut(address) && (d.canonical)(d.remotePath) == uri)
  }

  lemma {:induction false} NoSlashUncut(u: string)
    ensures UpToLastSlash(u).None? <==> '/' !in u
    decreases |u|
  {
    if u != [] {
      NoSlashUncut(u[..|u| - 1]);
      assert u == u[..|u| - 1] + [u[|u| - 1]];
    }
  }

  lemma {:induction false} SlashCut(u: string) returns (name: string)
    requires UpToLastSlash(u).Some?
    ensures '/' !in name && u == UpToLastSlash(u).value + "/" + name
    decreases |u|
  {
    var n := |u| - 1;
    assert u == u[..n] + [u[n]];
    if u[n] == '/' {
      name := "";
    } else {
      var rest := SlashCut(u[..n]);
      name := rest + [u[n]];
    }
  }

  lemma CutIsLastSlash(address: string, parent: string, name: string)
    requires CutsTo(address, parent, name)
    ensures UpToLastSlash(WithoutSlash(address)) == Some(parent)
  {
    CutsAtLastSlash(parent, name);
    if name != "" && address == parent + "/" + name {
      assert address[|address| - 1] == name[|name| - 1];
    } else {
      assert address[..|address| - 1] == parent + "/" + name;
    }
  }

  lemma SlashKept(address: string)
    ensures address == WithoutSlash(address) || address == WithoutSlash(address) + "/"
    ensures address == WithoutSlash(address) ==> address == "" || address[|address| - 1] != '/'
  {
    if address != [] && address[|address| - 1] == '/' {
      assert address == address[..|address| - 1] + [address[|address| - 1]];
    }
  }

  lemma ParentStandsFor(d: Drive, address: string, uri: string)
    ensures address == uri || ParentOf(d, address) == uri <==> LiesIn(d, address, uri)
  {
    var u := WithoutSlash(address);
    NoSlashUncut(u);
    if UpToLastSlash(u).Some? {
      var name := SlashCut(u);
      var parent := UpToLastSlash(u).value;
      SlashKept(address);
      assert CutsTo(address, parent, name);
      assert !Uncut(address);
      forall p, n | CutsTo(address, p, n) ensures p == parent { CutIsLastSlash(address, p, n); }
      assert ParentOf(d, address) == uri <==> StandsFor(d, parent, uri);
    } else {
      SlashKept(address);
      assert Uncut(address);
      forall p, n ensures !CutsTo(address, p, n) {
        if CutsTo(address, p, n) { CutIsLastSlash(address, p, n); }
      }
    }
  }

  // An event is in a folder's feed iff one of its two addresses is the folder's URI or
  // is cut, at its last slash, to what stands for it.
  lemma TouchesFolderExactly(d: Drive, change: Event, uri: string)
    ensures Touches(d, change, Folder(uri)) <==> LiesIn(d, UriFor(d, change.from), uri) || LiesIn(d, UriFor(d, change.to), uri)
  {
    ParentStandsFor(d, UriFor(d, change.from), uri);
    ParentStandsFor(d, UriFor(d, change.to), uri);
  }

  // Addresses with the scheme are decoded as they are; all others lie below the remote
  // path, with or without a slash in front.
  lemma EventAddress(d: Drive, path: string)
    ensures UriFor(d, "cloudreve://" + path) == (d.canonical)("cloudreve://" + path)
    ensures UriFor(d, "/" + path) == (d.canonical)(d.remotePath + "/" + path)
    ensures !("/" <= path) && !("cloudreve://" <= path) ==> UriFor(d, path) == UriFor(d, "/" + path)
  {
    assert "cloudreve://" <= "cloudreve://" + path && "/" <= "/" + path;
    assert ("/" + path)[0] == '/' && "cloudreve://"[0] == 'c';
    assert d.remotePath + ("/" + path) == d.remotePath + "/" + path;
  }

  // The call waits for the app iff the anchor can be read and the journal is not imported.
  lemma NotReadyExactly(db: Db, drive: string, anchor: Option<int>, touches: Event -> bool, pageSize: nat)
    ensures Changes(db, drive, anchor, touches, pageSize) == Err(NotReady) <==>
            anchor.Some? && !(drive in db.heads && db.heads[drive].imported)
    ensures anchor.None? ==> Changes(db, drive, anchor, touches, pageSize) == Err(Expired)
  {
  }

  // The current anchor exists iff the journal is imported, and nothing is left above it.
  lemma CurrentAnchorIsCaughtUp(db: Db, drive: string, touches: Event -> bool, pageSize: nat)
    requires drive in db.heads ==> WellKept(db.heads[drive]) && db.heads[drive].floor <= db.heads[drive].latest
    ensures CurrentSyncAnchor(db, drive).Some? <==> drive in db.heads && db.heads[drive].imported
    ensures CurrentSyncAnchor(db, drive).Some? ==>
            CurrentSyncAnchor(db, drive) == Some(db.heads[drive].latest) &&
            Changes(db, drive, CurrentSyncAnchor(db, drive), touches, pageSize) == Ok(Page([], db.heads[drive].latest, false))
  {
    if CurrentSyncAnchor(db, drive).Some? {
      NothingAboveLatest(db.heads[drive]);
    }
  }
}
