// One enumerateChanges callback: it replays a page to the observer and finishes
// exactly once, advancing the anchor only if every event was applied, or
// reconciles from an anchor captured beforehand.
module ChangeEnumerator {
  import opened Prelude
  import opened Journal
  import opened ChangeFeed

  datatype Outcome = Finished(anchor: int, moreComing: bool) | FinishedWithError(expired: bool)

  // What the outside world does during the call: whether the migrated state could be
  // recovered, the database when the changes are read and when the anchor is captured,
  // whether the policy changed, whether the server could be listed or reconciled with,
  // which events cannot be applied, and which of the applied ones have downloaded
  // content to refresh.
  datatype Surroundings = Surroundings(
    recovered: bool, read: Db, capture: Db, policyChanged: bool, listed: bool, reconciles: bool,
    fails: Event -> bool, resolves: Event -> bool)

  class ChangeObserver {
    var applied: seq<Event>
    var reconciliations: nat
    var finishes: seq<Outcome>

    constructor ()
      ensures applied == [] && reconciliations == 0 && finishes == []
    {
      applied, reconciliations, finishes := [], 0, [];
    }
  }

  ghost predicate NoneFails(es: seq<Event>, fails: Event -> bool) {
    forall i :: 0 <= i < |es| ==> !fails(es[i])
  }

  // seen is all of the page, or it stops right before the first event that fails.
  ghost predicate AppliedUpToFailure(page: seq<Event>, seen: seq<Event>, fails: Event -> bool) {
    && seen <= page && NoneFails(seen, fails)
    && (|seen| < |page| ==> fails(page[|seen|]))
  }

  // The outcome a finished call must have reported, given what it applied.
  ghost predicate Reports(
    page: Result<Page, Failure>, workingSet: bool, e: Surroundings, drive: string,
    seen: seq<Event>, reconciled: bool, outcome: Outcome
  ) {
    match page
    case Ok(p) =>
      && AppliedUpToFailure(p.events, seen, e.fails) && !reconciled
      && outcome == if seen == p.events then Finished(p.anchor, p.moreComing) else FinishedWithError(false)
    case Err(NotReady) => seen == [] && !reconciled && outcome == FinishedWithError(false)
    case Err(Expired) =>
      var captured := CurrentSyncAnchor(e.capture, drive);
      && seen == []
      && (reconciled <==> workingSet && captured.Some? && e.reconciles)
      && outcome == if reconciled then Finished(captured.value, false) else FinishedWithError(!workingSet)
  }

  lemma {:induction false} FilterSnoc(es: seq<Event>, e: Event, f: Event -> bool)
    ensures Filter(es + [e], f) == Filter(es, f) + if f(e) then [e] else []
  {
    if es != [] {
      assert (es + [e])[1..] == es[1..] + [e];
      FilterSnoc(es[1..], e, f);
    }
  }

  class FileProviderEnumerator {
    const drive: string
    const source: Drive
    const container: Container
    var needsPresentedContainerRefresh: bool

    constructor (drive: string, source: Drive, container: Container)
      ensures this.drive == drive && this.source == source && this.container == container && needsPresentedContainerRefresh
    {
      this.drive, this.source, this.container, needsPresentedContainerRefresh := drive, source, container, true;
    }

    method ConsumePresentedContainerRefresh() returns (refresh: bool)
      modifies this
      ensures refresh == old(needsPresentedContainerRefresh) && !needsPresentedContainerRefresh
    {
      if !needsPresentedContainerRefresh {
        return false;
      }
      needsPresentedContainerRefresh := false;
      return true;
    }

    method EnumerateChanges(
      observer: ChangeObserver, anchor: Option<int>, e: Surroundings, pageSize: nat := 100
    ) returns (downloads: seq<Event>)
      modifies this, observer
      ensures |observer.finishes| == |old(observer.finishes)| + 1 && old(observer.finishes) <= observer.finishes
      ensures old(observer.applied) <= observer.applied
      ensures var outcome := observer.finishes[|old(observer.finishes)|];
              var seen := observer.applied[|old(observer.applied)|..];
              var reconciled := observer.reconciliations > old(observer.reconciliations);
              if !e.recovered || (!container.WorkingSet? && old(needsPresentedContainerRefresh) && !e.listed) then
                outcome == FinishedWithError(false) && seen == [] && !reconciled
              else if container.WorkingSet? && e.policyChanged then
                outcome == FinishedWithError(true) && seen == [] && !reconciled
              else
                Reports(Changes(e.read, drive, anchor, Feed(source, container), pageSize), container.WorkingSet?, e, drive, seen, reconciled, outcome)
      ensures needsPresentedContainerRefresh == (old(needsPresentedContainerRefresh) && (!e.recovered || container.WorkingSet?))
      ensures downloads != [] ==> observer.finishes[|old(observer.finishes)|].Finished?
      ensures observer.finishes[|old(observer.finishes)|].Finished? ==>
              downloads == Filter(observer.applied[|old(observer.applied)|..], (ev: Event) => e.resolves(ev) && !ev.localEcho)
    {
      downloads := [];
      if !e.recovered {
        observer.finishes := observer.finishes + [FinishedWithError(false)];
        return;
      }
      if !container.WorkingSet? {
        var refresh := ConsumePresentedContainerRefresh();
        if refresh && !e.listed {
          observer.finishes := observer.finishes + [FinishedWithError(false)];
          return;
        }
      }
      if container.WorkingSet? && e.policyChanged {
        observer.finishes := observer.finishes + [FinishedWithError(true)];
        return;
      }
      var changes := Changes(e.read, drive, anchor, Feed(source, container), pageSize);
      if changes.Err? {
        ReconcileOrFail(observer, changes.error, e);
        return;
      }
      var page := changes.value;
      var ok;
      ok, downloads := ApplyPage(observer, page.events, e.fails, e.resolves);
      if ok {
        observer.finishes := observer.finishes + [Finished(page.anchor, page.moreComing)];
      } else {
        observer.finishes := observer.finishes + [FinishedWithError(false)];
        downloads := [];
      }
    }

    method ReconcileOrFail(observer: ChangeObserver, failure: Failure, e: Surroundings)
      modifies observer
      ensures observer.applied == old(observer.applied)
      ensures |observer.finishes| == |old(observer.finishes)| + 1 && old(observer.finishes) <= observer.finishes
      ensures Reports(Err(failure), container.WorkingSet?, e, drive, [],
                      observer.reconciliations > old(observer.reconciliations), observer.finishes[|old(observer.finishes)|])
    {
      if failure.NotReady? {
        observer.finishes := observer.finishes + [FinishedWithError(false)];
      } else if !container.WorkingSet? {
        observer.finishes := observer.finishes + [FinishedWithError(true)];
      } else {
        // The anchor is captured before the reconciliation starts.
        var captured := CurrentSyncAnchor(e.capture, drive);
        if captured.None? || !e.reconciles {
          observer.finishes := observer.finishes + [FinishedWithError(false)];
        } else {
          observer.reconciliations := observer.reconciliations + 1;
          observer.finishes := observer.finishes + [Finished(captured.value, false)];
        }
      }
    }

    static method ApplyPage(observer: ChangeObserver, events: seq<Event>, fails: Event -> bool, resolves: Event -> bool)
      returns (ok: bool, downloads: seq<Event>)
      modifies observer`applied
      ensures old(observer.applied) <= observer.applied
      ensures var seen := observer.applied[|old(observer.applied)|..];
              && AppliedUpToFailure(events, seen, fails)
              && (ok <==> seen == events)
              && downloads == Filter(seen, (ev: Event) => resolves(ev) && !ev.localEcho)
    {
      downloads := [];
      ghost var before := observer.applied;
      for i := 0 to |events|
        invariant observer.applied == before + events[..i]
        invariant NoneFails(events[..i], fails)
        invariant downloads == Filter(events[..i], (ev: Event) => resolves(ev) && !ev.localEcho)
      {
        if fails(events[i]) {
          assert (before + events[..i])[|before|..] == events[..i];
          return false, downloads;
        }
        FilterSnoc(events[..i], events[i], (ev: Event) => resolves(ev) && !ev.localEcho);
        assert events[..i + 1] == events[..i] + [events[i]];
        observer.applied := observer.applied + [events[i]];
        if resolves(events[i]) && !events[i].localEcho {
          downloads := downloads + [events[i]];
        }
      }
      assert (before + events)[|before|..] == events && events[..|events|] == events;
      return true, downloads;
    }
  }
}
