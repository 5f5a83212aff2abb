// The coalescing monitor for pending items. All its methods run on one serial
// queue; completions are numbered in the order refresh was asked for.
module PendingMonitor {
  import opened Prelude

  datatype State = State(
    refreshing: bool, refreshAgain: bool, current: seq<nat>, queued: seq<nat>,
    attempts: nat,            // how often startRefresh has begun
    requests: seq<nat>,       // requests[c]: attempts begun before completion c was asked for
    calledIds: seq<nat>,      // completions called, in order
    calledAt: seq<nat>)       // and the attempt that each call ended

  // manager(n): the system hands out a manager to attempt n.
  type Managers = nat -> bool

  const INITIAL := State(false, false, [], [], 0, [], [], [])

  function Repeat(x: nat, n: nat): (r: seq<nat>)
    ensures |r| == n && forall i :: 0 <= i < n ==> r[i] == x
  {
    seq(n, _ => x)
  }

  function Finish(s: State, manager: Managers): State
    decreases s.refreshAgain, 0
  {
    var done := s.(refreshing := false, current := [],
                   calledIds := s.calledIds + s.current, calledAt := s.calledAt + Repeat(s.attempts, |s.current|));
    if s.refreshAgain then Start(done.(refreshAgain := false, current := s.queued, queued := []), manager) else done
  }

  function Start(s: State, manager: Managers): State
    decreases s.refreshAgain, 1
  {
    var begun := s.(attempts := s.attempts + 1);
    if manager(begun.attempts) then begun.(refreshing := true) else Finish(begun, manager)
  }

  function Request(s: State, manager: Managers): State
  {
    var c := |s.requests|;
    var asked := s.(requests := s.requests + [s.attempts]);
    if s.refreshing then asked.(refreshAgain := true, queued := s.queued + [c])
    else Start(asked.(current := [c]), manager)
  }

  // Every completion asked for is in one place, once, and in the order asked.
  ghost predicate Conserved(s: State)
  {
    s.calledIds + s.current + s.queued == Indices(|s.requests|)
  }

  // Every call ended an attempt that began after the call's request.
  ghost predicate CalledLate(s: State)
  {
    && |s.calledAt| == |s.calledIds|
    && forall i :: 0 <= i < |s.calledIds| ==> s.calledIds[i] < |s.requests| && s.requests[s.calledIds[i]] < s.calledAt[i] <= s.attempts
  }

  // Requests in cs were made before the attempt numbered bound + 1 began.
  ghost predicate AskedBy(s: State, cs: seq<nat>, bound: nat)
  {
    forall i :: 0 <= i < |cs| ==> cs[i] < |s.requests| && s.requests[cs[i]] <= bound
  }

  ghost predicate Idle(s: State)
  {
    !s.refreshing && !s.refreshAgain && s.current == [] && s.queued == []
  }

  ghost predicate Running(s: State)
  {
    && s.refreshing && s.attempts > 0
    && AskedBy(s, s.current, s.attempts - 1) && AskedBy(s, s.queued, s.attempts)
    && (s.refreshAgain <==> s.queued != [])
  }

  ghost predicate Inv(s: State)
  {
    Conserved(s) && CalledLate(s) && (Idle(s) || Running(s))
  }

  lemma {:induction false} FinishKeeps(s: State, manager: Managers)
    requires s.attempts > 0 && Conserved(s) && CalledLate(s)
    requires AskedBy(s, s.current, s.attempts - 1) && AskedBy(s, s.queued, s.attempts)
    requires s.refreshAgain <==> s.queued != []
    ensures Inv(Finish(s, manager))
    decreases s.refreshAgain, 0
  {
    var done := s.(refreshing := false, current := [],
                   calledIds := s.calledIds + s.current, calledAt := s.calledAt + Repeat(s.attempts, |s.current|));
    assert CalledLate(done);
    if s.refreshAgain {
      StartKeeps(done.(refreshAgain := false, current := s.queued, queued := []), manager);
    }
  }

  lemma {:induction false} StartKeeps(s: State, manager: Managers)
    requires Conserved(s) && CalledLate(s) && AskedBy(s, s.current, s.attempts) && AskedBy(s, s.queued, s.attempts)
    requires s.refreshAgain <==> s.queued != []
    ensures Inv(Start(s, manager))
    decreases s.refreshAgain, 1
  {
    var begun := s.(attempts := s.attempts + 1);
    if !manager(begun.attempts) {
      FinishKeeps(begun, manager);
    }
  }

  function Queue(s: State): State
  {
    s.(requests := s.requests + [s.attempts], refreshAgain := true, queued := s.queued + [|s.requests|])
  }

  lemma QueueConserves(s: State)
    requires Conserved(s)
    ensures Conserved(Queue(s))
  {
    var t := Queue(s);
    assert t.calledIds + t.current + t.queued == s.calledIds + s.current + s.queued + [|s.requests|];
  }

  // One more request does not change what is known of those before it.
  lemma CalledStays(s: State, t: State)
    requires CalledLate(s) && t.requests == s.requests + [s.attempts]
    requires t.calledIds == s.calledIds && t.calledAt == s.calledAt && t.attempts == s.attempts
    ensures CalledLate(t)
  {}

  lemma QueueRuns(s: State)
    requires Running(s)
    ensures Running(Queue(s))
  {}

  lemma QueueKeeps(s: State)
    requires Inv(s) && s.refreshing
    ensures Inv(Queue(s))
  {
    QueueConserves(s);
    CalledStays(s, Queue(s));
    QueueRuns(s);
  }

  lemma FirstKeeps(s: State, manager: Managers)
    requires Inv(s) && !s.refreshing
    ensures Inv(Start(s.(requests := s.requests + [s.attempts], current := [|s.requests|]), manager))
  {
    var c: nat := |s.requests|;
    var next := s.(requests := s.requests + [s.attempts], current := [|s.requests|]);
    assert next.calledIds + next.current + next.queued == s.calledIds + s.current + s.queued + [c];
    CalledStays(s, next);
    StartKeeps(next, manager);
  }

  lemma RequestKeeps(s: State, manager: Managers)
    requires Inv(s)
    ensures Inv(Request(s, manager))
  {
    if s.refreshing {
      QueueKeeps(s);
    } else {
      FirstKeeps(s, manager);
    }
  }

  datatype Step = Refresh | EnumerationFinished

  // The observer reports once, and only while its attempt is running.
  function Run(steps: seq<Step>, manager: Managers): State
  {
    if steps == [] then INITIAL
    else
      var s := Run(steps[..|steps| - 1], manager);
      match steps[|steps| - 1]
      case Refresh => Request(s, manager)
      case EnumerationFinished => if s.refreshing then Finish(s, manager) else s
  }

  lemma {:induction false} RunsKeepInv(steps: seq<Step>, manager: Managers)
    ensures Inv(Run(steps, manager))
    decreases |steps|
  {
    if steps != [] {
      var s := Run(steps[..|steps| - 1], manager);
      RunsKeepInv(steps[..|steps| - 1], manager);
      if steps[|steps| - 1] == Refresh {
        RequestKeeps(s, manager);
      } else if s.refreshing {
        FinishKeeps(s, manager);
      }
    }
  }

  // What the invariant means for callers: completions are called in the order asked,
  // each once, and none before an attempt begun after its request; queued ones wait only
  // behind a running attempt that will be rerun, and an idle monitor owes nobody.
  lemma CompletionsServed(steps: seq<Step>, manager: Managers)
    ensures var s := Run(steps, manager);
            && s.calledIds == Indices(|s.calledIds|) && CalledLate(s)
            && (s.queued != [] ==> s.refreshing && s.refreshAgain)
            && (!s.refreshing ==> |s.calledIds| == |s.requests|)
  {
    RunsKeepInv(steps, manager);
    var s := Run(steps, manager);
    assert s.calledIds == (s.calledIds + s.current + s.queued)[..|s.calledIds|];
  }

  // A request the system has no manager for is answered at once, and nothing else happens.
  lemma {:induction false} AnsweredWithoutManager(s: State, manager: Managers)
    requires Idle(s) && !manager(s.attempts + 1)
    ensures Request(s, manager) == s.(
              attempts := s.attempts + 1, requests := s.requests + [s.attempts],
              calledIds := s.calledIds + [|s.requests|], calledAt := s.calledAt + [s.attempts + 1])
  {
    var begun := s.(attempts := s.attempts + 1, requests := s.requests + [s.attempts], current := [|s.requests|]);
    assert Repeat(begun.attempts, 1) == [begun.attempts];
    assert Request(s, manager) == Finish(begun, manager);
  }

  // Finishing calls the current completions in order. Those queued meanwhile become the
  // current ones of a new attempt, or are called too when no manager is there for it.
  lemma {:induction false} FinishServes(s: State, manager: Managers)
    requires Running(s)
    ensures var t := Finish(s, manager);
            && t.requests == s.requests && t.queued == []
            && (s.queued == [] ==> Idle(t) && t.calledIds == s.calledIds + s.current && t.attempts == s.attempts)
            && (s.queued != [] && manager(s.attempts + 1) ==>
                  t.refreshing && !t.refreshAgain && t.current == s.queued && t.calledIds == s.calledIds + s.current)
            && (s.queued != [] && !manager(s.attempts + 1) ==> Idle(t) && t.calledIds == s.calledIds + s.current + s.queued)
  {
    if s.refreshAgain {
      var again := s.(refreshing := false, refreshAgain := false, current := s.queued, queued := [],
                      calledIds := s.calledIds + s.current, calledAt := s.calledAt + Repeat(s.attempts, |s.current|));
      assert Finish(s, manager) == Start(again, manager);
      if !manager(s.attempts + 1) {
        assert Start(again, manager) == Finish(again.(attempts := s.attempts + 1), manager);
      }
    }
  }

  // Nobody waits forever: whenever the observer reports twice, however the run went
  // before, every completion asked for has been called.
  lemma {:induction false} TwoReportsServeAll(steps: seq<Step>, manager: Managers)
    ensures var s := Run(steps + [EnumerationFinished, EnumerationFinished], manager);
            Idle(s) && s.requests == Run(steps, manager).requests && s.calledIds == Indices(|s.requests|)
  {
    var once, twice := steps + [EnumerationFinished], steps + [EnumerationFinished, EnumerationFinished];
    assert once[..|steps|] == steps && twice[..|once|] == once;
    RunsKeepInv(steps, manager);
    RunsKeepInv(once, manager);
    RunsKeepInv(twice, manager);
    if Running(Run(steps, manager)) {
      FinishServes(Run(steps, manager), manager);
    }
    if Running(Run(once, manager)) {
      FinishServes(Run(once, manager), manager);
    }
  }

  // The attempts begun and the completions asked for are numbered; the numbers only
  // say which answer of the system, and which caller, is meant.
  class FileProviderPendingMonitor {
    var refreshing: bool
    var refreshAgain: bool
    var currentCompletions: seq<nat>
    var queuedCompletions: seq<nat>
    var attempts: nat
    var nextCompletion: nat
    ghost var requests: seq<nat>
    ghost var calledIds: seq<nat>
    ghost var calledAt: seq<nat>

    ghost predicate Valid()
      reads this
    {
      nextCompletion == |requests|
    }

    ghost function View(): State
      reads this
    {
      State(refreshing, refreshAgain, currentCompletions, queuedCompletions, attempts, requests, calledIds, calledAt)
    }

    constructor ()
      ensures Valid() && View() == INITIAL
    {
      refreshing, refreshAgain, currentCompletions, queuedCompletions := false, false, [], [];
      attempts, requests, calledIds, calledAt, nextCompletion := 0, [], [], [], 0;
    }

    method Refresh(manager: Managers)
      requires Valid()
      modifies this
      ensures Valid() && View() == Request(old(View()), manager)
    {
      var completion := nextCompletion;
      nextCompletion := nextCompletion + 1;
      requests := requests + [attempts];
      if refreshing {
        refreshAgain := true;
        queuedCompletions := queuedCompletions + [completion];
        return;
      }
      currentCompletions := [completion];
      StartRefresh(manager);
    }

    method StartRefresh(manager: Managers)
      requires Valid()
      modifies this
      ensures Valid() && View() == Start(old(View()), manager)
      decreases refreshAgain, 1
    {
      attempts := attempts + 1;
      if !manager(attempts) {
        FinishRefresh(manager);
        return;
      }
      refreshing := true;
    }

    method FinishRefresh(manager: Managers)
      requires Valid()
      modifies this
      ensures Valid() && View() == Finish(old(View()), manager)
      decreases refreshAgain, 0
    {
      refreshing := false;
      ghost var callbacks := currentCompletions;
      currentCompletions := [];
      calledIds := calledIds + callbacks;
      calledAt := calledAt + Repeat(attempts, |callbacks|);
      if refreshAgain {
        refreshAgain := false;
        currentCompletions := queuedCompletions;
        queuedCompletions := [];
        StartRefresh(manager);
      }
    }
  }
}
