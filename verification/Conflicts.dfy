// The upload-conflict protocol of one item: the stored record, the content
// branch of modifyItem cut at its transactions, the app's set_action, and a
// server that accepts an overwrite only of the version it names.
module Conflicts {
  import opened Prelude

  type Version = nat

  datatype Action = SaveCopy | Retry | Discard

  datatype Kind = Locked | Stale | Unverified

  // An action carries the number of the set_action call that stored it.
  datatype SetAction = SetAction(what: Action, call: nat)

  datatype Record = Record(kind: Kind, base: Option<Version>, action: Option<SetAction>, presentedAt: int, updatedAt: int)

  function BaseOf(r: Option<Record>): Option<Version>
  {
    if r.Some? then r.value.base else None
  }

  // The store's transactions

  function SaveConflict(existing: Option<Record>, kind: Kind, base: Option<Version>, now: int): Record
  {
    Record(kind, base,
           if existing.Some? then existing.value.action else None,
           if existing.Some? then existing.value.presentedAt else 0, now)
  }

  function ConsumeAction(existing: Option<Record>, now: int): (Option<Record>, Option<SetAction>)
  {
    if existing.Some? && existing.value.action.Some?
      then (Some(existing.value.(action := None, updatedAt := now)), existing.value.action)
      else (existing, None)
  }

  function StoreAction(existing: Option<Record>, action: SetAction, now: int): Option<Record>
  {
    if existing.Some? then Some(existing.value.(action := Some(action), presentedAt := 0, updatedAt := now)) else None
  }

  const PRESENTATION_INTERVAL := 30_000

  function ClaimPresentation(existing: Option<Record>, force: bool, now: int): Option<Record>
  {
    if existing.Some? && (force || now - existing.value.presentedAt >= PRESENTATION_INTERVAL)
      then Some(existing.value.(presentedAt := now, updatedAt := now)) else existing
  }

  // The callback, by where it stands between two transactions

  datatype Failure = LockConflict | StaleVersion | OtherError

  datatype Phase =
    | Idle
    | Loaded(contents: bool, token: Option<Version>, existing: Option<Record>)
    | Chosen(contents: bool, token: Option<Version>, existing: Option<Record>, action: Option<Action>)
    | Removing(token: Option<Version>)                       // the local work is done, the record goes next
    | Finishing(contents: bool, token: Option<Version>)      // rename and move, which may still fail
    | Caught(failure: Failure, contents: bool, token: Option<Version>)
    | Saving(kind: Kind, base: Option<Version>)

  // One overwriting upload: the version it named, the version the stored record
  // held, whether the callback had found the record, its token, and what the server did.
  datatype Upload = Upload(
    used: Version, held: Option<Version>, found: bool, token: Option<Version>, accepted: bool, replaced: Version)

  datatype State = State(
    stored: Option<Record>, phase: Phase, online: Version, versions: nat,
    calls: nat, consumed: seq<nat>, uploads: seq<Upload>)

  datatype Step =
    | Begin(contents: bool, token: Option<Version>, readOk: bool)
    | Consume(ok: bool, now: int)
    | Branch(failure: Option<Failure>, now: int)   // the work chosen; failure is how the server or network answers
    | Remove(ok: bool)
    | Finish(failure: Option<Failure>)
    | LoadForCatch(readOk: bool)
    | Save(ok: bool, now: int)
    | Crash
    | AppSetsAction(what: Action, now: int)
    | Present(force: bool, now: int)
    | OnlineChange

  // load is `try?`: a read that fails looks like no record.
  function Load(stored: Option<Record>, readOk: bool): Option<Record>
  {
    if readOk then stored else None
  }

  // existingConflict?.previousVersion ?? versionToken
  function PreviousVersion(existing: Option<Record>, token: Option<Version>): Option<Version>
  {
    if BaseOf(existing).Some? then BaseOf(existing) else token
  }

  // The content branch of modifyItem after the action has been read.
  function BranchStep(s: State, failure: Option<Failure>): State
    requires s.phase.Chosen?
  {
    var p := s.phase;
    var previous := PreviousVersion(p.existing, p.token);
    if !p.contents then s.(phase := Finishing(false, p.token))
    else if p.existing.Some? && p.action.None? then s.(phase := Idle)
    else if p.action == Some(Discard) || p.action == Some(SaveCopy) then
      s.(phase := if failure.Some? then Caught(failure.value, true, p.token) else Removing(p.token))
    else if previous.None? then s.(phase := Saving(Unverified, None))
    else
      var used := previous.value;
      var accepted := failure.None? && used == s.online;
      var after := s.(uploads := s.uploads + [Upload(used, BaseOf(s.stored), p.existing.Some?, p.token, accepted, s.online)]);
      if accepted then after.(phase := Removing(p.token), online := s.versions, versions := s.versions + 1)
      else after.(phase := Caught(if failure.Some? then failure.value else StaleVersion, true, p.token))
  }

  function Next(s: State, step: Step): State
  {
    match step
    case Begin(contents, token, readOk) =>
      if s.phase.Idle? then s.(phase := Loaded(contents, token, Load(s.stored, readOk))) else s
    case Consume(ok, now) =>
      if !s.phase.Loaded? then s
      else if s.phase.existing.None? then s.(phase := Chosen(s.phase.contents, s.phase.token, None, None))
      else if !ok then s.(phase := Idle)
      else
        var (record, taken) := ConsumeAction(s.stored, now);
        s.(stored := record,
           consumed := if taken.Some? then s.consumed + [taken.value.call] else s.consumed,
           phase := Chosen(s.phase.contents, s.phase.token, s.phase.existing, if taken.Some? then Some(taken.value.what) else None))
    case Branch(failure, now) => if s.phase.Chosen? then BranchStep(s, failure) else s
    case Remove(ok) =>
      if s.phase.Removing? then s.(stored := if ok then None else s.stored, phase := Finishing(true, s.phase.token)) else s
    case Finish(failure) =>
      if !s.phase.Finishing? then s
      else if failure.Some? then s.(phase := Caught(failure.value, s.phase.contents, s.phase.token)) else s.(phase := Idle)
    case LoadForCatch(readOk) =>
      if !s.phase.Caught? then s
      else if s.phase.contents && !s.phase.failure.OtherError? then
        s.(phase := Saving(if s.phase.failure.LockConflict? then Locked else Stale, PreviousVersion(Load(s.stored, readOk), s.phase.token)))
      else s.(phase := Idle)
    case Save(ok, now) =>
      if !s.phase.Saving? then s
      else s.(stored := if ok then Some(SaveConflict(s.stored, s.phase.kind, s.phase.base, now)) else s.stored, phase := Idle)
    case Crash => s.(phase := Idle)
    case AppSetsAction(what, now) =>
      if s.stored.None? then s
      else s.(stored := StoreAction(s.stored, SetAction(what, s.calls), now), calls := s.calls + 1)
    case Present(force, now) => s.(stored := ClaimPresentation(s.stored, force, now))
    case OnlineChange => s.(online := s.versions, versions := s.versions + 1)
  }

  function Run(s: State, steps: seq<Step>): State
    decreases |steps|
  {
    if steps == [] then s else Run(Next(s, steps[0]), steps[1..])
  }

  // Before the first callback: no record, and one version online.
  function Start(): State
  {
    State(None, Idle, 0, 1, 0, [], [])
  }

  // What holds in every run, whatever reads fail

  // A record the running callback found is still stored, with the base it found; only
  // with a record has it an action.
  ghost predicate FoundInv(s: State)
  {
    match s.phase
    case Loaded(_, _, existing) => existing.Some? ==> s.stored.Some? && BaseOf(existing) == BaseOf(s.stored)
    case Chosen(_, _, existing, action) =>
      && (existing.Some? ==> s.stored.Some? && BaseOf(existing) == BaseOf(s.stored))
      && (existing.None? ==> action.None?)
    case _ => true
  }

  // An accepted overwrite replaced the version it named. With a held base that is
  // the base iff the callback found the record or had the base for its token.
  ghost predicate UploadFits(u: Upload)
  {
    && (u.accepted ==> u.replaced == u.used)
    && (u.held.Some? ==> (Some(u.used) == u.held <==> u.found || u.token == u.held))
    && (u.held.None? ==> Some(u.used) == u.token)
  }

  ghost predicate UploadsInv(s: State)
  {
    forall i :: 0 <= i < |s.uploads| ==> UploadFits(s.uploads[i])
  }

  // Actions: calls are consumed at most once, and a stored action is not yet consumed.
  ghost predicate ActionsInv(s: State)
  {
    && (forall i :: 0 <= i < |s.consumed| ==> s.consumed[i] < s.calls)
    && (forall i, j :: 0 <= i < j < |s.consumed| ==> s.consumed[i] != s.consumed[j])
    && (s.stored.Some? && s.stored.value.action.Some? ==>
          s.stored.value.action.value.call < s.calls && s.stored.value.action.value.call !in s.consumed)
  }

  // Online versions are numbered upwards.
  ghost predicate VersionsInv(s: State)
  {
    s.online < s.versions
  }

  ghost predicate Inv(s: State)
  {
    FoundInv(s) && UploadsInv(s) && ActionsInv(s) && VersionsInv(s)
  }

  lemma BranchKeeps(s: State, failure: Option<Failure>)
    requires FoundInv(s) && UploadsInv(s) && s.phase.Chosen?
    ensures UploadsInv(BranchStep(s, failure))
  {}

  lemma FoundStays(s: State, step: Step)
    requires FoundInv(s)
    ensures FoundInv(Next(s, step))
  {}

  lemma UploadsStay(s: State, step: Step)
    requires FoundInv(s) && UploadsInv(s)
    ensures UploadsInv(Next(s, step))
  {
    if step.Branch? && s.phase.Chosen? {
      BranchKeeps(s, step.failure);
    }
  }

  lemma ActionsStay(s: State, step: Step)
    requires ActionsInv(s)
    ensures ActionsInv(Next(s, step))
  {}

  lemma NextKeeps(s: State, step: Step)
    requires Inv(s)
    ensures Inv(Next(s, step))
  {
    FoundStays(s, step);
    UploadsStay(s, step);
    ActionsStay(s, step);
  }

  lemma {:induction false} RunsKeepInv(s: State, steps: seq<Step>)
    requires Inv(s)
    ensures Inv(Run(s, steps))
    decreases |steps|
  {
    if steps != [] {
      NextKeeps(s, steps[0]);
      RunsKeepInv(Next(s, steps[0]), steps[1..]);
    }
  }

  // Each set action is consumed at most once in any run from the beginning.
  lemma {:induction false} ActionsConsumedOnce(steps: seq<Step>, i: nat, j: nat)
    requires i < j < |Run(Start(), steps).consumed|
    ensures Run(Start(), steps).consumed[i] != Run(Start(), steps).consumed[j]
  {
    RunsKeepInv(Start(), steps);
  }

  // In any run from the beginning: an accepted upload replaced exactly the version
  // it named; that was the base the record held then iff the callback had found
  // the record or its token was that base.
  lemma {:induction false} UploadsReplaceWhatTheyName(steps: seq<Step>, i: nat)
    requires i < |Run(Start(), steps).uploads|
    ensures UploadFits(Run(Start(), steps).uploads[i])
  {
    RunsKeepInv(Start(), steps);
  }

  // Base versions

  // A failure in the callback's catch block that leads to a conflict record.
  predicate Rescues(s: State)
  {
    s.phase.Caught? && s.phase.contents && !s.phase.failure.OtherError?
  }

  // A read of the record either succeeds or the callback's token is the base anyway.
  predicate SafeRead(s: State, step: Step, b: Version)
  {
    match step
    case Begin(contents, token, readOk) => s.phase.Idle? && contents && !readOk ==> token == Some(b)
    case LoadForCatch(readOk) => Rescues(s) && !readOk ==> s.phase.token == Some(b)
    case _ => true
  }

  predicate SafeReads(s: State, steps: seq<Step>, b: Version)
    decreases |steps|
  {
    steps == [] || (SafeRead(s, steps[0], b) && SafeReads(Next(s, steps[0]), steps[1..], b))
  }

  // The record holds b, and so does whatever the running callback will use for it.
  ghost predicate Holds(s: State, b: Version)
  {
    && BaseOf(s.stored) == Some(b)
    && match s.phase
       case Loaded(contents, token, existing) => contents ==> PreviousVersion(existing, token) == Some(b)
       case Chosen(contents, token, existing, _) => contents ==> PreviousVersion(existing, token) == Some(b)
       case Saving(_, base) => base == Some(b)
       case _ => true
  }

  predicate RemovesNow(s: State, step: Step)
  {
    s.phase.Removing? && step == Remove(true)
  }

  predicate Removes(s: State, steps: seq<Step>)
    decreases |steps|
  {
    steps != [] && (RemovesNow(s, steps[0]) || Removes(Next(s, steps[0]), steps[1..]))
  }

  // No single step of either process changes a held base other than by removing
  // the record, and after it the callback still works with that base iff the
  // step's read was safe.
  lemma BaseSticks(s: State, step: Step, b: Version)
    requires Holds(s, b)
    ensures Next(s, step).stored.None? <==> RemovesNow(s, step)
    ensures !RemovesNow(s, step) ==> BaseOf(Next(s, step).stored) == Some(b)
    ensures !RemovesNow(s, step) ==> (Holds(Next(s, step), b) <==> SafeRead(s, step, b))
  {}

  // The uploads since s named b, and what was accepted of them replaced b.
  ghost predicate UploadsName(s: State, t: State, b: Version)
  {
    && s.uploads <= t.uploads
    && forall i :: |s.uploads| <= i < |t.uploads| ==> t.uploads[i].used == b && (t.uploads[i].accepted ==> t.uploads[i].replaced == b)
  }

  lemma UploadNames(s: State, step: Step, b: Version)
    requires Holds(s, b)
    ensures UploadsName(s, Next(s, step), b)
  {}

  lemma UploadsCompose(s: State, t: State, u: State, b: Version)
    requires UploadsName(s, t, b) && UploadsName(t, u, b)
    ensures UploadsName(s, u, b)
  {}

  // Whole runs: until the record is removed, and as long as its reads are safe,
  // every later record keeps the base and every overwriting upload names it; a
  // newer online version is therefore never replaced.
  lemma {:induction false} RunsKeepBase(s: State, steps: seq<Step>, b: Version)
    requires Holds(s, b) && !Removes(s, steps) && SafeReads(s, steps, b)
    ensures Holds(Run(s, steps), b) && UploadsName(s, Run(s, steps), b)
    decreases |steps|
  {
    if steps != [] {
      var t := Next(s, steps[0]);
      BaseSticks(s, steps[0], b);
      UploadNames(s, steps[0], b);
      RunsKeepBase(t, steps[1..], b);
      UploadsCompose(s, t, Run(s, steps), b);
    }
  }

  // From any reachable state between callbacks: while the record with base b is there
  // and reads are safe, whatever an accepted upload replaced was b, nothing newer.
  lemma {:induction false} NewerNeverOverwritten(before: seq<Step>, steps: seq<Step>, b: Version, i: nat)
    requires var s := Run(Start(), before);
             s.phase.Idle? && BaseOf(s.stored) == Some(b) && !Removes(s, steps) && SafeReads(s, steps, b)
    requires |Run(Start(), before).uploads| <= i < |Run(Run(Start(), before), steps).uploads|
    ensures var u := Run(Run(Start(), before), steps).uploads[i];
            u.used == b && (u.accepted ==> u.replaced == b)
  {
    RunsKeepBase(Run(Start(), before), steps, b);
  }

  ghost predicate KeepsBase(s: State, steps: seq<Step>, b: Version)
  {
    BaseOf(Run(s, steps).stored) == Some(b) && UploadsName(s, Run(s, steps), b)
  }

  // What the callback does after an unsafe read when the network answers and the save succeeds.
  function AfterUnsafe(step: Step, now: int): seq<Step>
  {
    if step.Begin? then [Consume(true, now), Branch(None, now), Save(true, now)] else [Save(true, now)]
  }

  lemma ThreeReads(s: State, steps: seq<Step>, b: Version)
    requires |steps| == 3 && steps[0].Consume? && steps[1].Branch? && steps[2].Save?
    ensures SafeReads(s, steps, b) && !Removes(s, steps)
  {
    var s1 := Next(s, steps[0]);
    var s2 := Next(s1, steps[1]);
    assert steps[1..][1..] == [steps[2]] && steps[1..][1..][1..] == [];
    assert SafeReads(s2, [steps[2]], b) && !Removes(s2, [steps[2]]);
    assert SafeReads(s1, steps[1..], b) && !Removes(s1, steps[1..]);
  }

  lemma ThreeSteps(s: State, steps: seq<Step>)
    requires |steps| == 3
    ensures Run(s, steps) == Next(Next(Next(s, steps[0]), steps[1]), steps[2])
  {
    var s1 := Next(s, steps[0]);
    var s2 := Next(s1, steps[1]);
    assert steps[1..][1..] == [steps[2]] && steps[1..][1..][1..] == [];
    assert Run(s, steps) == Run(s1, steps[1..]) == Run(s2, steps[1..][1..]) == Next(s2, steps[2]);
  }

  lemma AfterUnsafeLosesBase(s: State, step: Step, b: Version, now: int)
    requires Holds(s, b) && !SafeRead(s, step, b)
    ensures var t := Next(s, step);
            var more := AfterUnsafe(step, now);
            SafeReads(t, more, b) && !Removes(t, more) && !KeepsBase(t, more, b)
  {
    var t, more := Next(s, step), AfterUnsafe(step, now);
    if step.Begin? {
      ThreeSteps(t, more);
      ThreeReads(t, more, b);
      if step.token.Some? {
        assert Run(t, more).uploads[|t.uploads|].used != b;
      } else {
        assert BaseOf(Run(t, more).stored) == None;
      }
    } else {
      assert more[1..] == [] && Run(t, more) == Next(t, more[0]);
      assert SafeReads(t, more, b) && !Removes(t, more);
    }
  }

  // The condition on one read is exact: whatever happens next without a removal or
  // a further unsafe read, the base stays and every overwrite names it, iff this
  // read was safe.
  lemma {:induction false} SafeReadDecides(s: State, step: Step, b: Version)
    requires Holds(s, b) && !RemovesNow(s, step)
    ensures var t := Next(s, step);
            SafeRead(s, step, b) <==> forall more :: SafeReads(t, more, b) && !Removes(t, more) ==> KeepsBase(t, more, b)
  {
    var t := Next(s, step);
    BaseSticks(s, step, b);
    if SafeRead(s, step, b) {
      forall more | SafeReads(t, more, b) && !Removes(t, more) ensures KeepsBase(t, more, b) {
        RunsKeepBase(t, more, b);
      }
    } else {
      AfterUnsafeLosesBase(s, step, b, 0);
    }
  }

  lemma TwoSteps(s: State, first: Step, second: Step)
    ensures Run(s, [first, second]) == Next(Next(s, first), second)
  {
    var steps, t := [first, second], Next(s, first);
    assert steps[1..] == [second] && [second][1..] == [];
    assert Run(t, [second]) == Run(Next(t, second), []);
  }

  // The read in the catch block: after a lock or stale failure the saved record
  // still holds the base iff the record could be read or the token is the base.
  lemma CatchReadKeepsBase(s: State, b: Version, readOk: bool, now: int)
    requires Rescues(s) && BaseOf(s.stored) == Some(b)
    ensures BaseOf(Run(s, [LoadForCatch(readOk), Save(true, now)]).stored) == Some(b) <==> readOk || s.phase.token == Some(b)
  {
    TwoSteps(s, LoadForCatch(readOk), Save(true, now));
  }

  // What a failed read costs: with a retry stored and an answering server, the
  // callback's overwrite names the held base exactly when the record could be
  // read or the callback's own token happens to be that base.
  lemma FailedReadBypassesBase(s: State, token: Option<Version>, b: Version, readOk: bool, now: int)
    requires s.phase.Idle? && BaseOf(s.stored) == Some(b)
    requires s.stored.value.action.Some? && s.stored.value.action.value.what == Retry
    ensures var t := Run(s, [Begin(true, token, readOk), Consume(true, now), Branch(None, now)]);
            (|t.uploads| == |s.uploads| + 1 && t.uploads[|s.uploads|].used == b) <==> readOk || token == Some(b)
  {
    var steps := [Begin(true, token, readOk), Consume(true, now), Branch(None, now)];
    ThreeSteps(s, steps);
  }

  lemma {:induction false} RunAppend(s: State, a: seq<Step>, b: seq<Step>)
    ensures Run(s, a + b) == Run(Run(s, a), b)
    decreases |a|
  {
    if a == [] {
      assert a + b == b;
    } else {
      assert (a + b)[0] == a[0] && (a + b)[1..] == a[1..] + b;
      RunAppend(Next(s, a[0]), a[1..], b);
    }
  }

  // A callback with contents whose reads succeed and whose server answers.
  function Callback(token: Option<Version>, now: int): seq<Step>
  {
    [Begin(true, token, true), Consume(true, now), Branch(None, now)]
  }

  // The app sets a retry, and the callback runs.
  function RetryWith(token: Option<Version>, now: int): seq<Step>
  {
    [AppSetsAction(Retry, now)] + Callback(token, now)
  }

  lemma RetryRun(s: State, token: Option<Version>, now: int)
    ensures var asked := Next(s, AppSetsAction(Retry, now));
            var t := Next(Next(Next(asked, Begin(true, token, true)), Consume(true, now)), Branch(None, now));
            Run(s, RetryWith(token, now)) == t
  {
    var asked := Next(s, AppSetsAction(Retry, now));
    ThreeSteps(asked, Callback(token, now));
    assert RetryWith(token, now)[1..] == Callback(token, now);
  }

  // What a failed catch read costs, for good: once the saved base is the token, the
  // next retry overwrites that version, though every later read succeeds.
  lemma FailedCatchReadOverwrites(s: State, b: Version, v: Version, now: int)
    requires Rescues(s) && BaseOf(s.stored) == Some(b) && s.phase.token == Some(v) && v == s.online
    ensures var t := Run(s, [LoadForCatch(false), Save(true, now)] + RetryWith(Some(v), now));
            && |t.uploads| == |s.uploads| + 1
            && t.uploads[|s.uploads|].accepted && t.uploads[|s.uploads|].replaced == v
  {
    var rescue := [LoadForCatch(false), Save(true, now)];
    TwoSteps(s, LoadForCatch(false), Save(true, now));
    RunAppend(s, rescue, RetryWith(Some(v), now));
    RetryRun(Run(s, rescue), Some(v), now);
  }

  // Such a state is reached: a record holding base 0 while version 1 is online, and
  // a retry whose callback already carries token 1.
  lemma FailedCatchReadReached() returns (steps: seq<Step>)
    ensures var s := Run(Start(), steps);
            Rescues(s) && BaseOf(s.stored) == Some(0) && s.phase.token == Some(1) && s.online == 1
  {
    var s1 := Next(Start(), OnlineChange);
    var s2 := Run(s1, Callback(Some(0), 0));
    ThreeSteps(s1, Callback(Some(0), 0));
    var rescue := [LoadForCatch(true), Save(true, 0)];
    var s3 := Run(s2, rescue);
    TwoSteps(s2, LoadForCatch(true), Save(true, 0));
    RetryRun(s3, Some(1), 0);
    steps := [OnlineChange] + (Callback(Some(0), 0) + (rescue + RetryWith(Some(1), 0)));
    RunAppend(s2, rescue, RetryWith(Some(1), 0));
    RunAppend(s1, Callback(Some(0), 0), rescue + RetryWith(Some(1), 0));
    assert steps[1..] == Callback(Some(0), 0) + (rescue + RetryWith(Some(1), 0));
  }

  // A stored action stays, with its number, until it is consumed, replaced by
  // another set_action, or the record goes; in particular a conflict save keeps it.
  lemma ActionSurvives(s: State, step: Step)
    requires s.stored.Some? && s.stored.value.action.Some?
    ensures var t := Next(s, step);
            || (t.stored.Some? && t.stored.value.action == s.stored.value.action)
            || (step.Consume? && t.consumed == s.consumed + [s.stored.value.action.value.call] && t.stored.Some? && t.stored.value.action.None?)
            || (step.AppSetsAction? && t.stored.Some? && t.stored.value.action == Some(SetAction(step.what, s.calls)))
            || (step == Remove(true) && t.stored.None?)
  {}

  // Consumption happens before modifyItem looks at the changed fields, so a
  // callback without contents uses an action up and acts on it never: the
  // record is left without one and no upload is tried. With contents the action
  // decides the branch.
  lemma ActionActedOn(s: State, contents: bool, token: Option<Version>, now: int, failure: Option<Failure>)
    requires s.phase.Idle? && s.stored.Some? && s.stored.value.action.Some?
    requires BaseOf(s.stored).Some? || token.Some?
    ensures var t := Run(s, [Begin(contents, token, true), Consume(true, now), Branch(failure, now)]);
            && t.stored == Some(s.stored.value.(action := None, updatedAt := now))
            && (contents <==> t.phase.Removing? || t.phase.Caught?)
            && (!contents ==> t.uploads == s.uploads && t.phase == Finishing(false, token))
  {
    var steps := [Begin(contents, token, true), Consume(true, now), Branch(failure, now)];
    ThreeSteps(s, steps);
  }

  // Which work the callback does

  // The callback is to overwrite the file.
  predicate WantsUpload(p: Phase)
    requires p.Chosen?
  {
    && p.contents && (p.existing.None? || p.action == Some(Retry))
    && (p.token.Some? || (p.existing.Some? && p.existing.value.base.Some?))
  }

  lemma BranchUploads(s: State, failure: Option<Failure>)
    requires s.phase.Chosen? && FoundInv(s)
    ensures var t := BranchStep(s, failure);
            && (WantsUpload(s.phase) ==> |t.uploads| == |s.uploads| + 1 && s.uploads <= t.uploads)
            && (!WantsUpload(s.phase) ==> t.uploads == s.uploads && t.online == s.online)
            && t.stored == s.stored && t.consumed == s.consumed && t.calls == s.calls
  {
    if s.phase.action.Some? {
      match s.phase.action.value
      case SaveCopy =>
      case Retry =>
      case Discard =>
    }
  }

  // From any reachable state in which the action has been read, the branch sends one
  // overwriting upload iff there are contents, a previous version is known, and no record
  // was found or the action is a retry. Otherwise neither the server nor the list of
  // uploads changes; the stored record never does.
  lemma {:induction false} BranchUploadsExactly(steps: seq<Step>, failure: Option<Failure>, now: int)
    requires Run(Start(), steps).phase.Chosen?
    ensures var s := Run(Start(), steps);
            var t := Next(s, Branch(failure, now));
            && (WantsUpload(s.phase) ==> |t.uploads| == |s.uploads| + 1 && s.uploads <= t.uploads)
            && (!WantsUpload(s.phase) ==> t.uploads == s.uploads && t.online == s.online)
            && t.stored == s.stored && t.consumed == s.consumed && t.calls == s.calls
  {
    RunsKeepInv(Start(), steps);
    BranchUploads(Run(Start(), steps), failure);
  }

  // Where the branch leads: without contents to the other fields; with a record and no
  // action it ends at once, nothing changed; discard and save-copy go on to remove the
  // record once their work is done; without a previous version an unverified record is
  // saved; an upload leads to the removal if accepted.
  lemma {:induction false} BranchLeads(steps: seq<Step>, failure: Option<Failure>)
    requires Run(Start(), steps).phase.Chosen?
    ensures var s := Run(Start(), steps);
            var p, t := s.phase, Next(s, Branch(failure, 0));
            if !p.contents then t == s.(phase := Finishing(false, p.token))
            else if p.existing.Some? && p.action.None? then t == s.(phase := Idle)
            else if p.action == Some(Discard) || p.action == Some(SaveCopy) then
              t == s.(phase := if failure.None? then Removing(p.token) else Caught(failure.value, true, p.token))
            else if BaseOf(p.existing).None? && p.token.None? then t == s.(phase := Saving(Unverified, None))
            else if t.uploads[|t.uploads| - 1].accepted then t.phase == Removing(p.token) && failure.None?
            else t.phase == Caught(if failure.Some? then failure.value else StaleVersion, true, p.token)
  {
    RunsKeepInv(Start(), steps);
  }

  // After a lock or stale failure the record saved says which, and keeps the action and
  // the time it was last presented.
  lemma CatchSavesKind(s: State, readOk: bool, now: int)
    requires Rescues(s)
    ensures var r := Run(s, [LoadForCatch(readOk), Save(true, now)]).stored;
            && r.Some? && (r.value.kind == Locked <==> s.phase.failure == LockConflict)
            && (r.value.kind == Stale <==> s.phase.failure == StaleVersion)
            && (if s.stored.Some? then r.value.action == s.stored.value.action && r.value.presentedAt == s.stored.value.presentedAt
                else r.value.action == None && r.value.presentedAt == 0)
  {
    TwoSteps(s, LoadForCatch(readOk), Save(true, now));
  }

  // A presentation is claimed iff it is forced or half a minute has passed since the
  // last; nothing but its time changes.
  lemma PresentExactly(s: State, force: bool, now: int)
    ensures var t := Next(s, Present(force, now));
            && t.(stored := s.stored) == s && (s.stored.None? ==> t == s)
            && (s.stored.Some? ==>
                  var due := force || now - s.stored.value.presentedAt >= 30_000;
                  && t.stored.Some? && t.stored.value.presentedAt == (if due then now else s.stored.value.presentedAt)
                  && t.stored.value.base == s.stored.value.base && t.stored.value.action == s.stored.value.action
                  && t.stored.value.kind == s.stored.value.kind)
  {}

  // A callback that cannot consume the action of a record it found ends there, with
  // everything as it was.
  lemma FailedConsumeEnds(s: State, contents: bool, token: Option<Version>, now: int)
    requires s.phase.Idle? && s.stored.Some?
    ensures Run(s, [Begin(contents, token, true), Consume(false, now)]) == s
  {
    TwoSteps(s, Begin(contents, token, true), Consume(false, now));
  }

  // A callback without contents saves and uploads nothing, however its other fields end;
  // it may only have used up an action.
  lemma NoContentsNoConflict(s: State, token: Option<Version>, readOk: bool, failure: Option<Failure>, again: bool, now: int)
    requires s.phase.Idle?
    ensures var t := Run(s, [Begin(false, token, readOk), Consume(true, now), Branch(None, now), Finish(failure), LoadForCatch(again)]);
            && t.phase.Idle? && t.uploads == s.uploads && t.online == s.online
            && (t.stored == s.stored || (s.stored.Some? && t.stored == Some(s.stored.value.(action := None, updatedAt := now))))
  {
    var steps := [Begin(false, token, readOk), Consume(true, now), Branch(None, now), Finish(failure), LoadForCatch(again)];
    var chosen := Run(s, steps[..3]);
    ThreeSteps(s, steps[..3]);
    assert steps == steps[..3] + [Finish(failure), LoadForCatch(again)];
    RunAppend(s, steps[..3], [Finish(failure), LoadForCatch(again)]);
    TwoSteps(chosen, Finish(failure), LoadForCatch(again));
  }

  // Setting an action makes the conflict presentable again, once the clock is past the
  // interval; presenting it closes that for as long.
  lemma SetActionReopensPresentation(s: State, what: Action, now: int, later: int)
    requires s.stored.Some? && later >= 30_000
    ensures var t := Run(s, [AppSetsAction(what, now), Present(false, later)]);
            && t.stored.Some? && t.stored.value.presentedAt == later
            && Next(t, Present(false, later + 29_999)) == t
  {
    var asked := Next(s, AppSetsAction(what, now));
    assert asked.stored.Some? && asked.stored.value.presentedAt == 0;
    var t := Next(asked, Present(false, later));
    assert t.stored.Some? && t.stored.value.presentedAt == later;
    assert ClaimPresentation(t.stored, false, later + 29_999) == t.stored;
    TwoSteps(s, AppSetsAction(what, now), Present(false, later));
  }

  // The store itself: read-modify-write steps on a table of records.
  class UploadConflictStore {
    var records: map<string, Record>

    function Get(id: string): Option<Record>
      reads this
    {
      if id in records then Some(records[id]) else None
    }

    constructor ()
      ensures records == map[]
    {
      records := map[];
    }

    method Save(id: string, kind: Kind, previousVersion: Option<Version>, now: int) returns (record: Record)
      modifies this
      ensures record == SaveConflict(old(Get(id)), kind, previousVersion, now)
      ensures records == old(records)[id := record]
    {
      record := Record(kind, previousVersion, None, 0, now);
      if id in records {
        record := record.(action := records[id].action, presentedAt := records[id].presentedAt);
      }
      records := records[id := record];
    }

    method Consume(id: string, now: int) returns (action: Option<SetAction>)
      modifies this
      ensures Get(id) == ConsumeAction(old(Get(id)), now).0 && action == ConsumeAction(old(Get(id)), now).1
      ensures records - {id} == old(records) - {id}
    {
      if id !in records || records[id].action.None? {
        return None;
      }
      var record := records[id];
      action := record.action;
      record := record.(action := None, updatedAt := now);
      records := records[id := record];
    }

    method Set(id: string, action: SetAction, now: int) returns (ok: bool)
      modifies this
      ensures ok == (id in old(records))
      ensures Get(id) == StoreAction(old(Get(id)), action, now)
      ensures records - {id} == old(records) - {id}
    {
      if id !in records {
        return false;
      }
      records := records[id := records[id].(action := Some(action), presentedAt := 0, updatedAt := now)];
      return true;
    }

    method Claim(id: string, force: bool, now: int) returns (claimed: bool)
      modifies this
      ensures Get(id) == ClaimPresentation(old(Get(id)), force, now)
      ensures records - {id} == old(records) - {id}
      ensures claimed <==> id in old(records) && (force || now - old(records)[id].presentedAt >= PRESENTATION_INTERVAL)
    {
      if id !in records || !(force || now - records[id].presentedAt >= PRESENTATION_INTERVAL) {
        return false;
      }
      records := records[id := records[id].(presentedAt := now, updatedAt := now)];
      return true;
    }

    method Delete(id: string)
      modifies this
      ensures records == old(records) - {id}
    {
      records := records - {id};
    }
  }
}
