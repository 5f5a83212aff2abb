// The import-once record store and the removal of the legacy files it was imported
// from. Files and tables are separate; the process may stop between any two
// steps, and other processes work on the same store in between.
module LegacyCleanup {
  import opened Prelude

  type Key = (string, string)

  // text is None for a file that is not valid UTF-8.
  datatype File = Regular(text: Option<string>) | NotRegular

  // What a namespace's path names; odd says that a regular file with a name that
  // is not valid UTF-8 is among the entries.
  datatype Node =
    | Directory(files: map<string, File>, odd: bool)
    | Link(files: map<string, File>, odd: bool)
    | Plain

  datatype Store = Store(disk: map<string, Node>, records: map<Key, string>, imports: set<string>)

  // The store with what a run did to it: what each import read, the keys changed or
  // deleted by record operations, the files written into a namespace after its
  // import, and the files the cleanup removed.
  datatype State = State(
    store: Store, snapshot: map<Key, string>, touched: set<Key>, late: set<Key>, removed: set<(Key, File)>)

  datatype Step =
    | ImportStep(ns: string)
    | Put(ns: string, key: string, payload: string)
    | Consume(ns: string, key: string, payload: string)
    | Remove(ns: string, key: string)
    | Update(ns: string, key: string, change: string -> Option<string>)
    | LegacyWrite(ns: string, name: string, file: File)
    | CleanFile(ns: string, name: string)
    | CleanDirectory(ns: string)

  type Recognizer = (string, string) -> bool

  predicate Hidden(name: string) {
    name != "" && name[0] == '.'
  }

  // Recognised legacy files

  // The part after the last dot, unless that dot starts the name.
  function Extension(name: string): Option<string> {
    if |name| <= 1 then None
    else if name[|name| - 1] == '.' then Some("")
    else
      var front := Extension(name[..|name| - 1]);
      if front.None? then None else Some(front.value + [name[|name| - 1]])
  }

  predicate HexDigit(c: char) {
    '0' <= c <= '9' || 'a' <= c <= 'f' || 'A' <= c <= 'F'
  }

  predicate Recognized(ns: string, name: string) {
    if ns == "fp-reset" then Extension(name) == Some("marker")
    else if ns == "fileprovider-download-retries" then |name| == 16 && forall i :: 0 <= i < |name| ==> HexDigit(name[i])
    else if ns == "upload-conflicts" then Extension(name) == Some("json") || Extension(name) == Some("refresh")
    else Extension(name) == Some("json")
  }

  // Import

  predicate Imports(name: string, f: File) {
    f.Regular? && !Hidden(name)
  }

  predicate Readable(files: map<string, File>) {
    forall n :: n in files && Imports(n, files[n]) ==> files[n].text.Some?
  }

  function Texts(files: map<string, File>): map<string, string>
    requires Readable(files)
  {
    map n | n in files && Imports(n, files[n]) :: files[n].text.value
  }

  function Keyed(ns: string, texts: map<string, string>): (r: map<Key, string>)
    ensures forall k :: k in r <==> k.0 == ns && k.1 in texts
    ensures forall k :: k in r ==> r[k] == texts[k.1]
  {
    map n | n in texts :: (ns, n) := texts[n]
  }

  function Entries(disk: map<string, Node>, ns: string): Option<map<string, string>> {
    if ns !in disk then Some(map[])
    else if disk[ns].Plain? || disk[ns].odd || !Readable(disk[ns].files) then None
    else Some(Texts(disk[ns].files))
  }

  // INSERT OR IGNORE of every entry, and the import marker, in one transaction.
  function Import(st: Store, ns: string): Option<Store> {
    if ns in st.imports then Some(st)
    else
      var texts := Entries(st.disk, ns);
      if texts.None? then None
      else Some(st.(records := Keyed(ns, texts.value) + st.records, imports := st.imports + {ns}))
  }

  // Visible regular files are what an import reads.
  ghost predicate Reads(files: map<string, File>, name: string) {
    name in files && files[name].Regular? && (name == "" || name[0] != '.')
  }

  // An import succeeds iff it was done before, there is nothing at the path, or the
  // path is a directory (or leads to one) without odd names whose visible regular files
  // are all text. It then has every such file under its name, unless a record was there,
  // and all other records as before.
  lemma ImportExactly(st: Store, ns: string, k: Key)
    ensures Import(st, ns).Some? <==>
            || ns in st.imports || ns !in st.disk
            || (!st.disk[ns].Plain? && !st.disk[ns].odd && forall n :: Reads(st.disk[ns].files, n) ==> st.disk[ns].files[n].text.Some?)
    ensures Import(st, ns).Some? ==>
            var r := Import(st, ns).value;
            var added := ns !in st.imports && k.0 == ns && ns in st.disk && Reads(st.disk[ns].files, k.1);
            && r.imports == st.imports + {ns} && r.disk == st.disk
            && (k in r.records <==> k in st.records || added)
            && (k in r.records ==> r.records[k] == if k in st.records then st.records[k] else st.disk[ns].files[k.1].text.value)
  {
    if ns in st.imports {
      assert st.imports + {ns} == st.imports;
    } else if ns in st.disk && !st.disk[ns].Plain? {
      forall n ensures Reads(st.disk[ns].files, n) <==> n in st.disk[ns].files && Imports(n, st.disk[ns].files[n]) {}
    }
  }

  function FilesOf(disk: map<string, Node>, ns: string): map<string, File> {
    if ns in disk && !disk[ns].Plain? then disk[ns].files else map[]
  }

  predicate Removable(st: Store, recognized: Recognizer, ns: string, name: string) {
    && ns in st.disk && st.disk[ns].Directory? && name in st.disk[ns].files
    && st.disk[ns].files[name].Regular? && recognized(ns, name) && !Hidden(name)
  }

  function StepOf(s: State, recognized: Recognizer, step: Step): State {
    var st := s.store;
    match step
    case ImportStep(ns) =>
      var after := Import(st, ns);
      if after.None? || ns in st.imports then s
      else s.(store := after.value, snapshot := s.snapshot + Keyed(ns, Entries(st.disk, ns).value))
    case Put(ns, key, payload) =>
      if ns !in st.imports then s
      else s.(store := st.(records := st.records[(ns, key) := payload]), touched := s.touched + {(ns, key)})
    case Consume(ns, key, payload) =>
      if (ns, key) !in st.records || st.records[(ns, key)] != payload then s
      else s.(store := st.(records := st.records - {(ns, key)}), touched := s.touched + {(ns, key)})
    case Remove(ns, key) =>
      if ns !in st.imports then s
      else s.(store := st.(records := st.records - {(ns, key)}), touched := s.touched + {(ns, key)})
    case Update(ns, key, change) =>
      if (ns, key) !in st.records || change(st.records[(ns, key)]).None? then s
      else
        s.(store := st.(records := st.records[(ns, key) := change(st.records[(ns, key)]).value]),
           touched := s.touched + {(ns, key)})
    case LegacyWrite(ns, name, file) =>
      if ns in st.disk && st.disk[ns].Plain? then s
      else
        var node := if ns in st.disk then st.disk[ns] else Directory(map[], false);
        s.(store := st.(disk := st.disk[ns := node.(files := node.files[name := file])]),
           late := if ns in st.imports then s.late + {(ns, name)} else s.late)
    case CleanFile(ns, name) =>
      if ns !in st.imports || !Removable(st, recognized, ns, name) then s
      else
        var node := st.disk[ns];
        s.(store := st.(disk := st.disk[ns := Directory(node.files - {name}, node.odd)]),
           removed := s.removed + {((ns, name), node.files[name])})
    case CleanDirectory(ns) =>
      if ns !in st.disk || !st.disk[ns].Directory? || st.disk[ns].files != map[] || st.disk[ns].odd then s
      else s.(store := st.(disk := st.disk - {ns}))
  }

  function RunSteps(s: State, recognized: Recognizer, steps: seq<Step>): State {
    if steps == [] then s else StepOf(RunSteps(s, recognized, steps[..|steps| - 1]), recognized, steps[|steps| - 1])
  }

  function Fresh(disk: map<string, Node>): State {
    State(Store(disk, map[], {}), map[], {}, {}, {})
  }

  // Invariant

  ghost predicate RecordsImported(s: State) {
    && (forall k :: k in s.store.records ==> k.0 in s.store.imports)
    && (forall k :: k in s.snapshot ==> k.0 in s.store.imports)
  }

  // Whatever an import read is in the table unless a record operation changed it.
  ghost predicate NothingLost(s: State) {
    forall k :: k in s.snapshot && k !in s.touched ==> k in s.store.records && s.store.records[k] == s.snapshot[k]
  }

  ghost predicate ImportedAs(s: State, k: Key, f: File) {
    f.Regular? && f.text.Some? && k in s.snapshot && s.snapshot[k] == f.text.value
  }

  // A visible regular file in an imported namespace was imported as it is, or came late.
  ghost predicate DiskCovered(s: State) {
    forall ns, n :: ns in s.store.imports && n in FilesOf(s.store.disk, ns) && Imports(n, FilesOf(s.store.disk, ns)[n]) ==>
      (ns, n) in s.late || ImportedAs(s, (ns, n), FilesOf(s.store.disk, ns)[n])
  }

  ghost predicate RemovedWereImported(s: State) {
    forall r :: r in s.removed ==> r.0 in s.late || ImportedAs(s, r.0, r.1)
  }

  ghost predicate Inv(s: State) {
    RecordsImported(s) && NothingLost(s) && DiskCovered(s) && RemovedWereImported(s)
  }

  lemma ImportKeeps(s: State, recognized: Recognizer, ns: string)
    requires Inv(s) && ns !in s.store.imports && Import(s.store, ns).Some?
    ensures Inv(StepOf(s, recognized, ImportStep(ns)))
  {
    var s' := StepOf(s, recognized, ImportStep(ns));
    var texts := Entries(s.store.disk, ns).value;
    forall k | k in s.snapshot ensures k in s'.snapshot && s'.snapshot[k] == s.snapshot[k] {
      assert k.0 != ns;
    }
    assert forall r :: r in s.removed && ImportedAs(s, r.0, r.1) ==> ImportedAs(s', r.0, r.1);
    forall k | k in Keyed(ns, texts) ensures k !in s.store.records && s'.snapshot[k] == texts[k.1] {
      assert k.0 == ns;
    }
    forall m, n | m in s'.store.imports && n in FilesOf(s.store.disk, m) && Imports(n, FilesOf(s.store.disk, m)[n])
      ensures (m, n) in s.late || ImportedAs(s', (m, n), FilesOf(s.store.disk, m)[n])
    {
      if m == ns {
        assert n in texts && (m, n) in Keyed(ns, texts);
      } else {
        assert (m, n) in s.late || ImportedAs(s, (m, n), FilesOf(s.store.disk, m)[n]);
      }
    }
  }

  lemma DiskStays(s: State, s': State)
    requires Inv(s)
    requires s'.store.disk == s.store.disk && s'.store.imports == s.store.imports && s'.snapshot == s.snapshot
    requires s'.late == s.late && s'.removed == s.removed
    ensures DiskCovered(s') && RemovedWereImported(s')
  {
    assert forall k, f :: ImportedAs(s, k, f) <==> ImportedAs(s', k, f);
  }

  lemma RecordStepKeeps(s: State, recognized: Recognizer, step: Step)
    requires Inv(s) && (step.Put? || step.Consume? || step.Remove? || step.Update?)
    ensures Inv(StepOf(s, recognized, step))
  {
    var s' := StepOf(s, recognized, step);
    assert s'.store.disk == s.store.disk && s'.store.imports == s.store.imports && s'.snapshot == s.snapshot;
    forall k | k in s'.store.records ensures k.0 in s'.store.imports {
      if k !in s.store.records { assert step.Put?; }
    }
    DiskStays(s, s');
  }

  // The files of every namespace are as before, or fewer, except late ones.
  ghost predicate DiskShrinks(s: State, s': State) {
    forall ns, n :: ns in s.store.imports && n in FilesOf(s'.store.disk, ns) ==>
      (ns, n) in s'.late || (n in FilesOf(s.store.disk, ns) && FilesOf(s'.store.disk, ns)[n] == FilesOf(s.store.disk, ns)[n])
  }

  // What every step on the disk alone leaves as it is.
  ghost predicate DiskOnly(s: State, s': State) {
    && s'.store.records == s.store.records && s'.store.imports == s.store.imports && s'.snapshot == s.snapshot
    && s'.touched == s.touched && s.late <= s'.late && DiskShrinks(s, s')
  }

  lemma DiskOnlyKeeps(s: State, s': State)
    requires Inv(s) && DiskOnly(s, s')
    requires forall r :: r in s'.removed && r !in s.removed ==> r.0 in s'.late || ImportedAs(s, r.0, r.1)
    ensures Inv(s')
  {
    assert forall k, f :: ImportedAs(s, k, f) <==> ImportedAs(s', k, f);
  }

  lemma CleanFileKeeps(s: State, recognized: Recognizer, ns: string, name: string)
    requires Inv(s) && ns in s.store.imports && Removable(s.store, recognized, ns, name)
    ensures Inv(StepOf(s, recognized, CleanFile(ns, name)))
  {
    var f := FilesOf(s.store.disk, ns)[name];
    assert Imports(name, f);
    DiskOnlyKeeps(s, StepOf(s, recognized, CleanFile(ns, name)));
  }

  lemma DiskStepKeeps(s: State, recognized: Recognizer, step: Step)
    requires Inv(s) && (step.LegacyWrite? || step.CleanDirectory?)
    ensures Inv(StepOf(s, recognized, step))
  {
    DiskOnlyKeeps(s, StepOf(s, recognized, step));
  }

  lemma {:induction false} StepKeeps(s: State, recognized: Recognizer, step: Step)
    requires Inv(s)
    ensures Inv(StepOf(s, recognized, step))
  {
    match step
    case ImportStep(ns) => if ns !in s.store.imports && Import(s.store, ns).Some? { ImportKeeps(s, recognized, ns); }
    case Put(_, _, _) => RecordStepKeeps(s, recognized, step);
    case Consume(_, _, _) => RecordStepKeeps(s, recognized, step);
    case Remove(_, _) => RecordStepKeeps(s, recognized, step);
    case Update(_, _, _) => RecordStepKeeps(s, recognized, step);
    case LegacyWrite(_, _, _) => DiskStepKeeps(s, recognized, step);
    case CleanFile(ns, name) =>
      if ns in s.store.imports && Removable(s.store, recognized, ns, name) { CleanFileKeeps(s, recognized, ns, name); }
    case CleanDirectory(_) => DiskStepKeeps(s, recognized, step);
  }

  lemma {:induction false} RunsKeepInv(s: State, recognized: Recognizer, steps: seq<Step>)
    requires Inv(s)
    ensures Inv(RunSteps(s, recognized, steps))
    decreases |steps|
  {
    if steps != [] {
      RunsKeepInv(s, recognized, steps[..|steps| - 1]);
      StepKeeps(RunSteps(s, recognized, steps[..|steps| - 1]), recognized, steps[|steps| - 1]);
    }
  }

  // Whatever an import read from a file is, after any run, in the table under the
  // file's name unless a record operation changed or deleted it since; and a removed
  // file was imported with exactly the text it had when it was removed, unless it
  // was written after the import.
  lemma CleanupLosesNothing(disk: map<string, Node>, recognized: Recognizer, steps: seq<Step>, k: Key, f: File)
    ensures var s := RunSteps(Fresh(disk), recognized, steps);
            && (k in s.snapshot ==> k in s.touched || (k in s.store.records && s.store.records[k] == s.snapshot[k]))
            && ((k, f) in s.removed && k !in s.late ==> ImportedAs(s, k, f))
  {
    RunsKeepInv(Fresh(disk), recognized, steps);
  }

  predicate Puts(step: Step, k: Key) {
    step.Put? && (step.ns, step.key) == k
  }

  // A record that is gone from an imported namespace stays gone until somebody puts
  // it again: no later import, by whichever process, brings it back.
  lemma {:induction false} ConsumedStaysConsumed(s: State, recognized: Recognizer, steps: seq<Step>, k: Key)
    requires k.0 in s.store.imports && k !in s.store.records
    requires forall i :: 0 <= i < |steps| ==> !Puts(steps[i], k)
    ensures var s' := RunSteps(s, recognized, steps);
            k.0 in s'.store.imports && k !in s'.store.records
    decreases |steps|
  {
    if steps != [] {
      ConsumedStaysConsumed(s, recognized, steps[..|steps| - 1], k);
      assert !Puts(steps[|steps| - 1], k);
      var before := RunSteps(s, recognized, steps[..|steps| - 1]);
      if steps[|steps| - 1].ImportStep? && Import(before.store, steps[|steps| - 1].ns).Some? {
        assert steps[|steps| - 1].ns in before.store.imports || k.0 != steps[|steps| - 1].ns;
      }
    }
  }

  predicate Survives(st: Store, ns: string, name: string, text: string) {
    || (name in FilesOf(st.disk, ns) && FilesOf(st.disk, ns)[name] == Regular(Some(text)))
    || ((ns, name) in st.records && st.records[(ns, name)] == text)
  }

  lemma TwoSteps(s: State, recognized: Recognizer, first: Step, second: Step)
    ensures RunSteps(s, recognized, [first, second]) == StepOf(StepOf(s, recognized, first), recognized, second)
  {
    var steps := [first, second];
    assert steps[..1] == [first] && [first][..0] == [];
    assert RunSteps(s, recognized, [first]) == StepOf(RunSteps(s, recognized, []), recognized, first);
  }

  // A file written into a namespace after its import is lost by the next cleanup
  // exactly when it is recognised and visible and its text is not the record's.
  lemma LateWriteSurvivesExactly(s: State, recognized: Recognizer, ns: string, name: string, text: string)
    requires ns in s.store.imports && (ns in s.store.disk ==> s.store.disk[ns].Directory?)
    ensures var steps := [LegacyWrite(ns, name, Regular(Some(text))), CleanFile(ns, name)];
            Survives(RunSteps(s, recognized, steps).store, ns, name, text) <==>
            !recognized(ns, name) || Hidden(name) || ((ns, name) in s.store.records && s.store.records[(ns, name)] == text)
  {
    TwoSteps(s, recognized, LegacyWrite(ns, name, Regular(Some(text))), CleanFile(ns, name));
  }

  // Unknown, hidden and irregular files are never removed.
  lemma {:induction false} OnlyRecognizedRemoved(disk: map<string, Node>, recognized: Recognizer, steps: seq<Step>, k: Key, f: File)
    requires (k, f) in RunSteps(Fresh(disk), recognized, steps).removed
    ensures recognized(k.0, k.1) && !Hidden(k.1) && f.Regular?
    decreases |steps|
  {
    if steps != [] {
      var before := RunSteps(Fresh(disk), recognized, steps[..|steps| - 1]);
      if (k, f) in before.removed {
        OnlyRecognizedRemoved(disk, recognized, steps[..|steps| - 1], k, f);
      }
    }
  }

  // The names that go

  ghost predicate EndsIn(name: string, extension: string) {
    exists stem :: stem != "" && name == stem + "." + extension
  }

  lemma {:induction false} ExtensionIs(stem: string, extension: string)
    requires stem != "" && '.' !in extension
    ensures Extension(stem + "." + extension) == Some(extension)
    decreases |extension|
  {
    var name := stem + "." + extension;
    if extension != "" {
      var n := |extension| - 1;
      ExtensionIs(stem, extension[..n]);
      assert name[..|name| - 1] == stem + "." + extension[..n];
      assert extension == extension[..n] + [extension[n]];
    }
  }

  lemma {:induction false} ExtensionCuts(name: string) returns (stem: string)
    requires Extension(name).Some?
    ensures stem != "" && name == stem + "." + Extension(name).value && '.' !in Extension(name).value
    decreases |name|
  {
    var n := |name| - 1;
    assert name == name[..n] + [name[n]];
    if name[n] == '.' {
      stem := name[..n];
    } else {
      stem := ExtensionCuts(name[..n]);
    }
  }

  lemma ExtensionExactly(name: string, extension: string)
    requires '.' !in extension
    ensures Extension(name) == Some(extension) <==> EndsIn(name, extension)
  {
    if Extension(name) == Some(extension) {
      var stem := ExtensionCuts(name);
    }
    if stem :| stem != "" && name == stem + "." + extension {
      ExtensionIs(stem, extension);
    }
  }

  lemma HexDigits(c: char)
    ensures HexDigit(c) <==> c in "0123456789abcdefABCDEF"
  {
    var digits := "0123456789abcdefABCDEF";
    if '0' <= c <= '9' { assert digits[c as int - '0' as int] == c; }
    if 'a' <= c <= 'f' { assert digits[10 + (c as int - 'a' as int)] == c; }
    if 'A' <= c <= 'F' { assert digits[16 + (c as int - 'A' as int)] == c; }
  }

  // What is recognised: markers among the resets, sixteen hexadecimal digits among the
  // download retries, JSON and refresh files among the conflicts, JSON files elsewhere.
  lemma RecognizedExactly(ns: string, name: string)
    ensures ns == "fp-reset" ==> (Recognized(ns, name) <==> EndsIn(name, "marker"))
    ensures ns == "fileprovider-download-retries" ==>
            (Recognized(ns, name) <==> |name| == 16 && forall i :: 0 <= i < 16 ==> name[i] in "0123456789abcdefABCDEF")
    ensures ns == "upload-conflicts" ==> (Recognized(ns, name) <==> EndsIn(name, "json") || EndsIn(name, "refresh"))
    ensures ns != "fp-reset" && ns != "fileprovider-download-retries" && ns != "upload-conflicts" ==>
            (Recognized(ns, name) <==> EndsIn(name, "json"))
  {
    ExtensionExactly(name, "marker");
    ExtensionExactly(name, "json");
    ExtensionExactly(name, "refresh");
    forall c: char ensures HexDigit(c) <==> c in "0123456789abcdefABCDEF" { HexDigits(c); }
  }

  // In every run of the real cleanup a removed file is a regular one whose name has the
  // ending its namespace calls for and does not begin with a dot; no other file goes.
  lemma {:induction false} OnlyLegacyNamesRemoved(disk: map<string, Node>, steps: seq<Step>, ns: string, name: string, f: File)
    requires ((ns, name), f) in RunSteps(Fresh(disk), Recognized, steps).removed
    ensures f.Regular? && (name == "" || name[0] != '.')
    ensures ns == "fp-reset" ==> EndsIn(name, "marker")
    ensures ns == "fileprovider-download-retries" ==> |name| == 16
    ensures ns == "upload-conflicts" ==> EndsIn(name, "json") || EndsIn(name, "refresh")
    ensures ns != "fp-reset" && ns != "fileprovider-download-retries" && ns != "upload-conflicts" ==> EndsIn(name, "json")
  {
    OnlyRecognizedRemoved(disk, Recognized, steps, (ns, name), f);
    RecognizedExactly(ns, name);
  }

  // The store itself

  ghost predicate CleanerStep(step: Step) {
    step.ImportStep? || step.CleanFile? || step.CleanDirectory?
  }

  ghost predicate CleanerOnly(steps: seq<Step>) {
    forall i :: 0 <= i < |steps| ==> CleanerStep(steps[i])
  }

  function Removals(steps: seq<Step>): nat {
    if steps == [] then 0 else Removals(steps[..|steps| - 1]) + if steps[|steps| - 1].CleanFile? then 1 else 0
  }

  lemma {:induction false} RunAppend(s: State, recognized: Recognizer, a: seq<Step>, b: seq<Step>)
    ensures RunSteps(s, recognized, a + b) == RunSteps(RunSteps(s, recognized, a), recognized, b)
    ensures Removals(a + b) == Removals(a) + Removals(b)
    decreases |b|
  {
    if b == [] {
      assert a + b == a;
    } else {
      var most, last := b[..|b| - 1], b[|b| - 1];
      RunAppend(s, recognized, a, most);
      assert (a + b)[..|a + b| - 1] == a + most && (a + b)[|a + b| - 1] == last;
    }
  }

  // steps are cleanup steps that lead from one state to the other and remove that many files.
  ghost predicate CleansTo(recognized: Recognizer, before: State, steps: seq<Step>, after: State, removed: nat) {
    after == RunSteps(before, recognized, steps) && CleanerOnly(steps) && removed == Removals(steps)
  }

  lemma CleansOn(
    recognized: Recognizer, first: State, steps: seq<Step>, mid: State, removed: nat, more: seq<Step>, last: State, count: nat)
    requires CleansTo(recognized, first, steps, mid, removed) && CleansTo(recognized, mid, more, last, count)
    ensures CleansTo(recognized, first, steps + more, last, removed + count)
  {
    RunAppend(first, recognized, steps, more);
  }

  lemma CleansOne(recognized: Recognizer, s: State, step: Step)
    requires CleanerStep(step)
    ensures CleansTo(recognized, s, [step], StepOf(s, recognized, step), if step.CleanFile? then 1 else 0)
  {
    assert [step][..0] == [];
  }

  predicate Goes(recognized: Recognizer, ns: string, name: string, f: File) {
    f.Regular? && recognized(ns, name) && !Hidden(name)
  }

  // What a cleanup pass leaves of a namespace's files.
  function Kept(recognized: Recognizer, files: map<string, File>, ns: string): map<string, File> {
    map n | n in files && !Goes(recognized, ns, n, files[n]) :: files[n]
  }

  // files are the entries without the recognised ones that were visited.
  ghost predicate Between(recognized: Recognizer, entries: map<string, File>, files: map<string, File>, left: set<string>, ns: string) {
    && left <= entries.Keys && |files| <= |entries|
    && (forall n :: n in files ==> n in entries && files[n] == entries[n])
    && (forall n :: n in entries ==> (n in files <==> n in left || !Goes(recognized, ns, n, entries[n])))
  }

  lemma PutTwice(disk: map<string, Node>, ns: string, a: Node, b: Node)
    ensures disk[ns := a][ns := b] == disk[ns := b]
  {
  }

  lemma BetweenEnds(recognized: Recognizer, entries: map<string, File>, files: map<string, File>, ns: string)
    requires Between(recognized, entries, files, {}, ns)
    ensures files == Kept(recognized, entries, ns)
  {
  }

  // The directories that cannot be listed and the files that cannot be removed.
  datatype Faults = Faults(list: string -> bool, remove: (string, string) -> bool)

  // The files that were to go and were visited could be removed.
  ghost predicate Worked(recognized: Recognizer, faults: Faults, entries: map<string, File>, left: set<string>, ns: string) {
    forall n :: n in entries && n !in left && Goes(recognized, ns, n, entries[n]) ==> !faults.remove(ns, n)
  }

  lemma BetweenStep(
    recognized: Recognizer, entries: map<string, File>, files: map<string, File>, left: set<string>, ns: string, n: string)
    requires Between(recognized, entries, files, left, ns) && n in left
    ensures n in files && files[n] == entries[n]
    ensures if Goes(recognized, ns, n, entries[n])
            then Between(recognized, entries, files - {n}, left - {n}, ns) && |files - {n}| == |files| - 1
            else Between(recognized, entries, files, left - {n}, ns)
  {
    assert (files - {n}).Keys == files.Keys - {n};
  }

  predicate RemovalsWork(recognized: Recognizer, faults: Faults, files: map<string, File>, ns: string) {
    forall n :: n in files && Goes(recognized, ns, n, files[n]) ==> !faults.remove(ns, n)
  }

  // The cleanup does not fail on the namespace.
  predicate CanClean(recognized: Recognizer, faults: Faults, disk: map<string, Node>, imports: set<string>, ns: string) {
    ns in disk && disk[ns].Directory? ==>
      && !faults.list(ns)
      && (ns in imports || (!disk[ns].odd && Readable(disk[ns].files)))
      && RemovalsWork(recognized, faults, disk[ns].files, ns)
  }

  ghost predicate SameAt(before: map<string, Node>, after: map<string, Node>, ns: string) {
    (ns in after <==> ns in before) && (ns in before ==> after[ns] == before[ns])
  }

  ghost predicate SameElsewhere(before: map<string, Node>, after: map<string, Node>, ns: string) {
    forall m :: m != ns ==> SameAt(before, after, m)
  }

  // A cleaned namespace was imported and has lost exactly its recognised files; it
  // is a directory still, or gone after all its files were removed.
  ghost predicate Cleaned(
    recognized: Recognizer, before: map<string, Node>, after: map<string, Node>, imports: set<string>, ns: string
  ) {
    if ns in before && before[ns].Directory? then
      && ns in imports && FilesOf(after, ns) == Kept(recognized, before[ns].files, ns)
      && (ns in after ==> after[ns] == Directory(Kept(recognized, before[ns].files, ns), before[ns].odd))
    else SameAt(before, after, ns)
  }

  ghost predicate LacksOnlyRecognized(recognized: Recognizer, entries: map<string, File>, files: map<string, File>, ns: string) {
    && (forall n :: n in files ==> n in entries && files[n] == entries[n])
    && (forall n :: n in entries && n !in files ==> Goes(recognized, ns, n, entries[n]))
  }

  // A namespace on which the cleanup stopped is the directory it was, and lacks none
  // but recognised files.
  ghost predicate Stopped(recognized: Recognizer, before: map<string, Node>, after: map<string, Node>, ns: string) {
    && ns in before && before[ns].Directory? && ns in after && after[ns].Directory? && after[ns].odd == before[ns].odd
    && LacksOnlyRecognized(recognized, before[ns].files, after[ns].files, ns)
  }

  // What the cleanup of one namespace does to the disk and the import markers.
  ghost predicate CleansOnly(
    recognized: Recognizer, before: map<string, Node>, importsBefore: set<string>,
    after: map<string, Node>, imports: set<string>, ns: string
  ) {
    && Cleaned(recognized, before, after, imports, ns) && SameElsewhere(before, after, ns)
    && (forall m :: m != ns ==> (m in imports <==> m in importsBefore))
    && importsBefore <= imports
  }

  // Where the cleanup is after the namespaces done.
  ghost predicate Progress(
    recognized: Recognizer, faults: Faults, first: map<string, Node>, importsFirst: set<string>,
    disk: map<string, Node>, imports: set<string>, done: seq<string>
  ) {
    && (forall ns :: ns in done ==> CanClean(recognized, faults, first, importsFirst, ns))
    && (forall ns :: ns in done ==> Cleaned(recognized, first, disk, imports, ns))
    && (forall m :: m !in done ==> SameAt(first, disk, m) && (m in imports <==> m in importsFirst))
  }

  lemma EntriesGone(
    recognized: Recognizer, before: map<string, Node>, mid: map<string, Node>, after: map<string, Node>, imports: set<string>, ns: string)
    requires ns in before && before[ns].Directory? && ns in imports
    requires mid == before[ns := Directory(Kept(recognized, before[ns].files, ns), before[ns].odd)]
    requires FilesOf(after, ns) == FilesOf(mid, ns) && (ns in after ==> after[ns] == mid[ns]) && SameElsewhere(mid, after, ns)
    ensures Cleaned(recognized, before, after, imports, ns) && SameElsewhere(before, after, ns)
  {
    forall m | m != ns ensures SameAt(before, after, m) {
      assert SameAt(mid, after, m);
    }
  }

  lemma EntriesStopped(recognized: Recognizer, before: map<string, Node>, files: map<string, File>, ns: string)
    requires ns in before && before[ns].Directory? && LacksOnlyRecognized(recognized, before[ns].files, files, ns)
    ensures var after := before[ns := Directory(files, before[ns].odd)];
            Stopped(recognized, before, after, ns) && SameElsewhere(before, after, ns)
  {}

  // Cleaning a namespace again changes nothing more.
  lemma CleanAgain(
    recognized: Recognizer, faults: Faults, first: map<string, Node>, importsFirst: set<string>,
    before: map<string, Node>, importsBefore: set<string>, ns: string)
    requires Cleaned(recognized, first, before, importsBefore, ns) && CanClean(recognized, faults, first, importsFirst, ns)
    ensures CanClean(recognized, faults, before, importsBefore, ns)
    ensures ns in first && first[ns].Directory? ==>
            Kept(recognized, Kept(recognized, first[ns].files, ns), ns) == Kept(recognized, first[ns].files, ns)
  {
  }

  lemma ProgressStep(
    recognized: Recognizer, faults: Faults, first: map<string, Node>, importsFirst: set<string>,
    before: map<string, Node>, importsBefore: set<string>, after: map<string, Node>, imports: set<string>, done: seq<string>, ns: string)
    requires Progress(recognized, faults, first, importsFirst, before, importsBefore, done)
    requires CanClean(recognized, faults, before, importsBefore, ns)
    requires CleansOnly(recognized, before, importsBefore, after, imports, ns)
    ensures Progress(recognized, faults, first, importsFirst, after, imports, done + [ns])
  {
    if ns in done {
      CleanAgain(recognized, faults, first, importsFirst, before, importsBefore, ns);
    } else {
      assert SameAt(first, before, ns);
    }
    forall m | m in done && m != ns ensures Cleaned(recognized, first, after, imports, m) {
      assert SameAt(before, after, m);
    }
    forall m | m !in done && m != ns ensures SameAt(first, after, m) && (m in imports <==> m in importsFirst) {
      assert SameAt(first, before, m) && SameAt(before, after, m);
    }
  }

  // A namespace not done yet can be cleaned iff it could be at first; one done can.
  lemma CanCleanStays(
    recognized: Recognizer, faults: Faults, first: map<string, Node>, importsFirst: set<string>,
    disk: map<string, Node>, imports: set<string>, done: seq<string>, ns: string)
    requires Progress(recognized, faults, first, importsFirst, disk, imports, done)
    ensures CanClean(recognized, faults, disk, imports, ns) <==> CanClean(recognized, faults, first, importsFirst, ns)
  {
    if ns in done {
      CleanAgain(recognized, faults, first, importsFirst, disk, imports, ns);
    } else {
      assert SameAt(first, disk, ns);
    }
  }

  predicate Visited(files: map<string, File>, left: set<string>, n: string) {
    n in files && n !in left && Imports(n, files[n])
  }

  // The records with the texts of the files visited, where there was no record yet.
  ghost predicate ReadSoFar(
    ns: string, files: map<string, File>, left: set<string>, records: map<Key, string>, table: map<Key, string>
  ) {
    && (forall k :: k in records ==> k in table && table[k] == records[k])
    && (forall k :: k in table && k !in records ==> k.0 == ns && Visited(files, left, k.1) && files[k.1].text == Some(table[k]))
    && (forall n :: Visited(files, left, n) ==> (ns, n) in table)
  }

  lemma ReadAll(ns: string, files: map<string, File>, records: map<Key, string>, table: map<Key, string>)
    requires ReadSoFar(ns, files, {}, records, table) && forall n :: Visited(files, {}, n) ==> files[n].text.Some?
    ensures Readable(files) && table == Keyed(ns, Texts(files)) + records
  {
    assert forall n :: n in files && Imports(n, files[n]) ==> Visited(files, {}, n);
    assert forall k :: k in table <==> k in Keyed(ns, Texts(files)) + records;
  }

  // When an update goes through: the import does, the record is there, and the
  // change accepts its payload.
  predicate Updates(st: Store, ns: string, key: string, change: string -> Option<string>) {
    var after := Import(st, ns);
    after.Some? && (ns, key) in after.value.records && change(after.value.records[(ns, key)]).Some?
  }

  class RecordStore {
    const recognized: Recognizer
    var disk: map<string, Node>
    var records: map<Key, string>
    var imports: set<string>
    ghost var trace: State

    ghost predicate Valid()
      reads this
    {
      trace.store == Store(disk, records, imports)
    }

    constructor (disk: map<string, Node>)
      ensures Valid() && trace == Fresh(disk) && recognized == Recognized
    {
      recognized := Recognized;
      this.disk, records, imports := disk, map[], {};
      trace := Fresh(disk);
    }

    method ImportRecords(ns: string) returns (ok: bool)
      requires Valid()
      modifies this
      ensures Valid() && disk == old(disk)
      ensures trace == StepOf(old(trace), recognized, ImportStep(ns))
      ensures ok <==> Import(old(trace).store, ns).Some?
      ensures ok ==> trace.store == Import(old(trace).store, ns).value
      ensures imports == if ok then old(imports) + {ns} else old(imports)
    {
      if ns in imports {
        return true;
      }
      var table;
      ok, table := ReadNamespace(ns);
      if ok {
        trace := StepOf(trace, recognized, ImportStep(ns));
        records, imports := table, imports + {ns};
      }
    }

    method ReadNamespace(ns: string) returns (ok: bool, table: map<Key, string>)
      ensures ok <==> Entries(disk, ns).Some?
      ensures ok ==> table == Keyed(ns, Entries(disk, ns).value) + records
    {
      if ns !in disk {
        assert Keyed(ns, map[]) + records == records;
        return true, records;
      }
      var node := disk[ns];
      if node.Plain? {
        return false, records;
      }
      if node.odd {
        return false, records;
      }
      ok, table := ReadEntries(ns, node.files, records);
    }

    // The entries come in whatever order the directory lists them.
    static method ReadEntries(ns: string, files: map<string, File>, records: map<Key, string>)
      returns (ok: bool, table: map<Key, string>)
      ensures ok <==> Readable(files)
      ensures ok ==> table == Keyed(ns, Texts(files)) + records
    {
      table := records;
      var left := files.Keys;
      while left != {}
        invariant left <= files.Keys
        invariant forall n :: Visited(files, left, n) ==> files[n].text.Some?
        invariant ReadSoFar(ns, files, left, records, table)
        decreases |left|
      {
        var n :| n in left;
        left := left - {n};
        if files[n].Regular? && !Hidden(n) {
          if files[n].text.None? {
            return false, records;
          }
          if (ns, n) !in table {
            table := table[(ns, n) := files[n].text.value];
          }
        }
      }
      ReadAll(ns, files, records, table);
      return true, table;
    }

    method PutRecord(ns: string, key: string, payload: string) returns (ok: bool)
      requires Valid()
      modifies this
      ensures Valid()
      ensures trace == StepOf(StepOf(old(trace), recognized, ImportStep(ns)), recognized, Put(ns, key, payload))
      ensures ok <==> Import(old(trace).store, ns).Some?
      ensures if ok then records == Import(old(trace).store, ns).value.records[(ns, key) := payload] else trace == old(trace)
    {
      ok := ImportRecords(ns);
      trace := StepOf(trace, recognized, Put(ns, key, payload));
      if ok {
        records := records[(ns, key) := payload];
      }
    }

    method ConsumeRecord(ns: string, key: string, payload: string) returns (consumed: bool)
      requires Valid()
      modifies this
      ensures Valid()
      ensures trace == StepOf(old(trace), recognized, Consume(ns, key, payload))
      ensures consumed <==> (ns, key) in old(records) && old(records)[(ns, key)] == payload
      ensures records == if consumed then old(records) - {(ns, key)} else old(records)
    {
      consumed := (ns, key) in records && records[(ns, key)] == payload;
      trace := StepOf(trace, recognized, Consume(ns, key, payload));
      if consumed {
        records := records - {(ns, key)};
      }
    }

    method RemoveRecord(ns: string, key: string) returns (ok: bool)
      requires Valid()
      modifies this
      ensures Valid()
      ensures trace == StepOf(StepOf(old(trace), recognized, ImportStep(ns)), recognized, Remove(ns, key))
      ensures ok <==> Import(old(trace).store, ns).Some?
      ensures if ok then records == Import(old(trace).store, ns).value.records - {(ns, key)} else trace == old(trace)
    {
      ok := ImportRecords(ns);
      trace := StepOf(trace, recognized, Remove(ns, key));
      if ok {
        records := records - {(ns, key)};
      }
    }

    method UpdateRecord(ns: string, key: string, change: string -> Option<string>) returns (payload: Option<string>)
      requires Valid()
      modifies this
      ensures Valid()
      ensures payload.Some? <==> Updates(old(trace).store, ns, key, change)
      ensures payload.Some? ==>
              payload == change(Import(old(trace).store, ns).value.records[(ns, key)]) &&
              trace == StepOf(StepOf(old(trace), recognized, ImportStep(ns)), recognized, Update(ns, key, change))
      ensures payload.Some? ==> records == Import(old(trace).store, ns).value.records[(ns, key) := payload.value]
      ensures payload.None? ==> trace == StepOf(old(trace), recognized, ImportStep(ns))
    {
      var ok := ImportRecords(ns);
      if !ok || (ns, key) !in records {
        return None;
      }
      payload := change(records[(ns, key)]);
      if payload.Some? {
        trace := StepOf(trace, recognized, Update(ns, key, change));
        records := records[(ns, key) := payload.value];
      }
    }

    // One namespace of the cleanup: list it, import, then remove what was recognised.
    method CleanNamespace(ns: string, faults: Faults) returns (ok: bool, removed: nat, ghost steps: seq<Step>)
      requires Valid()
      modifies this
      ensures Valid() && CleansTo(recognized, old(trace), steps, trace, removed)
      ensures ok <==> CanClean(recognized, faults, old(disk), old(imports), ns)
      ensures ok ==> CleansOnly(recognized, old(disk), old(imports), disk, imports, ns)
      ensures !ok ==> Stopped(recognized, old(disk), disk, ns) && SameElsewhere(old(disk), disk, ns)
      ensures !ok && RemovalsWork(recognized, faults, old(disk)[ns].files, ns) ==> disk == old(disk)
    {
      if ns !in disk || !disk[ns].Directory? {
        return true, 0, [];
      }
      if faults.list(ns) {
        return false, 0, [];
      }
      ok := ImportRecords(ns);
      CleansOne(recognized, old(trace), ImportStep(ns));
      if !ok {
        return false, 0, [ImportStep(ns)];
      }
      ghost var imported := trace;
      ghost var more;
      ok, removed, more := RemoveEntries(ns, faults);
      CleansOn(recognized, old(trace), [ImportStep(ns)], imported, 0, more, trace, removed);
      steps := [ImportStep(ns)] + more;
    }

    method RemoveEntries(ns: string, faults: Faults) returns (ok: bool, removed: nat, ghost steps: seq<Step>)
      requires Valid() && ns in imports && ns in disk && disk[ns].Directory?
      modifies this
      ensures Valid() && imports == old(imports)
      ensures CleansTo(recognized, old(trace), steps, trace, removed)
      ensures ok <==> RemovalsWork(recognized, faults, old(disk)[ns].files, ns)
      ensures if ok then Cleaned(recognized, old(disk), disk, imports, ns) else Stopped(recognized, old(disk), disk, ns)
      ensures SameElsewhere(old(disk), disk, ns)
    {
      var left;
      ok, removed, left, steps := RemoveRecognized(ns, disk[ns].files, disk[ns].odd, faults);
      if ok {
        ghost var cleaned, mid := trace, disk;
        RemoveDirectory(ns);
        EntriesGone(recognized, old(disk), mid, disk, imports, ns);
        CleansOn(recognized, old(trace), steps, cleaned, removed, [CleanDirectory(ns)], trace, 0);
        steps := steps + [CleanDirectory(ns)];
      } else {
        EntriesStopped(recognized, old(disk), left, ns);
      }
    }

    // Fails silently when entries are left.
    method RemoveDirectory(ns: string)
      requires Valid() && ns in disk && disk[ns].Directory?
      modifies this
      ensures Valid() && imports == old(imports)
      ensures FilesOf(disk, ns) == FilesOf(old(disk), ns) && (ns in disk ==> disk[ns] == old(disk)[ns])
      ensures ns in disk <==> old(disk)[ns].files != map[] || old(disk)[ns].odd
      ensures SameElsewhere(old(disk), disk, ns)
      ensures CleansTo(recognized, old(trace), [CleanDirectory(ns)], trace, 0)
    {
      trace := StepOf(trace, recognized, CleanDirectory(ns));
      CleansOne(recognized, old(trace), CleanDirectory(ns));
      if disk[ns].files == map[] && !disk[ns].odd {
        disk := disk - {ns};
      }
    }

    // One entry of the listing.
    method VisitEntry(ns: string, name: string, faults: Faults) returns (ok: bool, count: nat, ghost steps: seq<Step>)
      requires Valid() && ns in imports && ns in disk && disk[ns].Directory? && name in disk[ns].files
      modifies this
      ensures Valid() && imports == old(imports)
      ensures ok <==> !(Goes(recognized, ns, name, old(disk)[ns].files[name]) && faults.remove(ns, name))
      ensures count == if ok && Goes(recognized, ns, name, old(disk)[ns].files[name]) then 1 else 0
      ensures disk == if count == 0 then old(disk) else old(disk)[ns := Directory(old(disk)[ns].files - {name}, old(disk)[ns].odd)]
      ensures CleansTo(recognized, old(trace), steps, trace, count)
    {
      var f := disk[ns].files[name];
      if !f.Regular? || !recognized(ns, name) || Hidden(name) {
        return true, 0, [];
      }
      if faults.remove(ns, name) {
        return false, 0, [];
      }
      trace := StepOf(trace, recognized, CleanFile(ns, name));
      CleansOne(recognized, old(trace), CleanFile(ns, name));
      disk := disk[ns := Directory(disk[ns].files - {name}, disk[ns].odd)];
      return true, 1, [CleanFile(ns, name)];
    }

    method RemoveRecognized(ns: string, entries: map<string, File>, odd: bool, faults: Faults)
      returns (ok: bool, removed: nat, files: map<string, File>, ghost steps: seq<Step>)
      requires Valid() && ns in imports && ns in disk && disk[ns] == Directory(entries, odd)
      modifies this
      ensures Valid() && imports == old(imports) && disk == old(disk)[ns := Directory(files, odd)]
      ensures CleansTo(recognized, old(trace), steps, trace, removed)
      ensures ok <==> RemovalsWork(recognized, faults, entries, ns)
      ensures ok ==> files == Kept(recognized, entries, ns)
      ensures LacksOnlyRecognized(recognized, entries, files, ns)
      ensures removed == |entries| - |files|
    {
      removed, files, steps := 0, entries, [];
      var left := entries.Keys;
      while left != {}
        invariant Valid() && imports == old(imports) && disk == old(disk)[ns := Directory(files, odd)]
        invariant Between(recognized, entries, files, left, ns)
        invariant Worked(recognized, faults, entries, left, ns)
        invariant CleansTo(recognized, old(trace), steps, trace, removed)
        invariant removed == |entries| - |files|
        decreases |left|
      {
        var n :| n in left;
        BetweenStep(recognized, entries, files, left, ns, n);
        ghost var before, more := trace, [];
        var count;
        ok, count, more := VisitEntry(ns, n, faults);
        CleansOn(recognized, old(trace), steps, before, removed, more, trace, count);
        PutTwice(old(disk), ns, Directory(files, odd), Directory(files - {n}, odd));
        steps, removed := steps + more, removed + count;
        if !ok {
          return;
        }
        left := left - {n};
        files := if count == 0 then files else files - {n};
      }
      BetweenEnds(recognized, entries, files, ns);
      ok := true;
    }

    // Stops at the first namespace that cannot be listed, imported or emptied;
    // whatever was done by then is a run of cleanup steps, and so loses nothing.
    method MigrateAndCleanup(namespaces: seq<string>, faults: Faults) returns (ok: bool, removed: nat, ghost steps: seq<Step>)
      requires Valid()
      modifies this
      ensures Valid() && CleansTo(recognized, old(trace), steps, trace, removed)
      ensures ok <==> forall ns :: ns in namespaces ==> CanClean(recognized, faults, old(disk), old(imports), ns)
      ensures ok ==> Progress(recognized, faults, old(disk), old(imports), disk, imports, namespaces)
    {
      removed, steps := 0, [];
      for i := 0 to |namespaces|
        invariant Valid() && CleansTo(recognized, old(trace), steps, trace, removed)
        invariant Progress(recognized, faults, old(disk), old(imports), disk, imports, namespaces[..i])
      {
        ghost var before, beforeTrace := Store(disk, records, imports), trace;
        var ns := namespaces[i];
        CanCleanStays(recognized, faults, old(disk), old(imports), disk, imports, namespaces[..i], ns);
        var count;
        ghost var more;
        ok, count, more := CleanNamespace(ns, faults);
        CleansOn(recognized, old(trace), steps, beforeTrace, removed, more, trace, count);
        steps, removed := steps + more, removed + count;
        if !ok {
          return;
        }
        ProgressStep(recognized, faults, old(disk), old(imports), before.disk, before.imports, disk, imports, namespaces[..i], ns);
        assert namespaces[..i + 1] == namespaces[..i] + [ns];
      }
      assert namespaces[..|namespaces|] == namespaces;
      ok := true;
    }
  }
}
