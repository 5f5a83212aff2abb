// The single pass that shows each pinned folder once instead of all it pins.
module PinnedRoots {
  datatype Candidate = Candidate(path: seq<string>, isFolder: bool, name: string)

  // The path lies strictly below the folder, component by component.
  predicate Below(path: seq<string>, folder: seq<string>)
  {
    path != folder && folder <= path
  }

  // Strictly below: the folder's path with at least one element more, the root's included.
  lemma BelowExactly(path: seq<string>, folder: seq<string>)
    ensures Below(path, folder) <==> exists rest: seq<string> :: |rest| > 0 && path == folder + rest
  {
    if Below(path, folder) {
      assert path == folder + path[|folder|..];
    }
  }

  // No pinned folder candidate lies strictly above.
  predicate Kept(c: Candidate, all: seq<Candidate>)
  {
    forall f :: f in all && f.isFolder ==> !Below(c.path, f.path)
  }

  // Each candidate appears as often as it was listed if it is kept, else never.
  ghost predicate ExactlyKept(items: seq<Candidate>, from: seq<Candidate>, all: seq<Candidate>)
  {
    forall c :: multiset(items)[c] == if Kept(c, all) then multiset(from)[c] else 0
  }

  ghost predicate ByDepth(s: seq<Candidate>)
  {
    forall i, j :: 0 <= i < j < |s| ==> |s[i].path| <= |s[j].path|
  }

  // Whatever is covered at all is covered by a folder that is itself kept.
  lemma {:induction false} CoveredByKept(c: Candidate, f: Candidate, all: seq<Candidate>) returns (top: Candidate)
    requires f in all && f.isFolder && Below(c.path, f.path)
    ensures top in all && top.isFolder && Below(c.path, top.path) && Kept(top, all)
    decreases |f.path|
  {
    if Kept(f, all) {
      top := f;
    } else {
      var g :| g in all && g.isFolder && Below(f.path, g.path);
      assert |g.path| < |f.path| && g.path <= c.path;
      top := CoveredByKept(c, g, all);
    }
  }

  // The stable sort by number of components.
  function Insert(s: seq<Candidate>, c: Candidate): seq<Candidate>
  {
    if s == [] || |s[|s| - 1].path| <= |c.path| then s + [c] else Insert(s[..|s| - 1], c) + [s[|s| - 1]]
  }

  function SortByDepth(s: seq<Candidate>): seq<Candidate>
  {
    if s == [] then [] else Insert(SortByDepth(s[..|s| - 1]), s[|s| - 1])
  }

  lemma {:induction false} InsertKeepsAll(s: seq<Candidate>, c: Candidate)
    ensures multiset(Insert(s, c)) == multiset(s) + multiset([c])
    decreases |s|
  {
    if s != [] && |s[|s| - 1].path| > |c.path| {
      var n := |s| - 1;
      InsertKeepsAll(s[..n], c);
      assert s == s[..n] + [s[n]];
    }
  }

  ghost predicate NoDeeper(s: seq<Candidate>, depth: nat)
  {
    forall i :: 0 <= i < |s| ==> |s[i].path| <= depth
  }

  lemma {:induction false} InsertNoDeeper(s: seq<Candidate>, c: Candidate, depth: nat)
    requires NoDeeper(s, depth) && |c.path| <= depth
    ensures NoDeeper(Insert(s, c), depth)
    decreases |s|
  {
    if s != [] && |s[|s| - 1].path| > |c.path| {
      InsertNoDeeper(s[..|s| - 1], c, depth);
    }
  }

  lemma {:induction false} InsertSorts(s: seq<Candidate>, c: Candidate)
    requires ByDepth(s)
    ensures ByDepth(Insert(s, c))
    decreases |s|
  {
    if s != [] && |s[|s| - 1].path| > |c.path| {
      InsertSorts(s[..|s| - 1], c);
      InsertNoDeeper(s[..|s| - 1], c, |s[|s| - 1].path|);
    }
  }

  lemma {:induction false} SortSorts(s: seq<Candidate>)
    ensures ByDepth(SortByDepth(s)) && multiset(SortByDepth(s)) == multiset(s)
    decreases |s|
  {
    if s != [] {
      var n := |s| - 1;
      SortSorts(s[..n]);
      InsertSorts(SortByDepth(s[..n]), s[n]);
      InsertKeepsAll(SortByDepth(s[..n]), s[n]);
      assert s == s[..n] + [s[n]];
    }
  }

  function KeptOf(s: seq<Candidate>, all: seq<Candidate>): seq<Candidate>
  {
    if s == [] then []
    else if Kept(s[|s| - 1], all) then KeptOf(s[..|s| - 1], all) + [s[|s| - 1]]
    else KeptOf(s[..|s| - 1], all)
  }

  lemma {:induction false} KeptOfExact(s: seq<Candidate>, all: seq<Candidate>)
    ensures ExactlyKept(KeptOf(s, all), s, all)
    decreases |s|
  {
    if s != [] {
      var n := |s| - 1;
      KeptOfExact(s[..n], all);
      assert s == s[..n] + [s[n]];
    }
  }

  lemma SameMembers(a: seq<Candidate>, b: seq<Candidate>)
    requires multiset(a) == multiset(b)
    ensures forall c :: c in a <==> c in b
  {
    assert forall c :: c in a <==> c in multiset(a);
  }

  // The paths of the kept folders of a list.
  function FoldersOf(s: seq<Candidate>, all: seq<Candidate>): seq<seq<string>>
  {
    if s == [] then []
    else
      var n := |s| - 1;
      FoldersOf(s[..n], all) + if s[n].isFolder && Kept(s[n], all) then [s[n].path] else []
  }

  lemma {:induction false} FoldersOfHolds(s: seq<Candidate>, all: seq<Candidate>, path: seq<string>)
    ensures path in FoldersOf(s, all) <==> exists j :: 0 <= j < |s| && s[j].path == path && s[j].isFolder && Kept(s[j], all)
    decreases |s|
  {
    if s != [] {
      var n := |s| - 1;
      FoldersOfHolds(s[..n], all, path);
      assert forall j :: 0 <= j < n ==> s[..n][j] == s[j];
    }
  }

  predicate CoveredBy(path: seq<string>, folders: seq<seq<string>>)
  {
    exists k :: 0 <= k < |folders| && Below(path, folders[k])
  }

  lemma {:induction false} CoveredIsSkipped(sorted: seq<Candidate>, i: nat, all: seq<Candidate>, k: nat)
    requires i < |sorted| && forall c :: c in sorted <==> c in all
    requires k < |FoldersOf(sorted[..i], all)| && Below(sorted[i].path, FoldersOf(sorted[..i], all)[k])
    ensures !Kept(sorted[i], all)
  {
    var folder := FoldersOf(sorted[..i], all)[k];
    FoldersOfHolds(sorted[..i], all, folder);
    var j :| 0 <= j < i && sorted[..i][j].path == folder && sorted[..i][j].isFolder;
    assert sorted[j] in all;
  }

  lemma {:induction false} SkippedIsCovered(sorted: seq<Candidate>, i: nat, all: seq<Candidate>, f: Candidate)
    requires i < |sorted| && ByDepth(sorted) && forall c :: c in sorted <==> c in all
    requires f in all && f.isFolder && Below(sorted[i].path, f.path)
    ensures CoveredBy(sorted[i].path, FoldersOf(sorted[..i], all))
  {
    var top := CoveredByKept(sorted[i], f, all);
    assert top in sorted;
    var j :| 0 <= j < |sorted| && sorted[j] == top;
    assert |top.path| < |sorted[i].path|;
    assert sorted[..i][j] == top;
    FoldersOfHolds(sorted[..i], all, top.path);
  }

  // Comparing only with folders already kept decides the same as comparing with all.
  lemma {:induction false} SkipIffCovered(sorted: seq<Candidate>, i: nat, all: seq<Candidate>)
    requires i < |sorted| && ByDepth(sorted) && forall c :: c in sorted <==> c in all
    ensures CoveredBy(sorted[i].path, FoldersOf(sorted[..i], all)) <==> !Kept(sorted[i], all)
  {
    if k: nat :| k < |FoldersOf(sorted[..i], all)| && Below(sorted[i].path, FoldersOf(sorted[..i], all)[k]) {
      CoveredIsSkipped(sorted, i, all, k);
    }
    if f :| f in all && f.isFolder && Below(sorted[i].path, f.path) {
      SkippedIsCovered(sorted, i, all, f);
    }
  }

  // What one more candidate adds to the two lists.
  lemma {:induction false} OneMore(sorted: seq<Candidate>, i: nat, all: seq<Candidate>)
    requires i < |sorted|
    ensures KeptOf(sorted[..i + 1], all) == KeptOf(sorted[..i], all) + if Kept(sorted[i], all) then [sorted[i]] else []
    ensures FoldersOf(sorted[..i + 1], all)
         == FoldersOf(sorted[..i], all) + if sorted[i].isFolder && Kept(sorted[i], all) then [sorted[i].path] else []
  {
    assert sorted[..i + 1][..i] == sorted[..i];
  }

  // What is kept of a list by depth is by depth.
  lemma {:induction false} KeptByDepth(s: seq<Candidate>, all: seq<Candidate>)
    requires ByDepth(s)
    ensures ByDepth(KeptOf(s, all))
    ensures s != [] ==> NoDeeper(KeptOf(s, all), |s[|s| - 1].path|)
    decreases |s|
  {
    if s != [] {
      KeptByDepth(s[..|s| - 1], all);
    }
  }

  lemma SameCounts(a: seq<Candidate>, all: seq<Candidate>, items: seq<Candidate>)
    requires multiset(a) == multiset(all) && ExactlyKept(items, a, all)
    ensures ExactlyKept(items, all, all)
  {
  }

  method PinnedItems(candidates: seq<Candidate>) returns (items: seq<Candidate>)
    ensures ExactlyKept(items, candidates, candidates)
    ensures ByDepth(items)
  {
    var sorted := SortByDepth(candidates);
    SortSorts(candidates);
    SameMembers(sorted, candidates);
    var pinnedFolders: seq<seq<string>> := [];
    items := [];
    for i := 0 to |sorted|
      invariant items == KeptOf(sorted[..i], candidates)
      invariant pinnedFolders == FoldersOf(sorted[..i], candidates)
    {
      var c := sorted[i];
      SkipIffCovered(sorted, i, candidates);
      OneMore(sorted, i, candidates);
      if CoveredBy(c.path, pinnedFolders) {
        continue;
      }
      if c.isFolder {
        pinnedFolders := pinnedFolders + [c.path];
      }
      items := items + [c];
    }
    assert sorted[..|sorted|] == sorted;
    KeptByDepth(sorted, candidates);
    KeptOfExact(sorted, candidates);
    SameCounts(sorted, candidates, items);
  }
}
