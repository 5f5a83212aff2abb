// Resolving share shortcuts: the extension's resolver over URI strings and the
// app's resolver over path elements.
module Shortcuts {
  import opened Redirects

  // What looking up one address yields; a lookup may also throw.
  datatype Answer<T> = Nothing | Target(target: T) | Throws

  // URI strings

  function FindScheme(uri: string): (i: int)
    ensures i == -1 || 0 <= i <= |uri| - 3
  {
    if |uri| < 3 then -1
    else if uri[..3] == "://" then 0
    else
      var i := FindScheme(uri[1..]);
      if i < 0 then -1 else i + 1
  }

  // The last slash at or after `from`.
  function LastSlash(s: string, from: nat): (i: int)
    requires from <= |s|
    ensures i == -1 || (from <= i < |s| && s[i] == '/')
    decreases |s|
  {
    if |s| == from then -1
    else if s[|s| - 1] == '/' then |s| - 1
    else LastSlash(s[..|s| - 1], from)
  }

  function Parent(uri: string): (p: string)
    ensures p <= uri
    ensures p != uri ==> |p| < |uri| && uri[|p|] == '/'
  {
    var scheme := FindScheme(uri);
    if scheme < 0 then uri
    else
      var slash := LastSlash(uri, scheme + 3);
      if slash < 0 then uri else uri[..slash]
  }

  ghost predicate SchemeAt(uri: string, i: int)
  {
    0 <= i <= |uri| - 3 && uri[i..i + 3] == "://"
  }

  ghost predicate FirstScheme(uri: string, i: int)
  {
    SchemeAt(uri, i) && forall j :: 0 <= j < i ==> !SchemeAt(uri, j)
  }

  lemma {:induction false} FindSchemeIsFirst(uri: string)
    ensures FindScheme(uri) >= 0 ==> FirstScheme(uri, FindScheme(uri))
    ensures FindScheme(uri) < 0 ==> forall j :: !SchemeAt(uri, j)
    decreases |uri|
  {
    if |uri| >= 3 && uri[..3] != "://" {
      var rest := uri[1..];
      FindSchemeIsFirst(rest);
      forall j | 1 <= j ensures SchemeAt(uri, j) <==> SchemeAt(rest, j - 1) {
        if j <= |uri| - 3 {
          assert uri[j..j + 3] == rest[j - 1..j + 2];
        }
      }
      assert !SchemeAt(uri, 0);
    }
  }

  // The last slash behind the scheme's.
  ghost predicate CutAt(uri: string, k: int)
  {
    && (exists i :: FirstScheme(uri, i) && i + 3 <= k)
    && k < |uri| && uri[k] == '/' && forall j :: k < j < |uri| ==> uri[j] != '/'
  }

  lemma {:induction false} LastSlashIsLast(s: string, from: nat)
    requires from <= |s|
    ensures var k := LastSlash(s, from); forall j :: from <= j < |s| && j > k ==> s[j] != '/'
    decreases |s|
  {
    if |s| > from && s[|s| - 1] != '/' {
      LastSlashIsLast(s[..|s| - 1], from);
      var k := LastSlash(s, from);
      forall j | from <= j < |s| && j > k ensures s[j] != '/' {
        if j < |s| - 1 {
          assert s[..|s| - 1][j] == s[j];
        }
      }
    }
  }

  // A parent is the address up to the last slash behind its first "://"; an address
  // without one is its own parent.
  lemma ParentExactly(uri: string)
    ensures forall k :: CutAt(uri, k) ==> Parent(uri) == uri[..k]
    ensures Parent(uri) == uri || exists k :: CutAt(uri, k)
  {
    FindSchemeIsFirst(uri);
    var scheme := FindScheme(uri);
    if scheme >= 0 {
      LastSlashIsLast(uri, scheme + 3);
      var slash := LastSlash(uri, scheme + 3);
      if slash >= 0 {
        assert CutAt(uri, slash);
      }
    }
  }

  function DropSlash(s: string): string
  {
    if s != [] && s[|s| - 1] == '/' then s[..|s| - 1] else s
  }

  // All the resolver needs of `parent`: it cuts an address at a slash or leaves it alone.
  type Parents = string -> string

  ghost predicate CutsAtSlash(parent: Parents)
  {
    forall p {:trigger parent(p)} :: parent(p) == p || (|parent(p)| < |p| && parent(p) <= p && p[|parent(p)|] == '/')
  }

  lemma ParentCutsAtSlash()
    ensures CutsAtSlash(Parent)
  {}

  lemma SameScheme(p: string, i: int, j: int)
    requires FirstScheme(p, i) && FirstScheme(p, j)
    ensures i == j
  {}

  lemma SchemeOfPrefix(p: string, i: int, k: int)
    requires FirstScheme(p, i) && CutAt(p, k)
    ensures i + 3 <= k && FirstScheme(p[..k], i)
  {
    var first :| FirstScheme(p, first) && first + 3 <= k;
    SameScheme(p, i, first);
    forall j | 0 <= j <= i ensures SchemeAt(p[..k], j) <==> SchemeAt(p, j) {
      assert p[..k][j..j + 3] == p[j..j + 3];
    }
  }

  // The ancestors of an address below its root, longest first.
  function Prefixes(parent: Parents, p: string): (ps: seq<string>)
    decreases |p|
  {
    if |parent(p)| < |p| then [p] + Prefixes(parent, parent(p)) else []
  }

  // q is the address or ends before one of its slashes, with a slash behind the scheme's left.
  ghost predicate BelowRoot(p: string, scheme: nat, q: string)
  {
    q <= p && (q == p || p[|q|] == '/') && exists k :: scheme + 3 <= k < |q| && q[k] == '/'
  }

  lemma PrefixOfUncut(p: string, i: int, q: string)
    requires FirstScheme(p, i) && Parent(p) == p
    ensures Prefixes(Parent, p) == [] && !BelowRoot(p, i, q)
  {
    ParentExactly(p);
    if BelowRoot(p, i, q) {
      FindSchemeIsFirst(p);
      SameScheme(p, i, FindScheme(p));
      LastSlashIsLast(p, i + 3);
    }
  }

  lemma BelowRootSplits(p: string, i: nat, k: int, q: string)
    requires CutAt(p, k) && i + 3 <= k
    ensures BelowRoot(p, i, q) <==> q == p || BelowRoot(p[..k], i, q)
  {
    if BelowRoot(p, i, q) && q != p {
      assert |q| <= k;
    }
  }

  lemma {:induction false} PrefixesShrink(parent: Parents, p: string, i: int, j: int)
    requires 0 <= i < j < |Prefixes(parent, p)|
    ensures |Prefixes(parent, p)[j]| < |Prefixes(parent, p)[i]| <= |p|
    decreases |p|
  {
    var above := parent(p);
    if i > 0 {
      PrefixesShrink(parent, above, i - 1, j - 1);
    } else if j > 1 {
      PrefixesShrink(parent, above, 0, j - 1);
    }
  }

  // The candidates of an address are exactly those, and none without a scheme.
  lemma {:induction false} PrefixesExactly(p: string, q: string)
    ensures forall i: nat :: FirstScheme(p, i) ==> (q in Prefixes(Parent, p) <==> BelowRoot(p, i, q))
    ensures (forall i :: !SchemeAt(p, i)) ==> Prefixes(Parent, p) == []
    decreases |p|
  {
    ParentExactly(p);
    forall i: nat | FirstScheme(p, i) ensures q in Prefixes(Parent, p) <==> BelowRoot(p, i, q) {
      if Parent(p) == p {
        PrefixOfUncut(p, i, q);
      } else {
        var k :| CutAt(p, k);
        assert Prefixes(Parent, p) == [p] + Prefixes(Parent, p[..k]);
        SchemeOfPrefix(p, i, k);
        PrefixesExactly(p[..k], q);
        BelowRootSplits(p, i, k, q);
      }
    }
  }

  function DropFirst(s: string, n: nat): string
  {
    if n <= |s| then s[n..] else []
  }

  type Lookup = string -> Answer<string>

  predicate Redirecting(a: Answer<string>)
  {
    a.Throws? || (a.Target? && a.target != [])
  }

  // What a candidate that answers does to the address.
  function Follow(current: string, candidate: string, a: Answer<string>): Rewritten<string>
    requires Redirecting(a)
  {
    match a
    case Throws => Bad("lookup")
    case Target(target) =>
      if "cloudreve://" <= target then To(DropSlash(target) + DropFirst(current, |candidate|)) else Bad("Invalid shared shortcut target")
  }

  // The address becomes the target, without one slash at its end, and all that
  // followed the candidate; a target of another scheme is refused.
  lemma FollowExactly(q: string, rest: string, core: string, target: string)
    requires target == core + "/" || (|core| > 0 && target == core && core[|core| - 1] != '/')
    ensures "cloudreve://" <= target ==> Follow(q + rest, q, Target(target)) == To(core + rest)
    ensures !("cloudreve://" <= target) ==> Follow(q + rest, q, Target(target)).Bad?
  {
    assert DropFirst(q + rest, |q|) == rest;
    assert DropSlash(target) == core;
  }

  // Candidates are tried from the end of the list, the shortest first.
  function ApplyShortest(current: string, prefixes: seq<string>, lookup: Lookup): Rewritten<string>
  {
    if prefixes == [] then Fixed
    else
      var n := |prefixes| - 1;
      if Redirecting(lookup(prefixes[n])) then Follow(current, prefixes[n], lookup(prefixes[n]))
      else ApplyShortest(current, prefixes[..n], lookup)
  }

  function Inspected(parent: Parents, current: string, followLeaf: bool): seq<string>
  {
    Prefixes(parent, if followLeaf then current else parent(current))
  }

  function Rewriting(parent: Parents, followLeaf: bool, lookup: Lookup): Rewrite<string>
  {
    current => ApplyShortest(current, Inspected(parent, current, followLeaf), lookup)
  }

  function Resolve(parent: Parents, uri: string, followLeaf: bool, lookup: Lookup, limit: nat): Outcome<string>
  {
    ResolveFrom(Rewriting(parent, followLeaf, lookup), uri, {}, limit)
  }

  // Following the leaf inspects every one of them, not following it all but the address itself.
  lemma {:induction false} InspectedExactly(current: string, i: nat, q: string)
    requires FirstScheme(current, i)
    ensures q in Inspected(Parent, current, true) <==> BelowRoot(current, i, q)
    ensures q in Inspected(Parent, current, false) <==> BelowRoot(current, i, q) && q != current
  {
    PrefixesExactly(current, q);
    ParentExactly(current);
    if Parent(current) == current {
      PrefixOfUncut(current, i, q);
    } else {
      var k :| CutAt(current, k);
      SchemeOfPrefix(current, i, k);
      PrefixesExactly(current[..k], q);
      BelowRootSplits(current, i, k, q);
    }
  }

  // Candidate i answers and no shorter one does.
  ghost predicate Shortest(prefixes: seq<string>, lookup: Lookup, i: int)
  {
    && 0 <= i < |prefixes| && Redirecting(lookup(prefixes[i]))
    && forall j :: i < j < |prefixes| ==> !Redirecting(lookup(prefixes[j]))
  }

  lemma {:induction false} RewrittenMeans(current: string, prefixes: seq<string>, lookup: Lookup) returns (i: int)
    ensures ApplyShortest(current, prefixes, lookup).Fixed? <==> forall q :: q in prefixes ==> !Redirecting(lookup(q))
    ensures !ApplyShortest(current, prefixes, lookup).Fixed? ==>
      Shortest(prefixes, lookup, i) && ApplyShortest(current, prefixes, lookup) == Follow(current, prefixes[i], lookup(prefixes[i]))
    decreases |prefixes|
  {
    i := 0;
    if prefixes != [] {
      var n := |prefixes| - 1;
      assert prefixes == prefixes[..n] + [prefixes[n]];
      if Redirecting(lookup(prefixes[n])) {
        i := n;
      } else {
        i := RewrittenMeans(current, prefixes[..n], lookup);
      }
    }
  }

  ghost predicate Shrinking(ps: seq<string>)
  {
    forall i, j :: 0 <= i < j < |ps| ==> |ps[j]| < |ps[i]|
  }

  lemma ShortestIsLast(current: string, ps: seq<string>, lookup: Lookup, q: string)
    requires Shrinking(ps) && q in ps && Redirecting(lookup(q))
    requires forall p :: p in ps && |p| < |q| ==> !Redirecting(lookup(p))
    ensures ApplyShortest(current, ps, lookup) == Follow(current, q, lookup(q))
  {
    var i := RewrittenMeans(current, ps, lookup);
    assert !ApplyShortest(current, ps, lookup).Fixed?;
    assert ps[i] in ps;
  }

  // The shortest inspected address that answers is the one followed.
  lemma {:induction false} ShortestIsFollowed(parent: Parents, current: string, followLeaf: bool, lookup: Lookup, q: string)
    requires q in Inspected(parent, current, followLeaf) && Redirecting(lookup(q))
    requires forall p :: p in Inspected(parent, current, followLeaf) && |p| < |q| ==> !Redirecting(lookup(p))
    ensures Rewriting(parent, followLeaf, lookup)(current) == Follow(current, q, lookup(q))
  {
    var start := if followLeaf then current else parent(current);
    var ps := Inspected(parent, current, followLeaf);
    assert Shrinking(ps) by {
      forall i, j | 0 <= i < j < |ps| ensures |ps[j]| < |ps[i]| {
        PrefixesShrink(parent, start, i, j);
      }
    }
    ShortestIsLast(current, ps, lookup, q);
  }

  ghost predicate Settled(parent: Parents, v: string, followLeaf: bool, lookup: Lookup)
  {
    forall q :: q in Inspected(parent, v, followLeaf) ==> !Redirecting(lookup(q))
  }

  lemma {:induction false} FixedIsSettled(parent: Parents, v: string, followLeaf: bool, lookup: Lookup)
    ensures Rewriting(parent, followLeaf, lookup)(v).Fixed? <==> Settled(parent, v, followLeaf, lookup)
  {
    var _ := RewrittenMeans(v, Inspected(parent, v, followLeaf), lookup);
  }

  // A resolved address: fewer than `limit` rewrites of the shortest redirecting
  // prefix lead to it, and none of its own inspected prefixes redirects.
  lemma {:induction false} ResolvedIsSettled(parent: Parents, uri: string, followLeaf: bool, lookup: Lookup, v: string, limit: nat)
    ensures Resolve(parent, uri, followLeaf, lookup, limit) == Resolved(v)
       <==> Arrives(Rewriting(parent, followLeaf, lookup), uri, v, limit) && Settled(parent, v, followLeaf, lookup)
  {
    FixedIsSettled(parent, v, followLeaf, lookup);
    ResolvesToSettled(Rewriting(parent, followLeaf, lookup), uri, v, limit, Settled(parent, v, followLeaf, lookup));
  }

  lemma {:induction false} CircularOnlyWhenEndless(parent: Parents, uri: string, followLeaf: bool, lookup: Lookup, limit: nat)
    ensures Resolve(parent, uri, followLeaf, lookup, limit).Circular? ==> NeverEnds(Rewriting(parent, followLeaf, lookup), uri)
  {
    if Resolve(parent, uri, followLeaf, lookup, limit).Circular? {
      CircularNeverEnds(Rewriting(parent, followLeaf, lookup), uri, limit);
    }
  }

  // The text after the last slash.
  function LastComponent(s: string): string
  {
    s[LastSlash(s, 0) + 1..]
  }

  lemma {:induction false} LastSlashOfSuffix(a: string, b: string)
    requires '/' in b
    ensures LastSlash(a + b, 0) == |a| + LastSlash(b, 0)
    decreases |b|
  {
    var n := |b| - 1;
    assert a + b == (a + b[..n]) + [b[n]];
    if b[n] != '/' {
      assert b == b[..n] + [b[n]];
      LastSlashOfSuffix(a, b[..n]);
    }
  }

  lemma LastComponentOfSuffix(a: string, b: string)
    requires '/' in b
    ensures LastComponent(a + b) == LastComponent(b)
  {
    LastSlashOfSuffix(a, b);
    var j := LastSlash(b, 0);
    assert (a + b)[|a| + j + 1..] == b[j + 1..];
  }

  lemma {:induction false} PrefixesStopBeforeSlash(parent: Parents, p: string, q: string)
    requires CutsAtSlash(parent) && q in Prefixes(parent, p)
    ensures q <= p && (q == p || p[|q|] == '/')
    decreases |p|
  {
    if q != p {
      PrefixesStopBeforeSlash(parent, parent(p), q);
      if q != parent(p) {
        assert p[|q|] == parent(p)[|q|];
      }
    }
  }

  lemma FollowKeepsLeaf(current: string, q: string, a: Answer<string>)
    requires |q| < |current| && q <= current && current[|q|] == '/'
    requires Redirecting(a) && Follow(current, q, a).To?
    ensures LastComponent(Follow(current, q, a).next) == LastComponent(current)
  {
    var suffix := current[|q|..];
    assert suffix[0] == '/' && current == q + suffix;
    LastComponentOfSuffix(q, suffix);
    LastComponentOfSuffix(DropSlash(a.target), suffix);
  }

  ghost predicate StopsAtSlash(current: string, q: string)
  {
    |q| < |current| && q <= current && current[|q|] == '/'
  }

  lemma ApplyKeepsLeaf(current: string, ps: seq<string>, lookup: Lookup)
    requires ApplyShortest(current, ps, lookup).To? && forall q :: q in ps ==> StopsAtSlash(current, q)
    ensures LastComponent(ApplyShortest(current, ps, lookup).next) == LastComponent(current)
  {
    var i := RewrittenMeans(current, ps, lookup);
    assert ps[i] in ps;
    FollowKeepsLeaf(current, ps[i], lookup(ps[i]));
  }

  lemma InspectedStopAtSlash(parent: Parents, current: string)
    requires CutsAtSlash(parent)
    ensures forall q :: q in Inspected(parent, current, false) ==> StopsAtSlash(current, q)
  {
    forall q | q in Inspected(parent, current, false) ensures StopsAtSlash(current, q) {
      PrefixesStopBeforeSlash(parent, parent(current), q);
    }
  }

  // Without leaf following a rewrite keeps the last path component.
  lemma RewriteKeepsLeaf(parent: Parents, current: string, lookup: Lookup, ps: seq<string>)
    requires CutsAtSlash(parent) && ps == Inspected(parent, current, false) && ApplyShortest(current, ps, lookup).To?
    ensures LastComponent(ApplyShortest(current, ps, lookup).next) == LastComponent(current)
  {
    InspectedStopAtSlash(parent, current);
    ApplyKeepsLeaf(current, ps, lookup);
  }

  lemma {:induction false} ResolvedKeepsLeaf(parent: Parents, uri: string, lookup: Lookup, limit: nat)
    requires CutsAtSlash(parent)
    ensures var r := Resolve(parent, uri, false, lookup, limit);
            r.Resolved? ==> LastComponent(r.uri) == LastComponent(uri)
  {
    var r := Resolve(parent, uri, false, lookup, limit);
    if r.Resolved? {
      var n, v := OutcomeIsEnd(Rewriting(parent, false, lookup), uri, {}, limit);
      forall w | Rewriting(parent, false, lookup)(w).To?
        ensures LastComponent(Rewriting(parent, false, lookup)(w).next) == LastComponent(w)
      {
        RewriteKeepsLeaf(parent, w, lookup, Inspected(parent, w, false));
      }
      KeyKept(Rewriting(parent, false, lookup), LastComponent, uri, n, r.uri);
    }
  }

  method CollectPrefixes(parent: Parents, start: string) returns (prefixes: seq<string>)
    requires CutsAtSlash(parent)
    ensures prefixes == Prefixes(parent, start)
  {
    var prefix := start;
    prefixes := [];
    while parent(prefix) != prefix
      invariant prefixes + Prefixes(parent, prefix) == Prefixes(parent, start)
      decreases |prefix|
    {
      assert prefixes + Prefixes(parent, prefix) == (prefixes + [prefix]) + Prefixes(parent, parent(prefix));
      prefixes := prefixes + [prefix];
      prefix := parent(prefix);
    }
  }

  method TryShortestFirst(current: string, prefixes: seq<string>, lookup: Lookup) returns (step: Rewritten<string>)
    ensures step == ApplyShortest(current, prefixes, lookup)
  {
    var i := |prefixes|;
    assert prefixes[..i] == prefixes;
    while i > 0
      invariant 0 <= i <= |prefixes|
      invariant ApplyShortest(current, prefixes, lookup) == ApplyShortest(current, prefixes[..i], lookup)
    {
      i := i - 1;
      assert prefixes[..i + 1][..i] == prefixes[..i];
      var candidate := prefixes[i];
      var answer := lookup(candidate);
      if answer.Throws? {
        return Bad("lookup");
      }
      if answer.Target? && answer.target != [] {
        if !("cloudreve://" <= answer.target) {
          return Bad("Invalid shared shortcut target");
        }
        return To(DropSlash(answer.target) + DropFirst(current, |candidate|));
      }
    }
    return Fixed;
  }

  // One turn of the outer loop: collect the prefixes, then try the shortest first.
  method RewriteOnce(parent: Parents, current: string, followLeaf: bool, lookup: Lookup) returns (step: Rewritten<string>)
    requires CutsAtSlash(parent)
    ensures step == ApplyShortest(current, Inspected(parent, current, followLeaf), lookup)
  {
    var prefixes := CollectPrefixes(parent, if followLeaf then current else parent(current));
    step := TryShortestFirst(current, prefixes, lookup);
  }

  method ResolveLoop(parent: Parents, uri: string, followLeaf: bool, lookup: Lookup, limit: nat, ghost rewrite: Rewrite<string>) returns (r: Outcome<string>)
    requires CutsAtSlash(parent)
    requires forall c {:trigger Inspected(parent, c, followLeaf)} :: rewrite(c) == ApplyShortest(c, Inspected(parent, c, followLeaf), lookup)
    ensures r == ResolveFrom(rewrite, uri, {}, limit)
  {
    var current := uri;
    var visited: set<string> := {};
    for attempt := 0 to limit
      invariant ResolveFrom(rewrite, uri, {}, limit) == ResolveFrom(rewrite, current, visited, limit - attempt)
    {
      if current in visited {
        return Circular;
      }
      visited := visited + {current};
      var step := RewriteOnce(parent, current, followLeaf, lookup);
      assert step == rewrite(current);
      match step
      case Bad(reason) => return Failed(reason);
      case Fixed => return Resolved(current);
      case To(next) => current := next;
    }
    return TooMany;
  }

  method ResolveUri(parent: Parents, uri: string, followLeaf: bool, lookup: Lookup, limit: nat := 32) returns (r: Outcome<string>)
    requires CutsAtSlash(parent)
    ensures r == Resolve(parent, uri, followLeaf, lookup, limit)
  {
    r := ResolveLoop(parent, uri, followLeaf, lookup, limit, Rewriting(parent, followLeaf, lookup));
  }

  // Path elements, as the app resolves them

  datatype CrUri = CrUri(root: string, elements: seq<string>, search: bool)

  // Targets come parsed; Throws stands for a failed lookup or a target that does not parse.
  type ElementLookup = CrUri -> Answer<CrUri>

  function PrefixUri(u: CrUri, k: nat): CrUri
    requires k <= |u.elements|
  {
    CrUri(u.root, u.elements[..k], u.search)
  }

  // The shortest redirecting prefix longer than k elements.
  function RewrittenFrom(u: CrUri, k: nat, lookup: ElementLookup): Rewritten<CrUri>
    requires k <= |u.elements|
    decreases |u.elements| - k
  {
    if k == |u.elements| then Fixed
    else
      match lookup(PrefixUri(u, k + 1))
      case Throws => Bad("lookup")
      case Nothing => RewrittenFrom(u, k + 1, lookup)
      case Target(t) =>
        if t.search then Bad("Invalid shared shortcut target") else To(t.(elements := t.elements + u.elements[k + 1..]))
  }

  function ElementRewriting(lookup: ElementLookup): Rewrite<CrUri>
  {
    u => RewrittenFrom(u, 0, lookup)
  }

  lemma {:induction false} RewrittenFromMeans(u: CrUri, k: nat, lookup: ElementLookup)
    requires k <= |u.elements|
    ensures RewrittenFrom(u, k, lookup).Fixed? <==> forall i :: k < i <= |u.elements| ==> lookup(PrefixUri(u, i)).Nothing?
    decreases |u.elements| - k
  {
    if k < |u.elements| {
      RewrittenFromMeans(u, k + 1, lookup);
    }
  }

  // The shortest prefix that answers is replaced by its target, and every element
  // behind it is kept; a target that is a search is refused.
  lemma {:induction false} ElementsAfterPrefixKept(u: CrUri, from: nat, k: nat, lookup: ElementLookup)
    requires from < k <= |u.elements|
    requires forall i :: from < i < k ==> lookup(PrefixUri(u, i)).Nothing?
    ensures var a := lookup(CrUri(u.root, u.elements[..k], u.search));
            && (a.Throws? || (a.Target? && a.target.search) ==> RewrittenFrom(u, from, lookup).Bad?)
            && (a.Target? && !a.target.search ==>
                  RewrittenFrom(u, from, lookup) == To(CrUri(a.target.root, a.target.elements + u.elements[k..], false)))
    decreases k - from
  {
    if from + 1 < k {
      ElementsAfterPrefixKept(u, from + 1, k, lookup);
    }
  }

  ghost predicate ElementsSettled(v: CrUri, lookup: ElementLookup)
  {
    forall i :: 0 < i <= |v.elements| ==> lookup(PrefixUri(v, i)).Nothing?
  }

  // The same law for the app's resolver.
  lemma ElementsResolvedIsSettled(u: CrUri, lookup: ElementLookup, v: CrUri, limit: nat)
    ensures ResolveFrom(ElementRewriting(lookup), u, {}, limit) == Resolved(v)
       <==> Arrives(ElementRewriting(lookup), u, v, limit) && ElementsSettled(v, lookup)
  {
    RewrittenFromMeans(v, 0, lookup);
    ResolvesToSettled(ElementRewriting(lookup), u, v, limit, ElementsSettled(v, lookup));
  }

  method RewriteElementsOnce(current: CrUri, lookup: ElementLookup) returns (step: Rewritten<CrUri>)
    ensures step == ElementRewriting(lookup)(current)
  {
    var prefix := current.(elements := []);
    for index := 0 to |current.elements|
      invariant prefix == PrefixUri(current, index)
      invariant RewrittenFrom(current, 0, lookup) == RewrittenFrom(current, index, lookup)
    {
      prefix := prefix.(elements := prefix.elements + [current.elements[index]]);
      assert prefix == PrefixUri(current, index + 1);
      match lookup(prefix)
      case Throws => return Bad("lookup");
      case Nothing =>
      case Target(target) =>
        if target.search {
          return Bad("Invalid shared shortcut target");
        }
        return To(target.(elements := target.elements + current.elements[index + 1..]));
    }
    return Fixed;
  }

  method ResolveElements(uri: CrUri, lookup: ElementLookup, limit: nat := 32) returns (r: Outcome<CrUri>)
    ensures r == ResolveFrom(ElementRewriting(lookup), uri, {}, limit)
  {
    var current := uri;
    var visited: set<CrUri> := {};
    for attempt := 0 to limit
      invariant ResolveFrom(ElementRewriting(lookup), uri, {}, limit) == ResolveFrom(ElementRewriting(lookup), current, visited, limit - attempt)
    {
      if current in visited {
        return Circular;
      }
      visited := visited + {current};
      var step := RewriteElementsOnce(current, lookup);
      match step
      case Bad(reason) => return Failed(reason);
      case Fixed => return Resolved(current);
      case To(next) => current := next;
    }
    return TooMany;
  }
}
