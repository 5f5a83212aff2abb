// Rebuilding identities and pins from the flat list of items the system kept.
module Recovery {
  const ROOT := "NSFileProviderRootContainerItemIdentifier"

  datatype Item = Item(identifier: string, parent: string, name: string, explicitlyPinned: bool, effectivelyPinned: bool)
  {
    predicate Pinned() {
      explicitlyPinned || effectivelyPinned
    }
  }

  function TrimLeft(s: string): string
  {
    if s != [] && s[0] == '/' then TrimLeft(s[1..]) else s
  }

  function TrimRight(s: string): string
  {
    if s != [] && s[|s| - 1] == '/' then TrimRight(s[..|s| - 1]) else s
  }

  function ChildUri(parent: string, name: string): string
  {
    TrimRight(TrimLeft(parent)) + "/" + name
  }

  ghost predicate Slashes(s: string)
  {
    forall i :: 0 <= i < |s| ==> s[i] == '/'
  }

  ghost predicate NoEdgeSlash(s: string)
  {
    s != [] ==> s[0] != '/' && s[|s| - 1] != '/'
  }

  lemma {:induction false} TrimLeftCuts(left: string, s: string)
    requires Slashes(left) && (s != [] ==> s[0] != '/')
    ensures TrimLeft(left + s) == s
    decreases |left|
  {
    if left == [] {
      assert left + s == s;
    } else {
      assert (left + s)[1..] == left[1..] + s;
      TrimLeftCuts(left[1..], s);
    }
  }

  lemma {:induction false} TrimRightCuts(s: string, right: string)
    requires Slashes(right) && (s != [] ==> s[|s| - 1] != '/')
    ensures TrimRight(s + right) == s
    decreases |right|
  {
    if right == [] {
      assert s + right == s;
    } else {
      assert (s + right)[..|s + right| - 1] == s + right[..|right| - 1];
      TrimRightCuts(s, right[..|right| - 1]);
    }
  }

  // All slashes go first; if nothing else was there, there is nothing left.
  lemma {:induction false} TrimLeftOfSlashes(s: string)
    requires Slashes(s)
    ensures TrimLeft(s) == []
  {
    assert s + [] == s;
    TrimLeftCuts(s, []);
  }

  // A child's URI is its parent's, without slashes at either end, a slash, and its name.
  lemma ChildUriExactly(left: string, core: string, right: string, name: string)
    requires Slashes(left) && Slashes(right) && NoEdgeSlash(core)
    ensures ChildUri(left + core + right, name) == core + "/" + name
  {
    if core == [] {
      assert left + core + right == left + right;
      TrimLeftOfSlashes(left + right);
    } else {
      assert left + core + right == left + (core + right);
      TrimLeftCuts(left, core + right);
      TrimRightCuts(core, right);
    }
  }

  // Every URI splits in that way.
  lemma {:induction false} EdgesSplit(uri: string) returns (left: string, core: string, right: string)
    ensures uri == left + core + right
    ensures Slashes(left) && Slashes(right) && NoEdgeSlash(core)
    decreases |uri|
  {
    if uri != [] && uri[0] == '/' {
      left, core, right := EdgesSplit(uri[1..]);
      left := "/" + left;
    } else if uri != [] && uri[|uri| - 1] == '/' {
      left, core, right := EdgesSplit(uri[..|uri| - 1]);
      right := right + "/";
    } else {
      left, core, right := [], uri, [];
    }
  }

  // Identities

  // A chain of listed items, each the child of the next, whose last parent is a base identity.
  ghost predicate Chain(chain: seq<Item>, items: seq<Item>, base: set<string>)
  {
    && chain != []
    && (forall c :: c in chain ==> c in items && c.identifier != ROOT)
    && (forall i :: 0 <= i < |chain| - 1 ==> chain[i].parent == chain[i + 1].identifier)
    && chain[|chain| - 1].parent in base
  }

  ghost predicate Reachable(id: string, items: seq<Item>, base: set<string>)
  {
    exists chain: seq<Item> :: Chain(chain, items, base) && chain[0].identifier == id
  }

  ghost predicate Distinct(items: seq<Item>)
  {
    forall a, b :: a in items && b in items && a.identifier == b.identifier ==> a == b
  }

  // Every item's URI is its parent's URI, trimmed, plus its name.
  ghost predicate UrisFollowParents(items: seq<Item>, identities: map<string, string>)
  {
    forall item :: item in items && item.identifier != ROOT && item.identifier in identities ==>
      item.parent in identities && identities[item.identifier] == ChildUri(identities[item.parent], item.name)
  }

  // The same without the trimming: whatever slashes surround the parent's URI.
  lemma ChildrenJoinParents(items: seq<Item>, identities: map<string, string>, item: Item, left: string, core: string, right: string)
    requires UrisFollowParents(items, identities) && item in items && item.identifier != ROOT && item.identifier in identities
    requires item.parent in identities && identities[item.parent] == left + core + right
    requires Slashes(left) && Slashes(right) && NoEdgeSlash(core)
    ensures identities[item.identifier] == core + "/" + item.name
  {
    ChildUriExactly(left, core, right, item.name);
  }

  ghost predicate Listed(items: seq<Item>, id: string)
  {
    exists item :: item in items && item.identifier == id && id != ROOT
  }

  ghost predicate Fresh(items: seq<Item>, existing: map<string, string>)
  {
    Distinct(items) && forall item :: item in items ==> item.identifier !in existing
  }

  // Nothing listed below a known identity is left out.
  ghost predicate Closed(items: seq<Item>, known: set<string>)
  {
    forall item :: item in items && item.identifier != ROOT && item.parent in known ==> item.identifier in known
  }

  // Known identities are the base plus what chains reach.
  ghost predicate Sound(items: seq<Item>, base: set<string>, known: set<string>)
  {
    base <= known && forall id :: id in known ==> id in base || Reachable(id, items, base)
  }

  lemma ExtendChain(item: Item, items: seq<Item>, base: set<string>, known: set<string>)
    requires item in items && item.identifier != ROOT && item.parent in known && Sound(items, base, known)
    ensures Reachable(item.identifier, items, base)
  {
    if item.parent in base {
      assert Chain([item], items, base);
    } else {
      var chain: seq<Item> :| Chain(chain, items, base) && chain[0].identifier == item.parent;
      assert Chain([item] + chain, items, base);
    }
  }

  lemma {:induction false} ClosedHoldsChains(chain: seq<Item>, items: seq<Item>, base: set<string>, known: set<string>)
    requires Chain(chain, items, base) && base <= known && Closed(items, known)
    ensures chain[0].identifier in known
    decreases |chain|
  {
    assert chain[0] in chain;
    if |chain| > 1 {
      assert Chain(chain[1..], items, base);
      ClosedHoldsChains(chain[1..], items, base, known);
    }
  }

  // The fixpoint is exactly the reachable identities, whatever the list's order.
  lemma FixpointIsReachable(items: seq<Item>, base: set<string>, known: set<string>)
    requires Sound(items, base, known) && Closed(items, known)
    ensures forall id :: id in known <==> id in base || Reachable(id, items, base)
  {
    forall id | Reachable(id, items, base) ensures id in known {
      var chain: seq<Item> :| Chain(chain, items, base) && chain[0].identifier == id;
      ClosedHoldsChains(chain, items, base, known);
    }
  }

  // Identities that no item carries keep their URI.
  ghost predicate Unlisted(items: seq<Item>, before: map<string, string>, after: map<string, string>)
  {
    before.Keys <= after.Keys && forall id :: id in before && !Listed(items, id) ==> after[id] == before[id]
  }

  // What giving one more listed item its identity keeps.
  lemma AssignKeeps(item: Item, items: seq<Item>, base: set<string>, before: map<string, string>, after: map<string, string>)
    requires item in items && item.identifier != ROOT && item.parent in before && Sound(items, base, before.Keys)
    requires after == before[item.identifier := ChildUri(before[item.parent], item.name)]
    ensures Sound(items, base, after.Keys)
    ensures Distinct(items) && UrisFollowParents(items, before) ==> UrisFollowParents(items, after)
    ensures Unlisted(items, before, after)
  {
    ExtendChain(item, items, base, before.Keys);
    if Distinct(items) && UrisFollowParents(items, before) {
      assert item.identifier in before ==> after == before;
    }
  }

  // One pass over the list, in which children may find parents added earlier in it.
  method Pass(remaining: seq<Item>, known: map<string, string>, ghost items: seq<Item>, ghost base: set<string>)
    returns (pending: seq<Item>, identities: map<string, string>)
    requires forall r :: r in remaining ==> r in items
    requires Sound(items, base, known.Keys) && ROOT in base
    ensures Sound(items, base, identities.Keys)
    ensures |pending| <= |remaining| && forall p :: p in pending ==> p in remaining
    ensures forall r :: r in remaining ==> r.identifier == ROOT || r.identifier in identities || r in pending
    ensures |pending| == |remaining| ==> identities == known && forall r :: r in remaining ==> r.parent !in known
    ensures Distinct(items) && UrisFollowParents(items, known) ==> UrisFollowParents(items, identities)
    ensures Unlisted(items, known, identities)
  {
    pending, identities := [], known;
    for i := 0 to |remaining|
      invariant Sound(items, base, identities.Keys) && Unlisted(items, known, identities)
      invariant |pending| <= i && forall p :: p in pending ==> p in remaining
      invariant forall k :: 0 <= k < i ==> remaining[k].identifier == ROOT || remaining[k].identifier in identities || remaining[k] in pending
      invariant |pending| == i ==> identities == known && forall k :: 0 <= k < i ==> remaining[k].parent !in known
      invariant Distinct(items) && UrisFollowParents(items, known) ==> UrisFollowParents(items, identities)
    {
      var item := remaining[i];
      if item.identifier == ROOT {
        continue;
      }
      if item.parent !in identities {
        pending := pending + [item];
        continue;
      }
      ghost var before := identities;
      identities := identities[item.identifier := ChildUri(identities[item.parent], item.name)];
      AssignKeeps(item, items, base, before, identities);
    }
  }

  // The identity part, with the root still in the map as it is while pins are inferred.
  method RecoverIdentities(items: seq<Item>, root: string, existing: map<string, string>) returns (identities: map<string, string>)
    ensures ROOT in identities
    ensures forall id :: id in identities <==> id in existing.Keys + {ROOT} || Reachable(id, items, existing.Keys + {ROOT})
    ensures Fresh(items, existing) ==> UrisFollowParents(items, identities) && identities[ROOT] == root
    ensures forall id :: id in existing && id != ROOT && !Listed(items, id) ==> identities[id] == existing[id]
  {
    ghost var base := existing.Keys + {ROOT};
    identities := existing[ROOT := root];
    var remaining := items;
    while remaining != []
      invariant Sound(items, base, identities.Keys)
      invariant forall r :: r in remaining ==> r in items
      invariant forall item :: item in items ==> item.identifier == ROOT || item.identifier in identities || item in remaining
      invariant Fresh(items, existing) ==> UrisFollowParents(items, identities) && identities[ROOT] == root
      invariant forall id :: id in existing && id != ROOT && !Listed(items, id) ==> identities[id] == existing[id]
      decreases |remaining|
    {
      var pending, more := Pass(remaining, identities, items, base);
      identities := more;
      if |pending| == |remaining| {
        break;
      }
      remaining := pending;
    }
    FixpointIsReachable(items, base, identities.Keys);
  }

  // Pins

  // Later items win, as with uniquingKeysWith: { _, new in new }.
  function ById(items: seq<Item>): (m: map<string, Item>)
    ensures forall id :: id in m ==> m[id] in items && m[id].identifier == id
    ensures forall item :: item in items ==> item.identifier in m
  {
    if items == [] then map[]
    else
      var n := |items| - 1;
      assert items == items[..n] + [items[n]];
      ById(items[..n])[items[n].identifier := items[n]]
  }

  // The last item listed under an identifier.
  ghost predicate LastListed(items: seq<Item>, i: int)
  {
    0 <= i < |items| && forall j :: i < j < |items| ==> items[j].identifier != items[i].identifier
  }

  lemma {:induction false} LastListedWins(items: seq<Item>, i: int)
    requires LastListed(items, i)
    ensures ById(items)[items[i].identifier] == items[i]
    decreases |items|
  {
    var n := |items| - 1;
    assert items == items[..n] + [items[n]];
    if i < n {
      assert LastListed(items[..n], i);
      LastListedWins(items[..n], i);
    }
  }

  // Walking up n listed parents from p arrives at the root container.
  ghost predicate Reaches(byID: map<string, Item>, p: string, n: nat)
    decreases n
  {
    if n == 0 then p == ROOT else p != ROOT && p in byID && Reaches(byID, byID[p].parent, n - 1)
  }

  // The listed items on that walk.
  ghost function Ancestors(byID: map<string, Item>, p: string, n: nat): seq<Item>
    requires Reaches(byID, p, n)
    decreases n
  {
    if n == 0 then [] else [byID[p]] + Ancestors(byID, byID[p].parent, n - 1)
  }

  // The walk arrives, and nothing on it is pinned.
  ghost predicate Clear(byID: map<string, Item>, p: string, n: nat)
  {
    Reaches(byID, p, n) && forall a :: a in Ancestors(byID, p, n) ==> !a.Pinned()
  }

  // The loop of the pin filter, as a recursion on the unvisited keys.
  function Walk(byID: map<string, Item>, parent: string, visited: set<string>): bool
    decreases byID.Keys - visited
  {
    if parent == ROOT then true
    else if parent in visited || parent !in byID then false
    else if byID[parent].Pinned() then false
    else Walk(byID, byID[parent].parent, visited + {parent})
  }

  lemma {:induction false} DepthUnique(byID: map<string, Item>, p: string, n: nat, m: nat)
    requires Reaches(byID, p, n) && Reaches(byID, p, m)
    ensures n == m
    decreases n
  {
    if n != 0 && m != 0 {
      DepthUnique(byID, byID[p].parent, n - 1, m - 1);
    }
  }

  lemma {:induction false} WalkSound(byID: map<string, Item>, p: string, visited: set<string>) returns (n: nat)
    requires Walk(byID, p, visited)
    ensures Clear(byID, p, n)
    decreases byID.Keys - visited
  {
    if p == ROOT {
      n := 0;
    } else {
      n := WalkSound(byID, byID[p].parent, visited + {p});
      n := n + 1;
    }
  }

  // Visited parents lie further from the root, so a walk that can arrive is never cut short.
  lemma {:induction false} WalkComplete(byID: map<string, Item>, p: string, visited: set<string>, n: nat)
    requires Clear(byID, p, n)
    requires forall v, m: nat :: v in visited && m <= n ==> !Reaches(byID, v, m)
    ensures Walk(byID, p, visited)
    decreases n
  {
    if n != 0 {
      assert Reaches(byID, p, n);
      assert p !in visited;
      assert byID[p] in Ancestors(byID, p, n);
      var q := byID[p].parent;
      forall a | a in Ancestors(byID, q, n - 1) ensures !a.Pinned() {
        assert a in Ancestors(byID, p, n);
      }
      forall v, m: nat | v in visited + {p} && m <= n - 1 ensures !Reaches(byID, v, m) {
        if v == p && Reaches(byID, p, m) {
          DepthUnique(byID, p, n, m);
        }
      }
      WalkComplete(byID, q, visited + {p}, n - 1);
    }
  }

  // The walk succeeds exactly when the listed parents lead to the root with no
  // pin on the way; cycles and unlisted parents make it fail, never spin.
  lemma WalkMeans(byID: map<string, Item>, p: string)
    ensures Walk(byID, p, {}) <==> exists n: nat :: Clear(byID, p, n)
  {
    if Walk(byID, p, {}) {
      var n := WalkSound(byID, p, {});
    }
    if n: nat :| Clear(byID, p, n) {
      WalkComplete(byID, p, {}, n);
    }
  }

  predicate Selected(item: Item, items: seq<Item>)
  {
    item.explicitlyPinned || (item.effectivelyPinned && Walk(ById(items), item.parent, {}))
  }

  function PinSet(candidates: seq<Item>, items: seq<Item>, known: set<string>): set<string>
  {
    set item | item in candidates && item.identifier in known && Selected(item, items) :: item.identifier
  }

  // What makes the filter keep an item: it is pinned itself, or it follows a policy
  // and no listed parent up to the root container is pinned.
  ghost predicate Topmost(items: seq<Item>, item: Item)
  {
    item.explicitlyPinned || (item.effectivelyPinned && exists n: nat :: Clear(ById(items), item.parent, n))
  }

  // The pins are exactly the known identifiers of such items.
  lemma PinsExactly(items: seq<Item>, known: set<string>, id: string)
    ensures id in PinSet(items, items, known) <==> id in known && exists item :: item in items && item.identifier == id && Topmost(items, item)
  {
    forall item | item in items ensures Selected(item, items) <==> Topmost(items, item) {
      WalkMeans(ById(items), item.parent);
    }
    if id in PinSet(items, items, known) {
      var item :| item in items && item.identifier == id && Selected(item, items);
      assert Topmost(items, item);
    }
  }

  method WalkLoop(byID: map<string, Item>, start: string) returns (r: bool)
    ensures r == Walk(byID, start, {})
  {
    var parent, visited := start, {};
    while parent != ROOT
      invariant Walk(byID, start, {}) == Walk(byID, parent, visited)
      decreases byID.Keys - visited
    {
      if parent in visited || parent !in byID {
        return false;
      }
      visited := visited + {parent};
      var ancestor := byID[parent];
      if ancestor.effectivelyPinned || ancestor.explicitlyPinned {
        return false;
      }
      parent := ancestor.parent;
    }
    return true;
  }

  method InferPins(items: seq<Item>, identities: map<string, string>) returns (pins: set<string>)
    ensures pins == PinSet(items, items, identities.Keys)
  {
    var byID := ById(items);
    pins := {};
    for i := 0 to |items|
      invariant pins == PinSet(items[..i], items, identities.Keys)
    {
      var item := items[i];
      assert items[..i + 1] == items[..i] + [item];
      if item.identifier in identities {
        var take := item.explicitlyPinned;
        if !take && item.effectivelyPinned {
          take := WalkLoop(byID, item.parent);
        }
        if take {
          pins := pins + {item.identifier};
        }
      }
    }
    assert items[..|items|] == items;
  }

  // Exactly the existing identities and what the listed chains reach.
  ghost predicate Recovered(identities: map<string, string>, items: seq<Item>, existing: map<string, string>)
  {
    forall id :: id in identities <==> id != ROOT && (id in existing || Reachable(id, items, existing.Keys + {ROOT}))
  }

  method Reconstruct(items: seq<Item>, root: string, existing: map<string, string>)
    returns (identities: map<string, string>, pins: set<string>)
    ensures Recovered(identities, items, existing)
    ensures Fresh(items, existing) ==> UrisFollowParents(items, identities[ROOT := root])
    ensures pins == PinSet(items, items, identities.Keys + {ROOT})
    ensures forall id :: id in existing && id != ROOT && !Listed(items, id) ==> identities[id] == existing[id]
  {
    var full := RecoverIdentities(items, root, existing);
    pins := InferPins(items, full);
    identities := full - {ROOT};
    assert identities.Keys + {ROOT} == full.Keys;
    assert Fresh(items, existing) ==> identities[ROOT := root] == full;
  }

  // A walk that arrives proves the identity of everything on it.
  lemma {:induction false} ReachesIsReachable(items: seq<Item>, p: string, n: nat, base: set<string>)
    requires n > 0 && Reaches(ById(items), p, n) && ROOT in base
    ensures Reachable(p, items, base)
    decreases n
  {
    var item := ById(items)[p];
    if n == 1 {
      assert Chain([item], items, base);
    } else {
      ReachesIsReachable(items, item.parent, n - 1, base);
      var chain: seq<Item> :| Chain(chain, items, base) && chain[0].identifier == item.parent;
      assert Chain([item] + chain, items, base);
    }
  }

  // The pinned item nearest the root on a walk, if there is one.
  lemma {:induction false} TopmostPinned(byID: map<string, Item>, p: string, n: nat) returns (found: bool, a: string, m: nat)
    requires Reaches(byID, p, n)
    ensures !found ==> Clear(byID, p, n)
    ensures found ==> a in byID && byID[a].Pinned() && byID[a] in Ancestors(byID, p, n)
    ensures found ==> Clear(byID, byID[a].parent, m) && Reaches(byID, a, m + 1)
    decreases n
  {
    if n == 0 {
      found, a, m := false, "", 0;
    } else {
      var q := byID[p].parent;
      found, a, m := TopmostPinned(byID, q, n - 1);
      if !found && byID[p].Pinned() {
        found, a, m := true, p, n - 1;
      }
    }
  }

  lemma DistinctById(items: seq<Item>, item: Item)
    requires Distinct(items) && item in items
    ensures ById(items)[item.identifier] == item
  {}

  lemma {:induction false} TopmostIsSelected(items: seq<Item>, existing: map<string, string>, identities: map<string, string>, top: Item, depth: nat)
    requires top in items && top.Pinned() && Clear(ById(items), top.parent, depth)
    requires Reaches(ById(items), top.identifier, depth + 1) && Recovered(identities, items, existing)
    ensures top.identifier in PinSet(items, items, identities.Keys + {ROOT})
  {
    ReachesIsReachable(items, top.identifier, depth + 1, existing.Keys + {ROOT});
    WalkMeans(ById(items), top.parent);
    assert Selected(top, items);
  }

  lemma NearestRoot(items: seq<Item>, item: Item, n: nat) returns (top: Item, depth: nat)
    requires Distinct(items) && item in items && item.Pinned() && item.identifier != ROOT
    requires Reaches(ById(items), item.parent, n)
    ensures top in items && top.Pinned() && Clear(ById(items), top.parent, depth)
    ensures Reaches(ById(items), top.identifier, depth + 1)
    ensures top == item || top in Ancestors(ById(items), item.parent, n)
  {
    DistinctById(items, item);
    var found, a, m := TopmostPinned(ById(items), item.parent, n);
    if found {
      top, depth := ById(items)[a], m;
    } else {
      top, depth := item, n;
    }
  }

  // No pin policy is lost: every effectively pinned item whose listed ancestors
  // reach the root has itself or one of them among the recovered pins.
  lemma {:induction false} PinsCover(items: seq<Item>, existing: map<string, string>, identities: map<string, string>, pins: set<string>, item: Item, n: nat)
    requires Distinct(items) && item in items && item.Pinned() && item.identifier != ROOT
    requires Reaches(ById(items), item.parent, n)
    requires Recovered(identities, items, existing) && pins == PinSet(items, items, identities.Keys + {ROOT})
    ensures item.identifier in pins || exists a :: a in Ancestors(ById(items), item.parent, n) && a.identifier in pins
  {
    var top, depth := NearestRoot(items, item, n);
    TopmostIsSelected(items, existing, identities, top, depth);
  }

  // No child is pinned beside its folder: an inferred pin has no pinned listed
  // ancestor below the root container.
  lemma InferredPinsAreTopmost(items: seq<Item>, item: Item, n: nat)
    requires item in items && Selected(item, items) && !item.explicitlyPinned
    ensures item.effectivelyPinned
    ensures exists k: nat :: Clear(ById(items), item.parent, k)
    ensures Reaches(ById(items), item.parent, n) ==> forall a :: a in Ancestors(ById(items), item.parent, n) ==> !a.Pinned()
  {
    WalkMeans(ById(items), item.parent);
    var k: nat :| Clear(ById(items), item.parent, k);
    if Reaches(ById(items), item.parent, n) {
      DepthUnique(ById(items), item.parent, n, k);
    }
  }
}
