// The two identity maps of the remote store, the record of deleted identities,
// and the sets that hang off an identity.
module Identities {
  // canonicalURI is percent-decoding and not idempotent; here it is any
  // function, applied only where the store applies it.
  type Canonical = string -> string

  function CanonicalId(raw: string): string
  {
    if "cloudreve-item://" <= raw then "cloudreve-item:/" + raw[|"cloudreve-item://"|..] else raw
  }

  // The two spellings of an identifier become one, but where a third slash follows;
  // whatever has neither spelling is left alone.
  lemma SpellingsMeetExactly(rest: string)
    ensures CanonicalId("cloudreve-item://" + rest) == CanonicalId("cloudreve-item:/" + rest) <==> !("/" <= rest)
    ensures forall raw {:trigger CanonicalId(raw)} :: !("cloudreve-item://" <= raw) ==> CanonicalId(raw) == raw
  {
    var two, one := "cloudreve-item://" + rest, "cloudreve-item:/" + rest;
    assert two[|"cloudreve-item://"|..] == rest;
    assert CanonicalId(two) == one;
    if "/" <= rest {
      assert one == "cloudreve-item://" + rest[1..];
      assert |CanonicalId(one)| < |one|;
    } else if rest != [] {
      assert one[|"cloudreve-item:/"|] == rest[0] && rest[..1] != "/";
    }
  }

  datatype Maps = Maps(
    uriBy: map<string, string>, idBy: map<string, string>, deleted: map<string, string>,
    cached: set<string>, presented: set<string>, pinned: set<string>)

  const EMPTY := Maps(map[], map[], map[], {}, {}, {})

  // Each identifier's current URI maps back to it. The converse is not an
  // invariant: a URI may keep an identifier that has moved on.
  ghost predicate Inv(m: Maps)
  {
    forall id :: id in m.uriBy ==> m.uriBy[id] in m.idBy && m.idBy[m.uriBy[id]] == id
  }

  lemma NoSharedUri(m: Maps, a: string, b: string)
    requires Inv(m) && a in m.uriBy && b in m.uriBy
    ensures m.uriBy[a] == m.uriBy[b] ==> a == b
  {}

  // load

  function LoadOne(m: Maps, key: string, uri: string): Maps
  {
    if uri in m.idBy then m else m.(uriBy := m.uriBy[CanonicalId(key) := uri], idBy := m.idBy[uri := CanonicalId(key)])
  }

  // The saved identifiers in sorted order; the first to claim a canonical URI keeps it.
  function LoadSpec(saved: map<string, string>, keys: seq<string>, canonical: Canonical): Maps
    requires forall k :: k in keys ==> k in saved
  {
    if keys == [] then EMPTY
    else
      var n := |keys| - 1;
      assert keys[n] in keys;
      LoadOne(LoadSpec(saved, keys[..n], canonical), keys[n], canonical(saved[keys[n]]))
  }

  // Key i is the first whose saved URI canonicalises to u.
  ghost predicate FirstClaim(saved: map<string, string>, keys: seq<string>, canonical: Canonical, u: string, i: int)
    requires forall k :: k in keys ==> k in saved
  {
    && 0 <= i < |keys|
    && canonical(saved[keys[i]]) == u
    && forall j :: 0 <= j < i ==> canonical(saved[keys[j]]) != u
  }

  lemma {:induction false} LoadInv(saved: map<string, string>, keys: seq<string>, canonical: Canonical)
    requires forall k :: k in keys ==> k in saved
    ensures Inv(LoadSpec(saved, keys, canonical))
    decreases |keys|
  {
    if keys != [] {
      LoadInv(saved, keys[..|keys| - 1], canonical);
    }
  }

  lemma {:induction false} LoadOnlyClaims(saved: map<string, string>, keys: seq<string>, canonical: Canonical, u: string)
    requires forall k :: k in keys ==> k in saved
    ensures u in LoadSpec(saved, keys, canonical).idBy ==> exists j :: 0 <= j < |keys| && canonical(saved[keys[j]]) == u
    decreases |keys|
  {
    if keys != [] {
      var n := |keys| - 1;
      LoadOnlyClaims(saved, keys[..n], canonical, u);
      if j :| 0 <= j < n && canonical(saved[keys[..n][j]]) == u {
        assert canonical(saved[keys[j]]) == u;
      } else if u in LoadSpec(saved, keys, canonical).idBy {
        assert canonical(saved[keys[n]]) == u;
      }
    }
  }

  // One stable identity per canonical URI: the URI of every saved entry is
  // mapped, and it belongs to the first entry that claims it.
  lemma {:induction false} LoadKeepsFirst(saved: map<string, string>, keys: seq<string>, canonical: Canonical, u: string, i: int)
    requires forall k :: k in keys ==> k in saved
    requires FirstClaim(saved, keys, canonical, u, i)
    ensures var m := LoadSpec(saved, keys, canonical); u in m.idBy && m.idBy[u] == CanonicalId(keys[i])
    decreases |keys|
  {
    var n := |keys| - 1;
    if i < n {
      LoadKeepsFirst(saved, keys[..n], canonical, u, i);
    } else {
      LoadOnlyClaims(saved, keys[..n], canonical, u);
    }
  }

  // Entry i brings its identifier into the maps.
  ghost predicate Claims(saved: map<string, string>, keys: seq<string>, canonical: Canonical, i: int)
    requires forall k :: k in keys ==> k in saved
  {
    0 <= i < |keys| && FirstClaim(saved, keys, canonical, canonical(saved[keys[i]]), i)
  }

  ghost predicate LastClaim(saved: map<string, string>, keys: seq<string>, canonical: Canonical, id: string, i: int)
    requires forall k :: k in keys ==> k in saved
  {
    && Claims(saved, keys, canonical, i) && CanonicalId(keys[i]) == id
    && forall j :: i < j < |keys| && Claims(saved, keys, canonical, j) ==> CanonicalId(keys[j]) != id
  }

  lemma {:induction false} FirstOf(saved: map<string, string>, keys: seq<string>, canonical: Canonical, j: nat) returns (i: int)
    requires (forall k :: k in keys ==> k in saved) && j < |keys|
    ensures i <= j && FirstClaim(saved, keys, canonical, canonical(saved[keys[j]]), i)
  {
    var u := canonical(saved[keys[j]]);
    i := 0;
    while canonical(saved[keys[i]]) != u
      invariant 0 <= i <= j && forall b :: 0 <= b < i ==> canonical(saved[keys[b]]) != u
      decreases j - i
    {
      i := i + 1;
    }
  }

  // The last entry brings its identifier in exactly when its URI is not mapped yet.
  lemma {:induction false} NewestClaims(saved: map<string, string>, keys: seq<string>, canonical: Canonical, n: nat)
    requires (forall k :: k in keys ==> k in saved) && |keys| == n + 1
    ensures Claims(saved, keys, canonical, n) <==> canonical(saved[keys[n]]) !in LoadSpec(saved, keys[..n], canonical).idBy
  {
    var u, earlier := canonical(saved[keys[n]]), keys[..n];
    LoadOnlyClaims(saved, earlier, canonical, u);
    if u in LoadSpec(saved, earlier, canonical).idBy {
      var j :| 0 <= j < n && canonical(saved[earlier[j]]) == u;
      assert canonical(saved[keys[j]]) == u;
    } else if !Claims(saved, keys, canonical, n) {
      var j :| 0 <= j < n && canonical(saved[keys[j]]) == u;
      var i := FirstOf(saved, earlier, canonical, j);
      LoadKeepsFirst(saved, earlier, canonical, u, i);
    }
  }

  // No entry brings the identifier in.
  ghost predicate Unclaimed(saved: map<string, string>, keys: seq<string>, canonical: Canonical, id: string)
    requires forall k :: k in keys ==> k in saved
  {
    forall j :: 0 <= j < |keys| && Claims(saved, keys, canonical, j) ==> CanonicalId(keys[j]) != id
  }

  lemma ClaimsOfPrefix(saved: map<string, string>, keys: seq<string>, canonical: Canonical, n: nat, i: int)
    requires (forall k :: k in keys ==> k in saved) && |keys| == n + 1 && i < n
    ensures Claims(saved, keys[..n], canonical, i) <==> Claims(saved, keys, canonical, i)
  {
    if 0 <= i {
      assert forall j :: 0 <= j <= i ==> keys[..n][j] == keys[j];
    }
  }

  // An entry under another identifier, or that claims nothing, changes neither.
  lemma LastClaimStays(saved: map<string, string>, keys: seq<string>, canonical: Canonical, id: string, n: nat, i: int)
    requires (forall k :: k in keys ==> k in saved) && |keys| == n + 1
    requires Claims(saved, keys, canonical, n) ==> CanonicalId(keys[n]) != id
    requires LastClaim(saved, keys[..n], canonical, id, i)
    ensures LastClaim(saved, keys, canonical, id, i)
  {
    ClaimsOfPrefix(saved, keys, canonical, n, i);
    forall j | i < j < |keys| && Claims(saved, keys, canonical, j) ensures CanonicalId(keys[j]) != id {
      if j < n {
        ClaimsOfPrefix(saved, keys, canonical, n, j);
        assert keys[..n][j] == keys[j];
      }
    }
  }

  lemma UnclaimedStays(saved: map<string, string>, keys: seq<string>, canonical: Canonical, id: string, n: nat)
    requires (forall k :: k in keys ==> k in saved) && |keys| == n + 1
    requires Claims(saved, keys, canonical, n) ==> CanonicalId(keys[n]) != id
    requires Unclaimed(saved, keys[..n], canonical, id)
    ensures Unclaimed(saved, keys, canonical, id)
  {
    forall j | 0 <= j < |keys| && Claims(saved, keys, canonical, j) ensures CanonicalId(keys[j]) != id {
      if j < n {
        ClaimsOfPrefix(saved, keys, canonical, n, j);
        assert keys[..n][j] == keys[j];
      }
    }
  }

  // An identifier is mapped exactly when some entry under one of its spellings
  // claims a URI first, and to the URI of the last such entry.
  lemma {:induction false} LoadUriExactly(saved: map<string, string>, keys: seq<string>, canonical: Canonical, id: string) returns (i: int)
    requires forall k :: k in keys ==> k in saved
    ensures var m := LoadSpec(saved, keys, canonical);
            && (id in m.uriBy <==> !Unclaimed(saved, keys, canonical, id))
            && (id in m.uriBy ==> LastClaim(saved, keys, canonical, id, i) && m.uriBy[id] == canonical(saved[keys[i]]))
    decreases |keys|
  {
    i := 0;
    if keys != [] {
      var n := |keys| - 1;
      i := LoadUriExactly(saved, keys[..n], canonical, id);
      NewestClaims(saved, keys, canonical, n);
      if Claims(saved, keys, canonical, n) && CanonicalId(keys[n]) == id {
        i := n;
      } else if id in LoadSpec(saved, keys[..n], canonical).uriBy {
        LastClaimStays(saved, keys, canonical, id, n, i);
      } else {
        UnclaimedStays(saved, keys, canonical, id, n);
      }
    }
  }

  // record

  // Another identifier holds the URI.
  predicate Collides(m: Maps, id: string, uri: string)
  {
    uri in m.idBy && m.idBy[uri] != id
  }

  function Record(m: Maps, id: string, uri: string): Maps
  {
    if Collides(m, id, uri) then m
    else if id in m.uriBy && m.uriBy[id] == uri && uri in m.idBy && m.idBy[uri] == id && id !in m.deleted then m
    else
      var idBy := if id in m.uriBy && m.uriBy[id] in m.idBy && m.idBy[m.uriBy[id]] == id then m.idBy - {m.uriBy[id]} else m.idBy;
      m.(uriBy := m.uriBy[id := uri], idBy := idBy[uri := id], deleted := m.deleted - {id})
  }

  // evict

  // The identities below the URI of one of the named ones.
  function Below(m: Maps, ids: seq<string>): set<string>
  {
    set id, raw | id in ids && raw in m.uriBy && CanonicalId(id) in m.uriBy && m.uriBy[CanonicalId(id)] + "/" <= m.uriBy[raw] :: raw
  }

  // The identifiers themselves and every identity below the URI of one of them.
  function Doomed(m: Maps, ids: seq<string>): set<string>
  {
    (set id | id in ids :: CanonicalId(id))
    + Below(m, ids)
  }

  function Forget(m: Maps, doomed: set<string>): Maps
  {
    Maps(
      m.uriBy - doomed,
      map u | u in m.idBy && !(m.idBy[u] in doomed && m.idBy[u] in m.uriBy && m.uriBy[m.idBy[u]] == u) :: m.idBy[u],
      m.deleted + (map id | id in doomed && id in m.uriBy :: m.uriBy[id]),
      m.cached - doomed, m.presented - doomed, m.pinned - doomed)
  }

  // merge

  function MergeOne(m: Maps, id: string, uri: string): Maps
  {
    if Collides(m, id, uri) then m
    else
      var idBy := if id in m.uriBy && m.uriBy[id] != uri then m.idBy - {m.uriBy[id]} else m.idBy;
      m.(uriBy := m.uriBy[id := uri], idBy := idBy[uri := id])
  }

  // Dictionary iteration visits the recovered pairs in some order.
  function Merge(m: Maps, recovered: seq<(string, string)>): Maps
    decreases |recovered|
  {
    if recovered == [] then m else Merge(MergeOne(m, recovered[0].0, recovered[0].1), recovered[1..])
  }

  predicate KnownAt(m: Maps, id: string, u: string)
  {
    (id in m.uriBy && m.uriBy[id] == u) || (id in m.deleted && m.deleted[id] == u)
  }

  predicate IsKnown(m: Maps, raw: string, uri: string, canonical: Canonical)
  {
    KnownAt(m, CanonicalId(raw), canonical(uri))
  }

  // The invariant through every operation

  lemma RecordKeepsInv(m: Maps, id: string, uri: string)
    requires Inv(m)
    ensures Inv(Record(m, id, uri))
    ensures !Collides(m, id, uri) ==> id in Record(m, id, uri).uriBy && Record(m, id, uri).uriBy[id] == uri
    ensures forall other :: other != id ==> (other in m.uriBy <==> other in Record(m, id, uri).uriBy)
    ensures forall other :: other != id && other in m.uriBy ==> Record(m, id, uri).uriBy[other] == m.uriBy[other]
  {}

  lemma ForgetKeepsInv(m: Maps, doomed: set<string>)
    requires Inv(m)
    ensures Inv(Forget(m, doomed))
  {}

  lemma {:induction false} MergeKeepsInv(m: Maps, recovered: seq<(string, string)>)
    requires Inv(m)
    ensures Inv(Merge(m, recovered))
    decreases |recovered|
  {
    if recovered != [] {
      MergeKeepsInv(MergeOne(m, recovered[0].0, recovered[0].1), recovered[1..]);
    }
  }

  // Identity id is at uri and its old URI is free; every other entry is as it was.
  ghost predicate Moved(m: Maps, r: Maps, id: string, uri: string)
  {
    && id in r.uriBy && r.uriBy[id] == uri
    && (forall x :: x != id ==> (x in r.uriBy <==> x in m.uriBy))
    && (forall x :: x != id && x in m.uriBy ==> r.uriBy[x] == m.uriBy[x])
    && uri in r.idBy && r.idBy[uri] == id
    && (forall u :: u != uri ==> (u in r.idBy <==> u in m.idBy && !(id in m.uriBy && m.uriBy[id] == u)))
    && (forall u :: u != uri && u in r.idBy ==> r.idBy[u] == m.idBy[u])
    && r.cached == m.cached && r.presented == m.presented && r.pinned == m.pinned
  }

  // Recording moves the identity and clears its deletion, unless another one holds the URI.
  lemma RecordExactly(m: Maps, id: string, uri: string)
    requires Inv(m)
    ensures Collides(m, id, uri) ==> Record(m, id, uri) == m
    ensures !Collides(m, id, uri) ==> Moved(m, Record(m, id, uri), id, uri)
    ensures !Collides(m, id, uri) ==> Record(m, id, uri).deleted == m.deleted - {id}
  {
    if id !in m.deleted {
      assert m.deleted - {id} == m.deleted;
    }
  }

  // One recovered pair does the same and leaves the deletions alone.
  lemma MergeOneExactly(m: Maps, id: string, uri: string)
    requires Inv(m)
    ensures Collides(m, id, uri) ==> MergeOne(m, id, uri) == m
    ensures !Collides(m, id, uri) ==> Moved(m, MergeOne(m, id, uri), id, uri) && MergeOne(m, id, uri).deleted == m.deleted
  {}

  // No pair names this identity or this URI.
  ghost predicate Alone(pairs: seq<(string, string)>, id: string, uri: string)
  {
    forall p :: p in pairs ==> p.0 != id && p.1 != uri
  }

  ghost predicate Mapped(m: Maps, id: string, uri: string)
  {
    id in m.uriBy && m.uriBy[id] == uri && uri in m.idBy && m.idBy[uri] == id
  }

  lemma {:induction false} MergeKeepsPair(m: Maps, pairs: seq<(string, string)>, id: string, uri: string)
    requires Inv(m) && Alone(pairs, id, uri)
    ensures Mapped(m, id, uri) ==> Mapped(Merge(m, pairs), id, uri)
    ensures !Collides(m, id, uri) ==> !Collides(Merge(m, pairs), id, uri)
    decreases |pairs|
  {
    if pairs != [] {
      assert pairs[0] in pairs;
      MergeKeepsInv(m, pairs[..1]);
      MergeOneExactly(m, pairs[0].0, pairs[0].1);
      assert Inv(MergeOne(m, pairs[0].0, pairs[0].1));
      MergeKeepsPair(MergeOne(m, pairs[0].0, pairs[0].1), pairs[1..], id, uri);
    }
  }

  lemma {:induction false} MergeAppend(m: Maps, a: seq<(string, string)>, b: seq<(string, string)>)
    ensures Merge(m, a + b) == Merge(Merge(m, a), b)
    decreases |a|
  {
    if a == [] {
      assert a + b == b;
    } else {
      assert (a + b)[1..] == a[1..] + b;
      MergeAppend(MergeOne(m, a[0].0, a[0].1), a[1..], b);
    }
  }

  // Wherever it stands in the order, a recovered pair that collides with nothing is
  // mapped both ways after the merge.
  lemma {:induction false} MergeMapsRecovered(m: Maps, before: seq<(string, string)>, id: string, uri: string, after: seq<(string, string)>)
    requires Inv(m) && Alone(before, id, uri) && Alone(after, id, uri) && !Collides(m, id, uri)
    ensures Mapped(Merge(m, before + [(id, uri)] + after), id, uri)
  {
    var reached := Merge(m, before);
    MergeKeepsInv(m, before);
    MergeKeepsPair(m, before, id, uri);
    MergeOneExactly(reached, id, uri);
    MergeKeepsInv(reached, [(id, uri)]);
    var next := MergeOne(reached, id, uri);
    assert Merge(reached, [(id, uri)]) == next;
    MergeKeepsPair(next, after, id, uri);
    MergeAppend(m, before + [(id, uri)], after);
    MergeAppend(m, before, [(id, uri)]);
  }

  // A merge never takes a URI from an identity it does not itself recover, and
  // leaves the URI of every such identity alone.
  lemma {:induction false} MergeRespectsLive(m: Maps, recovered: seq<(string, string)>, id: string)
    requires Inv(m) && id in m.uriBy && forall p :: p in recovered ==> p.0 != id
    ensures var r := Merge(m, recovered); id in r.uriBy && r.uriBy[id] == m.uriBy[id] && r.uriBy[id] in r.idBy && r.idBy[r.uriBy[id]] == id
    decreases |recovered|
  {
    if recovered != [] {
      var next := MergeOne(m, recovered[0].0, recovered[0].1);
      MergeKeepsInv(next, []);
      assert recovered[0] in recovered;
      assert Inv(next) && id in next.uriBy && next.uriBy[id] == m.uriBy[id];
      MergeRespectsLive(next, recovered[1..], id);
    }
  }

  // x is one of the named identities, or lies below the URI of one.
  ghost predicate Named(m: Maps, ids: seq<string>, x: string)
  {
    exists id :: id in ids && (x == CanonicalId(id)
      || (x in m.uriBy && CanonicalId(id) in m.uriBy && m.uriBy[CanonicalId(id)] + "/" <= m.uriBy[x]))
  }

  ghost predicate Untouched(m: Maps, r: Maps, x: string)
  {
    && (x in r.uriBy <==> x in m.uriBy) && (x in r.deleted <==> x in m.deleted)
    && (x in m.uriBy ==> r.uriBy[x] == m.uriBy[x] && m.uriBy[x] in r.idBy && r.idBy[m.uriBy[x]] == x)
    && (x in m.deleted ==> r.deleted[x] == m.deleted[x])
    && (x in r.cached <==> x in m.cached) && (x in r.presented <==> x in m.presented) && (x in r.pinned <==> x in m.pinned)
  }

  ghost predicate Gone(m: Maps, r: Maps, x: string)
  {
    && x !in r.uriBy && x !in r.cached && x !in r.presented && x !in r.pinned
    && (x in m.uriBy ==> m.uriBy[x] !in r.idBy && x in r.deleted && r.deleted[x] == m.uriBy[x])
    && (x !in m.uriBy ==> (x in r.deleted <==> x in m.deleted) && (x in m.deleted ==> r.deleted[x] == m.deleted[x]))
  }

  // Eviction takes the named identities, mapped or not, and everything below their
  // URIs out of every table, remembers the URIs they had, and leaves the rest as it was.
  lemma EvictExactly(m: Maps, ids: seq<string>, x: string)
    requires Inv(m)
    ensures Named(m, ids, x) ==> Gone(m, Forget(m, Doomed(m, ids)), x)
    ensures !Named(m, ids, x) ==> Untouched(m, Forget(m, Doomed(m, ids)), x)
  {
    assert x in Doomed(m, ids) <==> Named(m, ids, x) by {
      if x in Below(m, ids) {
        assert exists id :: id in ids && CanonicalId(id) in m.uriBy && m.uriBy[CanonicalId(id)] + "/" <= m.uriBy[x];
      } else if x in Doomed(m, ids) {
        assert exists id :: id in ids && x == CanonicalId(id);
      }
    }
  }

  datatype Op =
    | RecordOp(id: string, uri: string)
    | EvictOp(ids: seq<string>)
    | MergeOp(recovered: seq<(string, string)>)

  function Apply(m: Maps, op: Op, canonical: Canonical): Maps
  {
    match op
    case RecordOp(id, uri) => Record(m, id, canonical(uri))
    case EvictOp(ids) => Forget(m, Doomed(m, ids))
    case MergeOp(recovered) => Merge(m, recovered)
  }

  function Run(m: Maps, ops: seq<Op>, canonical: Canonical): Maps
  {
    if ops == [] then m else Apply(Run(m, ops[..|ops| - 1], canonical), ops[|ops| - 1], canonical)
  }

  lemma {:induction false} RunsKeepInv(m: Maps, ops: seq<Op>, canonical: Canonical)
    requires Inv(m)
    ensures Inv(Run(m, ops, canonical))
    decreases |ops|
  {
    if ops != [] {
      var before := Run(m, ops[..|ops| - 1], canonical);
      RunsKeepInv(m, ops[..|ops| - 1], canonical);
      match ops[|ops| - 1]
      case RecordOp(id, uri) => RecordKeepsInv(before, id, canonical(uri));
      case EvictOp(ids) => ForgetKeepsInv(before, Doomed(before, ids));
      case MergeOp(recovered) => MergeKeepsInv(before, recovered);
    }
  }

  // From load and through every run, no two identities share a URI.
  lemma {:induction false} LoadedRunsShareNoUri(
    saved: map<string, string>, keys: seq<string>, ops: seq<Op>, canonical: Canonical, a: string, b: string)
    requires forall k :: k in keys ==> k in saved
    ensures var m := Run(LoadSpec(saved, keys, canonical), ops, canonical);
            Inv(m) && (a in m.uriBy && b in m.uriBy && m.uriBy[a] == m.uriBy[b] ==> a == b)
  {
    LoadInv(saved, keys, canonical);
    RunsKeepInv(LoadSpec(saved, keys, canonical), ops, canonical);
  }

  // The last URI successfully recorded for each identifier in a run from empty.
  ghost function LastRecorded(ops: seq<Op>, canonical: Canonical): map<string, string>
  {
    if ops == [] then map[]
    else
      var n := |ops| - 1;
      var last, op := LastRecorded(ops[..n], canonical), ops[n];
      if op.RecordOp? && !Collides(Run(EMPTY, ops[..n], canonical), op.id, canonical(op.uri))
        then last[op.id := canonical(op.uri)] else last
  }

  ghost predicate NoMerge(ops: seq<Op>)
  {
    forall op :: op in ops ==> !op.MergeOp?
  }

  lemma ForgetUnion(m: Maps, doomed: set<string>)
    requires m.uriBy.Keys !! m.deleted.Keys
    ensures var next := Forget(m, doomed);
            next.uriBy.Keys !! next.deleted.Keys && next.uriBy + next.deleted == m.uriBy + m.deleted
  {}

  lemma RecordUnion(m: Maps, id: string, uri: string)
    requires m.uriBy.Keys !! m.deleted.Keys
    ensures var next := Record(m, id, uri);
            && next.uriBy.Keys !! next.deleted.Keys
            && next.uriBy + next.deleted == if Collides(m, id, uri) then m.uriBy + m.deleted else (m.uriBy + m.deleted)[id := uri]
  {}

  lemma {:induction false} MapsHoldLast(ops: seq<Op>, canonical: Canonical)
    requires NoMerge(ops)
    ensures var m := Run(EMPTY, ops, canonical);
            m.uriBy.Keys !! m.deleted.Keys && m.uriBy + m.deleted == LastRecorded(ops, canonical)
    decreases |ops|
  {
    if ops != [] {
      var n := |ops| - 1;
      MapsHoldLast(ops[..n], canonical);
      var m, op := Run(EMPTY, ops[..n], canonical), ops[n];
      assert op in ops;
      if op.RecordOp? {
        RecordUnion(m, op.id, canonical(op.uri));
      } else {
        ForgetUnion(m, Doomed(m, op.ids));
      }
    }
  }

  // Starting empty and using only record and evict, an identity is known at a
  // URI exactly when that is the last URI successfully recorded for it.
  lemma {:induction false} KnownIsLastRecorded(ops: seq<Op>, canonical: Canonical, raw: string, uri: string)
    requires NoMerge(ops)
    ensures var last, id := LastRecorded(ops, canonical), CanonicalId(raw);
            IsKnown(Run(EMPTY, ops, canonical), raw, uri, canonical) <==> id in last && last[id] == canonical(uri)
  {
    MapsHoldLast(ops, canonical);
    var m := Run(EMPTY, ops, canonical);
    assert CanonicalId(raw) in m.uriBy ==> CanonicalId(raw) !in m.deleted;
    assert (m.uriBy + m.deleted).Keys == m.uriBy.Keys + m.deleted.Keys;
  }

  // A recovery merge does not clear the deleted record: a recovered identity is
  // known at a second URI exactly when it was deleted at a different one.
  lemma MergeAmbiguity(m: Maps, id: string, uri: string)
    requires !Collides(m, id, uri)
    ensures KnownAt(MergeOne(m, id, uri), id, uri)
    ensures (exists v :: v != uri && KnownAt(MergeOne(m, id, uri), id, v)) <==> id in m.deleted && m.deleted[id] != uri
  {
    if id in m.deleted && m.deleted[id] != uri {
      assert KnownAt(MergeOne(m, id, uri), id, m.deleted[id]);
    }
  }

  // Forgetting one more identity, field by field.
  ghost predicate ForgetsOne(a: Maps, b: Maps, raw: string)
  {
    && b.cached == a.cached - {raw} && b.presented == a.presented - {raw} && b.pinned == a.pinned - {raw}
    && b.uriBy == a.uriBy - {raw}
    && b.deleted == (if raw in a.uriBy then a.deleted[raw := a.uriBy[raw]] else a.deleted)
    && b.idBy == (if raw in a.uriBy && a.uriBy[raw] in a.idBy && a.idBy[a.uriBy[raw]] == raw then a.idBy - {a.uriBy[raw]} else a.idBy)
  }

  lemma ForgetOneSet(m: Maps, done: set<string>, raw: string)
    requires raw !in done
    ensures var a, b := Forget(m, done), Forget(m, done + {raw});
            && b.cached == a.cached - {raw} && b.presented == a.presented - {raw} && b.pinned == a.pinned - {raw}
            && b.uriBy == a.uriBy - {raw}
  {
    assert m.uriBy - (done + {raw}) == m.uriBy - done - {raw};
  }

  lemma ForgetOneDeleted(m: Maps, done: set<string>, raw: string)
    requires raw !in done
    ensures var a, b := Forget(m, done), Forget(m, done + {raw});
            b.deleted == if raw in a.uriBy then a.deleted[raw := a.uriBy[raw]] else a.deleted
  {}

  lemma ForgetOneUri(m: Maps, done: set<string>, raw: string)
    requires raw !in done
    ensures var a, b := Forget(m, done), Forget(m, done + {raw});
            b.idBy == if raw in a.uriBy && a.uriBy[raw] in a.idBy && a.idBy[a.uriBy[raw]] == raw then a.idBy - {a.uriBy[raw]} else a.idBy
  {
    var a, b := Forget(m, done), Forget(m, done + {raw});
    forall u | u in m.idBy
      ensures u in b.idBy <==> u in a.idBy && !(m.idBy[u] == raw && raw in m.uriBy && m.uriBy[raw] == u)
    {}
  }

  lemma ForgetOne(m: Maps, done: set<string>, raw: string)
    requires raw !in done
    ensures ForgetsOne(Forget(m, done), Forget(m, done + {raw}), raw)
  {
    ForgetOneSet(m, done, raw);
    ForgetOneDeleted(m, done, raw);
    ForgetOneUri(m, done, raw);
  }

  // The store

  class RemoteStore {
    var uriByIdentifier: map<string, string>
    var identifierByURI: map<string, string>
    var deletedIdentityURIs: map<string, string>
    var cache: set<string>
    var presentedContainers: set<string>
    var pinnedIdentifiers: set<string>
    const canonical: Canonical

    ghost function View(): Maps
      reads this
    {
      Maps(uriByIdentifier, identifierByURI, deletedIdentityURIs, cache, presentedContainers, pinnedIdentifiers)
    }

    constructor Load(saved: map<string, string>, sortedKeys: seq<string>, canonical: Canonical)
      requires forall k :: k in sortedKeys <==> k in saved
      ensures this.canonical == canonical
      ensures View() == LoadSpec(saved, sortedKeys, canonical)
    {
      this.canonical := canonical;
      uriByIdentifier, identifierByURI, deletedIdentityURIs := map[], map[], map[];
      cache, presentedContainers, pinnedIdentifiers := {}, {}, {};
      new;
      for i := 0 to |sortedKeys|
        invariant this.canonical == canonical
        invariant View() == LoadSpec(saved, sortedKeys[..i], canonical)
      {
        var savedIdentifier := sortedKeys[i];
        assert sortedKeys[..i + 1][..i] == sortedKeys[..i];
        var identifier := CanonicalId(savedIdentifier);
        var uri := canonical(saved[savedIdentifier]);
        if uri !in identifierByURI {
          uriByIdentifier := uriByIdentifier[identifier := uri];
          identifierByURI := identifierByURI[uri := identifier];
        }
      }
      assert sortedKeys[..|sortedKeys|] == sortedKeys;
    }

    method RecordIdentity(identifier: string, rawUri: string)
      modifies this
      ensures View() == Record(old(View()), identifier, canonical(rawUri))
    {
      var uri := canonical(rawUri);
      if uri in identifierByURI && identifierByURI[uri] != identifier {
        return;
      }
      if identifier in uriByIdentifier && uriByIdentifier[identifier] == uri
        && uri in identifierByURI && identifierByURI[uri] == identifier && identifier !in deletedIdentityURIs {
        return;
      }
      if identifier in uriByIdentifier {
        var previousURI := uriByIdentifier[identifier];
        if previousURI in identifierByURI && identifierByURI[previousURI] == identifier {
          identifierByURI := identifierByURI - {previousURI};
        }
      }
      uriByIdentifier := uriByIdentifier[identifier := uri];
      identifierByURI := identifierByURI[uri := identifier];
      deletedIdentityURIs := deletedIdentityURIs - {identifier};
    }

    method CollectDoomed(identifiers: seq<string>) returns (doomed: set<string>)
      ensures doomed == Doomed(View(), identifiers)
    {
      doomed := set id | id in identifiers :: CanonicalId(id);
      for i := 0 to |identifiers|
        invariant doomed == (set id | id in identifiers :: CanonicalId(id)) + Below(View(), identifiers[..i])
      {
        var raw := CanonicalId(identifiers[i]);
        assert identifiers[..i + 1] == identifiers[..i] + [identifiers[i]];
        if raw in uriByIdentifier {
          var prefix := uriByIdentifier[raw] + "/";
          doomed := doomed + set other | other in uriByIdentifier && prefix <= uriByIdentifier[other];
        }
      }
      assert identifiers[..|identifiers|] == identifiers;
    }

    method EvictOne(raw: string, ghost start: Maps, ghost done: set<string>)
      requires View() == Forget(start, done) && raw !in done
      modifies this
      ensures View() == Forget(start, done + {raw})
    {
      ForgetOne(start, done, raw);
      cache := cache - {raw};
      presentedContainers := presentedContainers - {raw};
      pinnedIdentifiers := pinnedIdentifiers - {raw};
      if raw in uriByIdentifier {
        var uri := uriByIdentifier[raw];
        uriByIdentifier := uriByIdentifier - {raw};
        deletedIdentityURIs := deletedIdentityURIs[raw := uri];
        if uri in identifierByURI && identifierByURI[uri] == raw {
          identifierByURI := identifierByURI - {uri};
        }
      }
    }

    // Removes the items, everything below them, and nothing else.
    method EvictCachedItems(identifiers: seq<string>)
      modifies this
      ensures View() == Forget(old(View()), Doomed(old(View()), identifiers))
    {
      var doomed := CollectDoomed(identifiers);
      ghost var start := View();
      var todo := doomed;
      ghost var done: set<string> := {};
      assert Forget(start, {}) == start;
      while todo != {}
        invariant done + todo == doomed && done !! todo
        invariant View() == Forget(start, done)
        decreases todo
      {
        var raw :| raw in todo;
        assert raw !in done;
        todo := todo - {raw};
        EvictOne(raw, start, done);
        done := done + {raw};
      }
      assert done == doomed;
    }

    method MergeRecoveredIdentities(identities: seq<(string, string)>)
      modifies this
      ensures View() == Merge(old(View()), identities)
    {
      for i := 0 to |identities|
        invariant Merge(old(View()), identities) == Merge(View(), identities[i..])
      {
        var (identifier, uri) := identities[i];
        assert identities[i..][1..] == identities[i + 1..];
        if uri in identifierByURI && identifierByURI[uri] != identifier {
          continue;
        }
        if identifier in uriByIdentifier && uriByIdentifier[identifier] != uri {
          identifierByURI := identifierByURI - {uriByIdentifier[identifier]};
        }
        uriByIdentifier := uriByIdentifier[identifier := uri];
        identifierByURI := identifierByURI[uri := identifier];
      }
    }
  }
}
