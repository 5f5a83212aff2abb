// The loop both shortcut resolvers run: rewrite until nothing redirects, a
// limited number of times, refusing to visit an address twice.
module Redirects {
  datatype Rewritten<T> = Fixed | To(next: T) | Bad(reason: string)

  type Rewrite<!T> = T -> Rewritten<T>

  datatype Outcome<T> = Resolved(uri: T) | Circular | Failed(reason: string) | TooMany

  function ResolveFrom<T>(rewrite: Rewrite<T>, current: T, visited: set<T>, fuel: nat): Outcome<T>
    decreases fuel
  {
    if fuel == 0 then TooMany
    else if current in visited then Circular
    else
      match rewrite(current)
      case Fixed => Resolved(current)
      case To(next) => ResolveFrom(rewrite, next, visited + {current}, fuel - 1)
      case Bad(reason) => Failed(reason)
  }

  // n rewrites lead from u to v.
  ghost predicate Leads<T(!new)>(rewrite: Rewrite<T>, u: T, n: nat, v: T)
    decreases n
  {
    if n == 0 then u == v else rewrite(u).To? && Leads(rewrite, rewrite(u).next, n - 1, v)
  }

  // v is where rewriting u ends.
  ghost predicate EndsAt<T(!new)>(rewrite: Rewrite<T>, u: T, n: nat, v: T)
  {
    Leads(rewrite, u, n, v) && !rewrite(v).To?
  }

  // What is reported of an address that is rewritten no further.
  ghost function Ended<T>(rewrite: Rewrite<T>, v: T): Outcome<T>
    requires !rewrite(v).To?
  {
    if rewrite(v).Fixed? then Resolved(v) else Failed(rewrite(v).reason)
  }

  ghost predicate StillRewriting<T(!new)>(rewrite: Rewrite<T>, u: T, n: nat)
  {
    exists v :: Leads(rewrite, u, n, v) && rewrite(v).To?
  }

  ghost predicate NeverEnds<T(!new)>(rewrite: Rewrite<T>, u: T)
  {
    forall n: nat :: StillRewriting(rewrite, u, n)
  }

  lemma {:induction false} OutcomeIsEnd<T(!new)>(rewrite: Rewrite<T>, u: T, visited: set<T>, fuel: nat) returns (n: nat, v: T)
    requires var r := ResolveFrom(rewrite, u, visited, fuel); r.Resolved? || r.Failed?
    ensures n < fuel && EndsAt(rewrite, u, n, v) && ResolveFrom(rewrite, u, visited, fuel) == Ended(rewrite, v)
    decreases fuel
  {
    if rewrite(u).To? {
      n, v := OutcomeIsEnd(rewrite, rewrite(u).next, visited + {u}, fuel - 1);
      n := n + 1;
    } else {
      n, v := 0, u;
    }
  }

  lemma {:induction false} EndUnique<T(!new)>(rewrite: Rewrite<T>, u: T, n: nat, v: T, m: nat, w: T)
    requires EndsAt(rewrite, u, n, v) && EndsAt(rewrite, u, m, w)
    ensures n == m && v == w
    decreases n
  {
    if n != 0 && m != 0 {
      EndUnique(rewrite, rewrite(u).next, n - 1, v, m - 1, w);
    }
  }

  // An end within the limit is found: visited addresses lie further from it.
  lemma {:induction false} EndIsFound<T(!new)>(rewrite: Rewrite<T>, u: T, n: nat, v: T, visited: set<T>, fuel: nat)
    requires EndsAt(rewrite, u, n, v) && n < fuel
    requires forall w, m: nat :: w in visited && m <= n ==> !EndsAt(rewrite, w, m, v)
    ensures ResolveFrom(rewrite, u, visited, fuel) == Ended(rewrite, v)
    decreases n
  {
    assert u !in visited;
    if n != 0 {
      var next := rewrite(u).next;
      assert EndsAt(rewrite, next, n - 1, v);
      forall w, m: nat | w in visited + {u} && m <= n - 1 ensures !EndsAt(rewrite, w, m, v) {
        if w == u && EndsAt(rewrite, u, m, v) {
          EndUnique(rewrite, u, n, v, m, v);
        }
      }
      EndIsFound(rewrite, next, n - 1, v, visited + {u}, fuel - 1);
    }
  }

  // Every member is rewritten to a member.
  ghost predicate ClosedOrbit<T(!new)>(rewrite: Rewrite<T>, s: set<T>)
  {
    forall u :: u in s ==> rewrite(u).To? && rewrite(u).next in s
  }

  lemma {:induction false} OrbitStays<T(!new)>(rewrite: Rewrite<T>, s: set<T>, u: T, n: nat) returns (v: T)
    requires ClosedOrbit(rewrite, s) && u in s
    ensures v in s && Leads(rewrite, u, n, v)
    decreases n
  {
    if n == 0 {
      v := u;
    } else {
      v := OrbitStays(rewrite, s, rewrite(u).next, n - 1);
    }
  }

  lemma {:induction false} CircularHasOrbit<T(!new)>(rewrite: Rewrite<T>, u: T, visited: set<T>, fuel: nat) returns (s: set<T>)
    requires ResolveFrom(rewrite, u, visited, fuel) == Circular
    requires forall w :: w in visited ==> rewrite(w).To? && (rewrite(w).next in visited || rewrite(w).next == u)
    ensures ClosedOrbit(rewrite, s) && u in s && visited <= s
    decreases fuel
  {
    if u in visited {
      s := visited;
    } else {
      s := CircularHasOrbit(rewrite, rewrite(u).next, visited + {u}, fuel - 1);
    }
  }

  // The circular error is raised only when rewriting never ends.
  lemma CircularNeverEnds<T(!new)>(rewrite: Rewrite<T>, u: T, fuel: nat)
    requires ResolveFrom(rewrite, u, {}, fuel) == Circular
    ensures NeverEnds(rewrite, u)
  {
    var s := CircularHasOrbit(rewrite, u, {}, fuel);
    forall n: nat ensures StillRewriting(rewrite, u, n) {
      var v := OrbitStays(rewrite, s, u, n);
    }
  }

  // Fewer than `limit` rewrites lead from u to v.
  ghost predicate Arrives<T(!new)>(rewrite: Rewrite<T>, u: T, v: T, limit: nat)
  {
    exists n: nat :: n < limit && Leads(rewrite, u, n, v)
  }

  // A resolver answers v exactly when fewer than `limit` rewrites lead to v and
  // none leads on.
  lemma ResolvesExactly<T(!new)>(rewrite: Rewrite<T>, u: T, v: T, limit: nat)
    ensures ResolveFrom(rewrite, u, {}, limit) == Resolved(v) <==> Arrives(rewrite, u, v, limit) && rewrite(v).Fixed?
  {
    if ResolveFrom(rewrite, u, {}, limit) == Resolved(v) {
      var n, w := OutcomeIsEnd(rewrite, u, {}, limit);
      assert Arrives(rewrite, u, w, limit);
    }
    if Arrives(rewrite, u, v, limit) && rewrite(v).Fixed? {
      var n: nat :| n < limit && Leads(rewrite, u, n, v);
      EndIsFound(rewrite, u, n, v, {}, limit);
    }
  }

  // It fails for a reason exactly when fewer than `limit` rewrites lead to an
  // address that cannot be rewritten for that reason.
  lemma FailsExactly<T(!new)>(rewrite: Rewrite<T>, u: T, reason: string, limit: nat)
    ensures ResolveFrom(rewrite, u, {}, limit) == Failed(reason)
       <==> exists v :: Arrives(rewrite, u, v, limit) && rewrite(v) == Bad(reason)
  {
    if ResolveFrom(rewrite, u, {}, limit) == Failed(reason) {
      var n, w := OutcomeIsEnd(rewrite, u, {}, limit);
      assert Arrives(rewrite, u, w, limit);
    }
    if v :| Arrives(rewrite, u, v, limit) && rewrite(v) == Bad(reason) {
      var n: nat :| n < limit && Leads(rewrite, u, n, v);
      EndIsFound(rewrite, u, n, v, {}, limit);
    }
  }

  // n rewrites lead from u to v, which was visited before or fewer rewrites led to.
  ghost predicate ComesBack<T(!new)>(rewrite: Rewrite<T>, u: T, visited: set<T>, n: nat, v: T)
  {
    Leads(rewrite, u, n, v) && (v in visited || exists m: nat :: m < n && Leads(rewrite, u, m, v))
  }

  lemma {:induction false} CircularComesBack<T(!new)>(rewrite: Rewrite<T>, u: T, visited: set<T>, fuel: nat) returns (n: nat, v: T)
    requires ResolveFrom(rewrite, u, visited, fuel) == Circular
    ensures n < fuel && ComesBack(rewrite, u, visited, n, v)
    decreases fuel
  {
    if u in visited {
      n, v := 0, u;
    } else {
      var next := rewrite(u).next;
      n, v := CircularComesBack(rewrite, next, visited + {u}, fuel - 1);
      if v == u {
        assert Leads(rewrite, u, 0, v);
      } else if v !in visited {
        var m: nat :| m < n && Leads(rewrite, next, m, v);
        assert Leads(rewrite, u, m + 1, v);
      }
      n := n + 1;
    }
  }

  lemma {:induction false} ComingBackIsCircular<T(!new)>(rewrite: Rewrite<T>, u: T, visited: set<T>, fuel: nat, n: nat, v: T)
    requires n < fuel && ComesBack(rewrite, u, visited, n, v)
    ensures ResolveFrom(rewrite, u, visited, fuel) == Circular
    decreases n
  {
    if u !in visited {
      assert n != 0;
      var next := rewrite(u).next;
      if v !in visited && v != u {
        var m: nat :| m < n && Leads(rewrite, u, m, v);
        assert Leads(rewrite, next, m - 1, v);
      }
      ComingBackIsCircular(rewrite, next, visited + {u}, fuel - 1, n - 1, v);
    }
  }

  // Fewer than `limit` rewrites lead to an address that still fewer led to.
  ghost predicate Circles<T(!new)>(rewrite: Rewrite<T>, u: T, limit: nat)
  {
    exists n: nat, v :: n < limit && ComesBack(rewrite, u, {}, n, v)
  }

  // It reports a circle exactly then.
  lemma CircularExactly<T(!new)>(rewrite: Rewrite<T>, u: T, limit: nat)
    ensures ResolveFrom(rewrite, u, {}, limit) == Circular <==> Circles(rewrite, u, limit)
  {
    if ResolveFrom(rewrite, u, {}, limit) == Circular {
      var n, v := CircularComesBack(rewrite, u, {}, limit);
    }
    if Circles(rewrite, u, limit) {
      var n: nat, v :| n < limit && ComesBack(rewrite, u, {}, n, v);
      ComingBackIsCircular(rewrite, u, {}, limit, n, v);
    }
  }

  lemma {:induction false} TooManyLeads<T(!new)>(rewrite: Rewrite<T>, u: T, visited: set<T>, fuel: nat) returns (v: T)
    requires ResolveFrom(rewrite, u, visited, fuel) == TooMany
    ensures Leads(rewrite, u, fuel, v)
    decreases fuel
  {
    if fuel == 0 {
      v := u;
    } else {
      v := TooManyLeads(rewrite, rewrite(u).next, visited + {u}, fuel - 1);
    }
  }

  lemma {:induction false} NoEndBefore<T(!new)>(rewrite: Rewrite<T>, u: T, n: nat, v: T, m: nat, w: T)
    requires Leads(rewrite, u, n, v) && EndsAt(rewrite, u, m, w)
    ensures n <= m
    decreases n
  {
    if n != 0 && m != 0 {
      NoEndBefore(rewrite, rewrite(u).next, n - 1, v, m - 1, w);
    }
  }

  // n rewrites take place.
  ghost predicate Lasts<T(!new)>(rewrite: Rewrite<T>, u: T, n: nat)
  {
    exists v :: Leads(rewrite, u, n, v)
  }

  // It runs out of attempts exactly when `limit` rewrites take place and no address
  // on the way to the last comes twice.
  lemma TooManyExactly<T(!new)>(rewrite: Rewrite<T>, u: T, limit: nat)
    ensures ResolveFrom(rewrite, u, {}, limit) == TooMany
       <==> Lasts(rewrite, u, limit) && !Circles(rewrite, u, limit)
  {
    CircularExactly(rewrite, u, limit);
    var r := ResolveFrom(rewrite, u, {}, limit);
    if r == TooMany {
      var v := TooManyLeads(rewrite, u, {}, limit);
    } else if r != Circular && Lasts(rewrite, u, limit) {
      var v :| Leads(rewrite, u, limit, v);
      var n, w := OutcomeIsEnd(rewrite, u, {}, limit);
      NoEndBefore(rewrite, u, limit, v, n, w);
    }
  }

  // The same, with a name for what makes an address final.
  lemma ResolvesToSettled<T(!new)>(rewrite: Rewrite<T>, u: T, v: T, limit: nat, settled: bool)
    requires rewrite(v).Fixed? <==> settled
    ensures ResolveFrom(rewrite, u, {}, limit) == Resolved(v) <==> Arrives(rewrite, u, v, limit) && settled
  {
    ResolvesExactly(rewrite, u, v, limit);
  }

  // What one rewrite keeps, a resolution keeps.
  lemma {:induction false} KeyKept<T(!new), K(!new)>(rewrite: Rewrite<T>, key: T -> K, u: T, n: nat, v: T)
    requires forall w :: rewrite(w).To? ==> key(rewrite(w).next) == key(w)
    requires Leads(rewrite, u, n, v)
    ensures key(v) == key(u)
    decreases n
  {
    if n != 0 {
      KeyKept(rewrite, key, rewrite(u).next, n - 1, v);
    }
  }
}
