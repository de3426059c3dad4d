/**
  Reachability in a heap snapshot: which cells the collector can reach from
  the root by following reference fields with a non-null value
  (gc.cpp:91-104).
 */
module Reach {
  import opened Store

  /** A snapshot of the heap: the live fields of every allocated cell. */
  type View = map<Ptr, seq<Field>>

  /** `path` is a walk in which every step follows a reference field of an allocated cell. */
  ghost predicate IsPath(v: View, path: seq<Ptr>)
  {
    |path| > 0 &&
    forall k :: 0 <= k < |path| - 1 ==> path[k] in v && path[k + 1] in Succ(v[path[k]])
  }

  /** Some walk leads from `r` to `x`. */
  ghost predicate Reaches(v: View, r: Ptr, x: Ptr)
  {
    exists path :: IsPath(v, path) && path[0] == r && path[|path| - 1] == x
  }

  /** The allocated cells reachable from the root `r`; nothing when the root is null. */
  ghost function Reached(v: View, r: Ptr): set<Ptr>
  {
    if r == 0 then {} else set x | x in v && Reaches(v, r, x)
  }

  /** Every cell reachable from a non-null root is allocated: tracing never follows a dangling pointer. */
  ghost predicate Traceable(v: View, r: Ptr)
  {
    r == 0 || forall x :: Reaches(v, r, x) ==> x in v
  }

  /** `S` holds only allocated cells and every reference out of it stays inside it. */
  ghost predicate Closed(v: View, S: set<Ptr>)
  {
    forall x :: x in S ==> x in v && Succ(v[x]) <= S
  }

  /** The snapshot with every cell outside `S` freed. */
  function Restrict(v: View, S: set<Ptr>): (w: View)
    ensures w.Keys == v.Keys * S
    ensures forall x :: x in w ==> w[x] == v[x]
  {
    map x | x in v && x in S :: v[x]
  }

  /** Freeing the cells outside a set that holds every allocated cell frees nothing. */
  lemma RestrictAll(v: View, S: set<Ptr>)
    requires v.Keys <= S
    ensures Restrict(v, S) == v
  {
  }

  /** A walk can be extended by one reference field. */
  lemma ReachesStep(v: View, r: Ptr, x: Ptr, y: Ptr)
    requires Reaches(v, r, x) && x in v && y in Succ(v[x])
    ensures Reaches(v, r, y)
  {
    var path :| IsPath(v, path) && path[0] == r && path[|path| - 1] == x;
    var longer := path + [y];
    assert IsPath(v, longer) by {
      forall k | 0 <= k < |longer| - 1
        ensures longer[k] in v && longer[k + 1] in Succ(v[longer[k]])
      {
        if k < |path| - 1 {
          assert longer[k] == path[k] && longer[k + 1] == path[k + 1];
        }
      }
    }
  }

  /** Every cell of a walk that starts in a closed set lies in that set. */
  lemma {:induction false} PathStaysIn(v: View, S: set<Ptr>, path: seq<Ptr>, k: nat)
    requires IsPath(v, path) && path[0] in S && Closed(v, S) && k < |path|
    ensures path[k] in S
  {
    if k > 0 {
      PathStaysIn(v, S, path, k - 1);
    }
  }

  /** A closed set that holds the root holds everything reachable from it. */
  lemma ClosedHoldsReachable(v: View, r: Ptr, S: set<Ptr>, x: Ptr)
    requires r in S && Closed(v, S) && Reaches(v, r, x)
    ensures x in S
  {
    var path :| IsPath(v, path) && path[0] == r && path[|path| - 1] == x;
    PathStaysIn(v, S, path, |path| - 1);
  }

  /**
    The reached set of a traceable snapshot is the least closed set holding the
    root: it holds the root, is closed, and lies inside every closed set that
    holds the root.
   */
  lemma ReachedIsLeastClosed(v: View, r: Ptr, S: set<Ptr>)
    requires r != 0 && Traceable(v, r)
    ensures r in Reached(v, r) && Closed(v, Reached(v, r))
    ensures r in S && Closed(v, S) ==> Reached(v, r) <= S
  {
    var R := Reached(v, r);
    assert IsPath(v, [r]);
    forall x | x in R ensures Succ(v[x]) <= R {
      forall y | y in Succ(v[x]) ensures y in R {
        ReachesStep(v, r, x, y);
      }
    }
    if r in S && Closed(v, S) {
      forall x | x in R ensures x in S {
        ClosedHoldsReachable(v, r, S, x);
      }
    }
  }

  /** A walk in a snapshot with some cells freed is a walk in the full snapshot. */
  lemma RestrictedPath(v: View, S: set<Ptr>, path: seq<Ptr>)
    requires IsPath(Restrict(v, S), path)
    ensures IsPath(v, path)
  {
    var w := Restrict(v, S);
    forall k | 0 <= k < |path| - 1 ensures path[k] in v && path[k + 1] in Succ(v[path[k]]) {
      assert path[k] in w && w[path[k]] == v[path[k]];
    }
  }

  /**
    Freeing every unreached cell changes nothing about reachability: the
    cells reachable afterwards are exactly the survivors, and tracing still
    never meets a dangling pointer.
   */
  lemma ReachedAfterFree(v: View, r: Ptr)
    requires Traceable(v, r)
    ensures Reached(Restrict(v, Reached(v, r)), r) == Reached(v, r)
    ensures Traceable(Restrict(v, Reached(v, r)), r)
  {
    var R := Reached(v, r);
    var w := Restrict(v, R);
    if r != 0 {
      ReachedIsLeastClosed(v, r, R);
      forall x | x in R ensures x in Reached(w, r) {
        var path :| IsPath(v, path) && path[0] == r && path[|path| - 1] == x;
        forall k | 0 <= k < |path| ensures path[k] in R {
          PathStaysIn(v, R, path, k);
        }
        assert IsPath(w, path) by {
          forall k | 0 <= k < |path| - 1 ensures path[k] in w && path[k + 1] in Succ(w[path[k]]) {
            assert path[k] in R;
          }
        }
      }
      forall x | Reaches(w, r, x) ensures x in w {
        var path :| IsPath(w, path) && path[0] == r && path[|path| - 1] == x;
        RestrictedPath(v, R, path);
      }
    }
  }

  /**
    Allocating a cell that nothing points at keeps tracing safe: a fresh
    address was not reachable, so no walk from the root can enter it.
   */
  lemma AllocKeepsTraceable(v: View, r: Ptr, a: Ptr)
    requires Traceable(v, r) && a !in v
    ensures Traceable(v[a := []], r)
  {
    var w := v[a := []];
    if r != 0 {
      forall x | Reaches(w, r, x) ensures x in w {
        var path :| IsPath(w, path) && path[0] == r && path[|path| - 1] == x;
        assert IsPath(v, path) by {
          forall k | 0 <= k < |path| - 1 ensures path[k] in v && path[k + 1] in Succ(v[path[k]]) {
            assert path[k + 1] in Succ(w[path[k]]);
            assert path[k] != a;
          }
        }
      }
    }
  }
}
