/**
  The mark phase of `cycle` (gc.cpp:89-104) on a heap snapshot: the stack
  starts with the root; a popped cell already marked is skipped, otherwise
  it is marked and the non-null values of its reference fields are pushed.
  `MarkInv` is what holds between steps, and the lemmas below show that each
  step keeps it and that it pins the marked set down to the reached cells
  once the stack is empty.
 */
module Marking {
  import opened Store
  import opened Reach

  /** What expanding a cell pushes: the non-null values of its reference fields, in field order. */
  function Targets(fs: seq<Field>): seq<Ptr>
    decreases |fs|
  {
    if fs == [] then []
    else
      var k := |fs| - 1;
      Targets(fs[..k]) + (if fs[k].tag == RefTag && fs[k].value != 0 then [fs[k].value] else [])
  }

  /** A cell pushes exactly the cells it points at. */
  lemma {:induction false} TargetsAreSucc(fs: seq<Field>, y: Ptr)
    ensures y in Targets(fs) <==> y in Succ(fs)
    decreases |fs|
  {
    if fs != [] {
      var k := |fs| - 1;
      TargetsAreSucc(fs[..k], y);
      assert fs == fs[..k] + [fs[k]];
      if y in Succ(fs) && y !in Succ(fs[..k]) {
        var f: Field :| f in fs && f.tag == RefTag && f.value != 0 && f.value == y;
        assert f == fs[k];
      }
      if y in Succ(fs[..k]) {
        var f: Field :| f in fs[..k] && f.tag == RefTag && f.value != 0 && f.value == y;
        assert f in fs;
      }
    }
  }

  /**
    Between two steps of the mark loop with marked set `s`: every marked cell
    is allocated and reachable, every stacked cell is reachable, the root is
    marked or stacked, and every cell a marked cell points at is marked or
    stacked.
   */
  ghost predicate MarkInv(v: View, r: Ptr, s: set<Ptr>, stack: seq<Ptr>)
  {
    s <= v.Keys &&
    (forall x :: x in s ==> Reaches(v, r, x)) &&
    (forall k :: 0 <= k < |stack| ==> Reaches(v, r, stack[k])) &&
    (r in s || r in stack) &&
    (forall x, y :: x in s && y in Succ(v[x]) ==> y in s || y in stack)
  }

  /** The loop starts with nothing marked and the root on the stack. */
  lemma MarkStart(v: View, r: Ptr)
    ensures MarkInv(v, r, {}, [r])
  {
    assert IsPath(v, [r]);
  }

  /** Popping a cell that is already marked keeps the invariant. */
  lemma MarkSkip(v: View, r: Ptr, s: set<Ptr>, stack: seq<Ptr>)
    requires stack != [] && MarkInv(v, r, s, stack) && stack[|stack| - 1] in s
    ensures MarkInv(v, r, s, stack[..|stack| - 1])
  {
    var rest := stack[..|stack| - 1];
    forall x, y | x in s && y in Succ(v[x]) ensures y in s || y in rest {
      if y !in s {
        var k :| 0 <= k < |stack| && stack[k] == y;
        assert rest[k] == y;
      }
    }
    if r !in s {
      var k :| 0 <= k < |stack| && stack[k] == r;
      assert rest[k] == r;
    }
  }

  /**
    Popping an unmarked cell of a traceable snapshot, marking it and pushing
    its targets keeps the invariant; the cell is allocated, so the marked set
    grows inside the allocated cells.
   */
  lemma MarkExpand(v: View, r: Ptr, s: set<Ptr>, stack: seq<Ptr>)
    requires r != 0 && Traceable(v, r)
    requires stack != [] && MarkInv(v, r, s, stack) && stack[|stack| - 1] !in s
    ensures stack[|stack| - 1] in v
    ensures MarkInv(v, r, s + {stack[|stack| - 1]}, stack[..|stack| - 1] + Targets(v[stack[|stack| - 1]]))
  {
    var p := stack[|stack| - 1];
    assert Reaches(v, r, p);
    var rest := stack[..|stack| - 1];
    var s' := s + {p};
    var stack' := rest + Targets(v[p]);
    forall k | 0 <= k < |stack'| ensures Reaches(v, r, stack'[k]) {
      if k < |rest| {
        assert stack'[k] == stack[k];
      } else {
        assert stack'[k] in Targets(v[p]);
        TargetsAreSucc(v[p], stack'[k]);
        ReachesStep(v, r, p, stack'[k]);
      }
    }
    assert r in s' || r in stack' by {
      if r !in s' {
        var k :| 0 <= k < |stack| && stack[k] == r;
        assert stack'[k] == r;
      }
    }
    forall x, y | x in s' && y in Succ(v[x]) ensures y in s' || y in stack' {
      if x == p {
        TargetsAreSucc(v[p], y);
      } else if y !in s' {
        var k :| 0 <= k < |stack| && stack[k] == y;
        assert stack'[k] == y;
      }
    }
  }

  /** When the stack is empty, the marked cells are exactly the cells reachable from the root. */
  lemma MarkDone(v: View, r: Ptr, s: set<Ptr>)
    requires r != 0 && Traceable(v, r) && MarkInv(v, r, s, [])
    ensures s == Reached(v, r)
  {
    forall x | Reaches(v, r, x) ensures x in s {
      ClosedHoldsReachable(v, r, s, x);
    }
  }
}
