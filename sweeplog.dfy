/**
  The cleanup calls a sweep makes (gc.cpp:105-117).  Every unreached cell
  has `cleanups[t]` called on the value of each of its fields whose tag `t`
  is not the reference tag; a reached cell is left alone.  A call is
  recorded with the cell and field it came from, so that "exactly once per
  field" can be stated.
 */
module SweepLog {
  import opened Store
  import opened Reach

  /** `cleanups[tag](value)` called for field `index` of cell `cell`. */
  datatype Call = Call(cell: Ptr, index: nat, tag: Tag, value: Value)

  /** The calls made while freeing cell `p` with live fields `fs`, in field order. */
  function CellCalls(p: Ptr, fs: seq<Field>): seq<Call>
    decreases |fs|
  {
    if fs == [] then []
    else
      var k := |fs| - 1;
      CellCalls(p, fs[..k]) +
      (if fs[k].tag != RefTag then [Call(p, k, fs[k].tag, fs[k].value)] else [])
  }

  /** The calls made by sweeping the cells `rs` in order, keeping those in `s`. */
  function SweepCalls(rs: seq<Ptr>, s: set<Ptr>, v: View): seq<Call>
    decreases |rs|
  {
    if rs == [] then []
    else
      var k := |rs| - 1;
      SweepCalls(rs[..k], s, v) +
      (if rs[k] !in s && rs[k] in v then CellCalls(rs[k], v[rs[k]]) else [])
  }

  /** No field of any cell is cleaned twice. */
  ghost predicate OncePerField(log: seq<Call>)
  {
    forall i, j :: 0 <= i < j < |log| ==> log[i].cell != log[j].cell || log[i].index != log[j].index
  }

  /** Cleanup is possible for every scalar field of every cell outside `s`. */
  ghost predicate CanClean(v: View, s: set<Ptr>, cleanups: seq<Callback>)
  {
    forall a :: a in v && a !in s ==>
      forall f :: f in v[a] && f.tag != RefTag ==> Registered(cleanups, f.tag)
  }

  /** When every allocated cell is kept, no cleanup needs to be possible. */
  lemma CanCleanAll(v: View, s: set<Ptr>, cleanups: seq<Callback>)
    requires v.Keys <= s
    ensures CanClean(v, s, cleanups)
  {
  }

  /**
    Freeing one cell calls a cleanup for exactly its scalar fields: a call is
    made iff it names a field of that cell whose tag is not the reference tag,
    with that field's tag and value.
   */
  lemma {:induction false} CellCallsExact(p: Ptr, fs: seq<Field>, call: Call)
    ensures call in CellCalls(p, fs) <==>
      call.cell == p && call.index < |fs| && call.tag != RefTag &&
      fs[call.index] == Field(call.tag, call.value)
    decreases |fs|
  {
    if fs != [] {
      var k := |fs| - 1;
      CellCallsExact(p, fs[..k], call);
    }
  }

  /** The calls for one cell follow its fields in strictly increasing order. */
  lemma {:induction false} CellCallsIncreasing(p: Ptr, fs: seq<Field>)
    ensures forall i, j :: 0 <= i < j < |CellCalls(p, fs)| ==>
      CellCalls(p, fs)[i].index < CellCalls(p, fs)[j].index
    decreases |fs|
  {
    if fs != [] {
      var k := |fs| - 1;
      CellCallsIncreasing(p, fs[..k]);
      forall c | c in CellCalls(p, fs[..k]) ensures c.index < k {
        CellCallsExact(p, fs[..k], c);
      }
    }
  }

  /**
    A sweep calls a cleanup exactly for the scalar fields of the unreached
    cells it visits: never for a reached cell, never for a reference field.
   */
  lemma {:induction false} SweepCallsExact(rs: seq<Ptr>, s: set<Ptr>, v: View, call: Call)
    ensures call in SweepCalls(rs, s, v) <==>
      call.cell in rs && call.cell !in s && call.cell in v &&
      call in CellCalls(call.cell, v[call.cell])
    decreases |rs|
  {
    if rs != [] {
      var k := |rs| - 1;
      SweepCallsExact(rs[..k], s, v, call);
      if call.cell in rs && call.cell != rs[k] {
        var i :| 0 <= i < |rs| && rs[i] == call.cell;
        assert rs[..k][i] == call.cell;
      }
      if rs[k] in v && call in CellCalls(rs[k], v[rs[k]]) {
        CellCallsExact(rs[k], v[rs[k]], call);
      }
    }
  }

  /** Sweeping distinct cells cleans every field at most once. */
  lemma {:induction false} SweepCallsOnce(rs: seq<Ptr>, s: set<Ptr>, v: View)
    requires Distinct(rs)
    ensures OncePerField(SweepCalls(rs, s, v))
    decreases |rs|
  {
    if rs != [] {
      var k := |rs| - 1;
      var front := SweepCalls(rs[..k], s, v);
      var back := if rs[k] !in s && rs[k] in v then CellCalls(rs[k], v[rs[k]]) else [];
      SweepCallsOnce(rs[..k], s, v);
      if back != [] {
        CellCallsIncreasing(rs[k], v[rs[k]]);
      }
      forall i | 0 <= i < |front| ensures front[i].cell != rs[k] {
        SweepCallsExact(rs[..k], s, v, front[i]);
      }
      forall j | 0 <= j < |back| ensures back[j].cell == rs[k] {
        CellCallsExact(rs[k], v[rs[k]], back[j]);
      }
      OnceAppend(front, back, rs[k]);
    }
  }

  /**
    Appending the calls of one cell, in increasing field order, to calls
    about other cells only keeps every field cleaned at most once.
   */
  lemma OnceAppend(front: seq<Call>, back: seq<Call>, p: Ptr)
    requires OncePerField(front) && forall i :: 0 <= i < |front| ==> front[i].cell != p
    requires forall j :: 0 <= j < |back| ==> back[j].cell == p
    requires forall i, j :: 0 <= i < j < |back| ==> back[i].index < back[j].index
    ensures OncePerField(front + back)
  {
    var log := front + back;
    forall i, j | 0 <= i < j < |log| ensures log[i].cell != log[j].cell || log[i].index != log[j].index {
      if i >= |front| {
        assert log[i] == back[i - |front|];
        assert log[j] == back[j - |front|];
      } else if j >= |front| {
        assert log[i] == front[i];
        assert log[j] == back[j - |front|];
      }
    }
  }

  /** Sweeping cells that are all reached calls no cleanup. */
  lemma {:induction false} SweepCallsNone(rs: seq<Ptr>, s: set<Ptr>, v: View)
    requires forall i :: 0 <= i < |rs| ==> rs[i] in s
    ensures SweepCalls(rs, s, v) == []
    decreases |rs|
  {
    if rs != [] {
      SweepCallsNone(rs[..|rs| - 1], s, v);
    }
  }
}
