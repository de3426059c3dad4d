/**
  The MicroGC heap of gc.cpp: the global `range` of allocated cells, the
  cleanup table, the single root, the mark-and-sweep `cycle` and the
  adaptive `help`.

  The file's globals (gc.cpp:16-18, 120-121) are the fields of one `Heap`
  object.  A `ptr` is a cell's address; `mem` maps each allocated address to
  the cell stored there, which is what dereferencing a `ptr`, or a reference
  field's value cast to `ptr`, reaches.  The ghost `fields` is the heap as
  the collector sees it: the live fields of every allocated cell.  The
  cleanup callbacks are not called: each call is appended to the ghost `log`.
 */
module Gc {
  import opened Store
  import opened Reach
  import opened SweepLog
  import opened Trigger
  import opened Cells
  import opened Marking

  class Heap {
    /** Every allocated cell, each once (`range`). */
    var range: seq<Ptr>
    /** The cell at each allocated address. */
    var mem: map<Ptr, Cell>
    /** The destructor of each scalar tag (`cleanups`). */
    var cleanups: seq<Callback>
    /** The single root (`root`); 0 is null. */
    var root: Ptr
    /** The collection threshold of `help` (`trigger`). */
    var trigger: nat
    /** Every cleanup call made so far, standing for the calls through `cleanups`. */
    ghost var log: seq<Call>
    /** The live fields of every allocated cell. */
    ghost var fields: View

    /** The heap is well formed and `fields` holds the live fields of every cell. */
    ghost predicate Valid()
      reads this`mem, this`range, this`fields, mem.Values, Buffers()
    {
      Shape() && Synced()
    }

    /**
      Every cell is well formed, no two addresses share a cell or a buffer,
      and `range` lists each allocated non-null address once.
     */
    ghost predicate Shape()
      reads this`mem, this`range, mem.Values
    {
      (forall a :: a in mem ==> mem[a].Valid()) &&
      Separate() &&
      0 !in mem &&
      Distinct(range) &&
      (forall a :: a in mem <==> a in range)
    }

    /** No two addresses share a cell or a buffer. */
    ghost predicate Separate()
      reads this`mem, mem.Values
    {
      forall a, b :: a in mem && b in mem && a != b ==>
        mem[a] != mem[b] &&
        mem[a].values != mem[b].values && mem[a].values != mem[b].types &&
        mem[a].types != mem[b].types
    }

    /** `fields` holds the live fields of every allocated cell. */
    ghost predicate Synced()
      reads this`mem, this`fields, mem.Values, Buffers()
    {
      fields.Keys == mem.Keys &&
      forall a :: a in mem ==> mem[a].Valid() && mem[a].Live() == fields[a]
    }

    /** The buffers of all allocated cells. */
    ghost function Buffers(): set<object>
      reads this`mem, mem.Values
    {
      (set a | a in mem :: mem[a].values as object) + (set a | a in mem :: mem[a].types as object)
    }

    /** The globals as the program starts: nothing allocated, no cleanups, a null root, `trigger = min_trigger`. */
    constructor ()
      ensures Valid() && fields == map[] && IsTrigger(trigger)
      ensures range == [] && mem == map[] && cleanups == [] && root == 0
      ensures trigger == MinTrigger && log == []
    {
      range, mem, cleanups, root := [], map[], [], 0;
      trigger := MinTrigger;
      log, fields := [], map[];
    }

    /**
      A field operation on the cell at `p` keeps the heap well formed: when
      that cell is still well formed, its buffer is its old one or a new one,
      every other cell and buffer is untouched and `fields` records the
      cell's new live fields, the heap is valid again.
     */
    twostate lemma CellWritten(p: Ptr)
      requires old(Valid()) && p in old(mem)
      requires mem == old(mem) && range == old(range)
      requires forall q :: q in old(mem) && q != p ==> unchanged(old(mem[q]))
      requires forall o :: o in old(Buffers()) ==>
        o == old(mem[p].values) || o == old(mem[p].types) || unchanged(o)
      requires mem[p].values == old(mem[p].values) || fresh(mem[p].values)
      requires mem[p].types == old(mem[p].types) || fresh(mem[p].types)
      requires mem[p].Valid() && fields == old(fields)[p := mem[p].Live()]
      ensures Valid()
    {
      forall q | q in mem && q != p
        ensures unchanged(mem[q]) && unchanged(mem[q].values) && unchanged(mem[q].types)
      {
        var cell, before := mem[q], old(mem[p]);
        assert old(cell.values) in old(Buffers()) && old(cell.types) in old(Buffers());
        assert old(cell.values != before.values && cell.values != before.types);
        assert old(cell.types != before.values && cell.types != before.types);
      }
      assert Separate();
    }

    /**
      Appending a new empty cell at an unused non-null address keeps the heap
      well formed, when no existing cell or buffer changed.
     */
    twostate lemma Allocated(a: Ptr)
      requires old(Valid()) && a != 0 && a !in old(mem) && a in mem
      requires mem == old(mem)[a := mem[a]] && range == old(range) + [a] && fields == old(fields)[a := []]
      requires fresh(mem[a]) && fresh(mem[a].values) && fresh(mem[a].types)
      requires mem[a].Valid() && mem[a].Live() == []
      requires forall q :: q in old(mem) ==> unchanged(old(mem[q]))
      requires forall o :: o in old(Buffers()) ==> unchanged(o)
      ensures Valid()
    {
      forall q | q in old(mem)
        ensures unchanged(mem[q].values) && unchanged(mem[q].types)
      {
        assert old(mem[q].values) in old(Buffers()) && old(mem[q].types) in old(Buffers());
      }
      assert Distinct(range) by {
        assert forall i :: 0 <= i < |old(range)| ==> old(range)[i] != a;
      }
    }

    /**
      `alloc` (gc.cpp:21-27): a new empty cell at address `a`, appended to
      `range`; no earlier cell changes, and a heap that was safe to trace
      stays so.  `a` is the address `new` returns: any
      non-null address not in use.
     */
    method Alloc(a: Ptr) returns (p: Ptr)
      requires Valid() && a != 0 && a !in mem
      modifies this`mem, this`range, this`fields
      ensures Valid() && p == a && range == old(range) + [p]
      ensures fresh(mem[p]) && forall q :: q in old(mem) ==> mem[q] == old(mem[q])
      ensures fresh(mem[p].values) && fresh(mem[p].types) && mem[p].n == 0 && mem[p].c == 0
      ensures fields == old(fields)[p := []]
      ensures Traceable(old(fields), root) ==> Traceable(fields, root)
    {
      var cell := new Cell();
      mem := mem[a := cell];
      fields := fields[a := []];
      range := range + [a];
      p := a;
      Allocated(a);
      if Traceable(old(fields), root) {
        AllocKeepsTraceable(old(fields), root, a);
      }
    }

    /**
      `push_field` (gc.cpp:52-56) on the cell at `p`: that cell gains the
      field (`t`, `v`) after its last one; no other cell changes.
     */
    method PushField(p: Ptr, t: Tag, v: Value)
      requires Valid() && p in mem
      modifies this`fields, mem[p], mem[p].values, mem[p].types
      ensures Valid() && fields == old(fields)[p := old(fields[p]) + [Field(t, v)]]
      ensures mem[p].values == old(mem[p].values) || fresh(mem[p].values)
      ensures mem[p].types == old(mem[p].types) || fresh(mem[p].types)
    {
      var cell := mem[p];
      cell.PushField(t, v);
      fields := fields[p := cell.Live()];
      CellWritten(p);
    }

    /**
      `resize` (gc.cpp:29-38) on the cell at `p`, with the copy corrected to
      the smaller size: that cell has `size` fields, of which those both
      sizes have keep their values; no other cell changes.
     */
    method Resize(p: Ptr, size: nat)
      requires Valid() && p in mem
      modifies this`fields, mem[p]
      ensures Valid() && fields.Keys == old(fields).Keys && |fields[p]| == size
      ensures fields[p][..ResizeCopy(size, |old(fields[p])|)] == old(fields[p])[..ResizeCopy(size, |old(fields[p])|)]
      ensures forall q :: q in fields && q != p ==> fields[q] == old(fields[q])
      ensures fresh(mem[p].values) && fresh(mem[p].types)
    {
      var cell := mem[p];
      cell.Resize(size);
      fields := fields[p := cell.Live()];
      CellWritten(p);
    }

    /** `pop_field` (gc.cpp:58-59) on the cell at `p`, which must have a field: its last field is dropped. */
    method PopField(p: Ptr)
      requires Valid() && p in mem && fields[p] != []
      modifies this`fields, mem[p]
      ensures Valid() && fields == old(fields)[p := old(fields[p])[..|old(fields[p])| - 1]]
      ensures mem[p].values == old(mem[p].values) && mem[p].types == old(mem[p].types)
    {
      var cell := mem[p];
      ghost var before := fields[p];
      assert |before| == cell.n;
      cell.PopField();
      assert cell.Live() == before[..|before| - 1];
      fields := fields[p := cell.Live()];
      CellWritten(p);
    }

    /**
      `set_field` (gc.cpp:61-63) on slot `i` of the cell at `p`: a live
      field `i` becomes (`t`, `v`); a slot past the live fields changes no
      field.  The slot must be inside the buffer.
     */
    method SetField(p: Ptr, i: nat, t: Tag, v: Value)
      requires Valid() && p in mem && i < mem[p].c
      modifies this`fields, mem[p].values, mem[p].types
      ensures Valid()
      ensures fields == old(fields)[p := if i < |old(fields[p])| then old(fields[p])[i := Field(t, v)] else old(fields[p])]
    {
      var cell := mem[p];
      cell.SetField(i, t, v);
      fields := fields[p := cell.Live()];
      CellWritten(p);
    }

    /** `set_type` (gc.cpp:65-69) on slot `i` of the cell at `p`: a live field `i` takes tag `t` and keeps its value. */
    method SetType(p: Ptr, i: nat, t: Tag)
      requires Valid() && p in mem && i < mem[p].c
      modifies this`fields, mem[p].types
      ensures Valid()
      ensures fields == old(fields)[p := if i < |old(fields[p])| then old(fields[p])[i := Field(t, old(fields[p])[i].value)] else old(fields[p])]
    {
      var cell := mem[p];
      cell.SetType(i, t);
      fields := fields[p := cell.Live()];
      CellWritten(p);
    }

    /** `set_value` (gc.cpp:71-72) on slot `i` of the cell at `p`: a live field `i` takes value `v` and keeps its tag. */
    method SetValue(p: Ptr, i: nat, v: Value)
      requires Valid() && p in mem && i < mem[p].c
      modifies this`fields, mem[p].values
      ensures Valid()
      ensures fields == old(fields)[p := if i < |old(fields[p])| then old(fields[p])[i := Field(old(fields[p])[i].tag, v)] else old(fields[p])]
    {
      var cell := mem[p];
      cell.SetValue(i, v);
      fields := fields[p := cell.Live()];
      CellWritten(p);
    }

    /** `set_root` (gc.cpp:80-81): the root becomes `p`. */
    method SetRoot(p: Ptr)
      modifies this`root
      ensures root == p
    {
      root := p;
    }

    /**
      `set_cleanup` (gc.cpp:83-86): the table grows with null entries to hold
      index `tag`, and entry `tag` becomes `f`; no other entry changes.  The
      size `tag + 1` must not wrap around to 0.
     */
    method SetCleanup(tag: u64, f: Callback)
      requires tag + 1 < WordLimit
      modifies this`cleanups
      ensures |cleanups| == if |old(cleanups)| < tag + 1 then tag + 1 else |old(cleanups)|
      ensures cleanups[tag] == f
      ensures forall k :: 0 <= k < |old(cleanups)| && k != tag ==> cleanups[k] == old(cleanups)[k]
      ensures forall k :: |old(cleanups)| <= k < |cleanups| && k != tag ==> cleanups[k] == NoCallback
    {
      if |cleanups| < tag + 1 {
        cleanups := cleanups + seq(tag + 1 - |cleanups|, _ => NoCallback);
      }
      cleanups := cleanups[tag := f];
    }

    /**
      The mark phase of `cycle` (gc.cpp:89-104): a depth-first walk with an
      explicit stack from the root that expands each cell once, pushing the
      non-null values of its reference fields.  It finds exactly the cells
      reachable from the root, and none when the root is null.
     */
    method Mark() returns (s: set<Ptr>)
      requires Synced() && Traceable(fields, root)
      ensures s == Reached(fields, root)
    {
      ghost var v := fields;
      s := {};
      if root != 0 {
        var stack := [root];
        MarkStart(v, root);
        while stack != []
          invariant MarkInv(v, root, s, stack)
          decreases v.Keys - s, |stack|
        {
          var p := stack[|stack| - 1];
          if p in s {
            MarkSkip(v, root, s, stack);
            stack := stack[..|stack| - 1];
            continue;
          }
          MarkExpand(v, root, s, stack);
          s := s + {p};
          stack := mem[p].PushTargets(stack[..|stack| - 1]);
        }
        MarkDone(v, root, s);
      }
    }

    /**
      Dropping the cells outside `s` from `mem` and `fields`, with `range`
      listing the remaining addresses once each, keeps the heap well formed,
      when no cell or buffer changed.
     */
    twostate lemma Freed(s: set<Ptr>)
      requires old(Valid())
      requires mem.Keys == old(mem).Keys * s && forall a :: a in mem ==> mem[a] == old(mem[a])
      requires fields == Restrict(old(fields), s)
      requires Distinct(range) && forall a :: a in range <==> a in mem
      requires forall q :: q in old(mem) ==> unchanged(old(mem[q]))
      requires forall o :: o in old(Buffers()) ==> unchanged(o)
      ensures Valid()
    {
      forall q | q in mem
        ensures unchanged(mem[q].values) && unchanged(mem[q].types)
      {
        assert old(mem[q].values) in old(Buffers()) && old(mem[q].types) in old(Buffers());
      }
    }

    /**
      The sweep phase of `cycle` (gc.cpp:105-118): every cell of `range` outside
      `s` has the cleanup of each scalar field called on its value and is
      freed; `range` keeps exactly the cells in `s`, in their old order, and
      their fields are untouched.
     */
    method Sweep(s: set<Ptr>)
      requires Synced() && Distinct(range) && (forall a :: a in mem <==> a in range)
      requires CanClean(fields, s, cleanups)
      modifies this`range, this`mem, this`fields, this`log
      ensures Distinct(range) && forall a :: a in range <==> a in old(range) && a in s
      ensures mem.Keys == old(mem).Keys * s && forall a :: a in mem ==> mem[a] == old(mem[a])
      ensures fields == Restrict(old(fields), s)
      ensures log == old(log) + SweepCalls(old(range), s, old(fields))
    {
      var kept, live, calls := SweepCells(range, mem, fields, s, cleanups);
      range, mem := kept, live;
      fields := Restrict(fields, s);
      log := log + calls;
    }

    /**
      The effect of one collection: `range` keeps exactly the cells that were
      reachable from the root, `fields` loses
      every other cell; and the log gains the cleanup calls of the sweep.
     */
    twostate predicate Collected()
      reads this`range, this`fields, this`log, this`root
    {
      (forall a :: a in range <==> a in old(range) && a in Reached(old(fields), root)) &&
      fields == Restrict(old(fields), Reached(old(fields), root)) &&
      log == old(log) + SweepCalls(old(range), Reached(old(fields), root), old(fields))
    }

    /**
      `cycle` (gc.cpp:88-118): frees exactly the cells not reachable from the
      root, calling the cleanups of their scalar fields; a surviving cell
      stays the same object.  Afterwards every remaining cell is reachable
      and tracing stays safe, so a second collection right away would free
      nothing, keep every field and call no cleanup.
     */
    method Cycle()
      requires Valid() && Traceable(fields, root)
      requires CanClean(fields, Reached(fields, root), cleanups)
      modifies this`range, this`mem, this`fields, this`log
      ensures Valid() && Traceable(fields, root) && Collected()
      ensures forall a :: a in range ==> a in Reached(fields, root)
      ensures forall a :: a in mem ==> mem[a] == old(mem[a])
      ensures CanClean(fields, Reached(fields, root), cleanups)
      ensures Restrict(fields, Reached(fields, root)) == fields
      ensures SweepCalls(range, Reached(fields, root), fields) == []
    {
      var s := Mark();
      ReachedAfterFree(fields, root);
      Sweep(s);
      Freed(s);
      assert fields.Keys <= s;
      RestrictAll(fields, s);
      CanCleanAll(fields, s, cleanups);
      SweepCallsNone(range, s, fields);
    }

    /**
      The threshold update at the end of `help` (gc.cpp:126-129): doubled
      when more than half of it survived, halved when fewer than a quarter
      survived and it is above `min_trigger`.
     */
    method AdaptTrigger()
      requires Valid() && IsTrigger(trigger)
      modifies this`trigger
      ensures Valid() && trigger == Adapt(old(trigger), |range|)
    {
      if |range| > trigger / 2 {
        trigger := trigger * 2;
      } else if |range| < trigger / 4 && trigger > MinTrigger {
        trigger := trigger / 2;
      }
    }

    /**
      `help` (gc.cpp:123-129): collects only when more cells than the
      threshold are allocated, then adapts the threshold to the survivors.
      Only a collection traces and cleans, so only then must tracing be
      safe and the cleanups of unreached cells registered.
     */
    method Help()
      requires Valid() && IsTrigger(trigger)
      requires |range| > trigger ==> Traceable(fields, root) && CanClean(fields, Reached(fields, root), cleanups)
      modifies this`range, this`mem, this`fields, this`log, this`trigger
      ensures Valid() && IsTrigger(trigger)
      ensures old(|range|) > old(trigger) || old(Traceable(fields, root)) ==> Traceable(fields, root)
      ensures forall a :: a in mem ==> a in old(mem) && mem[a] == old(mem[a])
      ensures old(|range|) <= old(trigger) ==>
        range == old(range) && mem == old(mem) && fields == old(fields) &&
        log == old(log) && trigger == old(trigger)
      ensures old(|range|) > old(trigger) ==> Collected() && trigger == Adapt(old(trigger), |range|)
    {
      if |range| > trigger {
        Cycle();
        AdaptTrigger();
      }
    }
  }

  /**
    The loop of the sweep (gc.cpp:105-117) over the cells `rs` at the
    addresses `m` maps, whose live fields `v` holds: a cell outside `s` has
    its scalar fields cleaned and leaves `m`; a cell in `s` is kept, in
    order.  The cleanup calls made are returned.
   */
  method SweepCells(rs: seq<Ptr>, m: map<Ptr, Cell>, ghost v: View, s: set<Ptr>, cleanups: seq<Callback>)
    returns (kept: seq<Ptr>, live: map<Ptr, Cell>, ghost calls: seq<Call>)
    requires Distinct(rs) && (forall a :: a in rs ==> a in m)
    requires forall a :: a in m ==> a in v && m[a].Valid() && m[a].Live() == v[a]
    requires CanClean(v, s, cleanups)
    ensures Distinct(kept) && forall a :: a in kept <==> a in rs && a in s
    ensures forall a :: a in live <==> a in m && (a in s || a !in rs)
    ensures forall a :: a in live ==> live[a] == m[a]
    ensures calls == SweepCalls(rs, s, v)
  {
    kept, live, calls := [], m, [];
    var i := 0;
    while i < |rs|
      invariant i <= |rs|
      invariant Distinct(kept) && forall a :: a in kept <==> a in rs[..i] && a in s
      invariant forall a :: a in live <==> a in m && (a in s || a !in rs[..i])
      invariant forall a :: a in live ==> live[a] == m[a]
      invariant calls == SweepCalls(rs[..i], s, v)
    {
      var p := rs[i];
      assert rs[..i + 1][..i] == rs[..i];
      assert p !in rs[..i];
      if p !in s {
        var cellCalls := m[p].Cleanup(p, cleanups);
        calls := calls + cellCalls;
        live := live - {p};
      } else {
        kept := kept + [p];
      }
      i := i + 1;
    }
    assert rs[..i] == rs;
  }
}
