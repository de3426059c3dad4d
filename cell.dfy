/**
  One MicroGC cell (`struct cell`, gc.cpp:12-14) and the field operations on
  it (gc.cpp:29-78).  The source keeps a cell's fields in one buffer of
  `c * field_size` bytes: the `c` values first, then the `c` type tags.  Here
  the two halves of that buffer are two arrays of length `c`; a cell without
  a buffer (`p == 0`) has two empty arrays.  The receiver of each method is
  the cell that the source's `ptr p` argument points at.
 */
module Cells {
  import opened Store
  import opened Marking
  import opened SweepLog

  /**
    How many fields `resize` copies as written (gc.cpp:31, 35-37): none when
    the cell has no buffer, otherwise the larger of the new and the old size.
   */
  function ResizeCopyAsWritten(size: nat, oldN: nat, hasBuffer: bool): (k: nat)
    ensures !hasBuffer ==> k == 0
    ensures hasBuffer ==> k >= size && k >= oldN && (k == size || k == oldN)
  {
    if !hasBuffer then 0 else if size < oldN then oldN else size
  }

  /** How many fields a resize can copy: the smaller of the new and the old size. */
  function ResizeCopy(size: nat, oldN: nat): (k: nat)
    ensures k <= size && k <= oldN
    ensures k == size || k == oldN
  {
    if size < oldN then size else oldN
  }

  /**
    Copying `k` values and `k` tags stays inside both buffers: it writes no
    more than the `size` slots of the new buffer and reads no more than the
    `oldC` slots of the old one.
   */
  predicate CopyFits(k: nat, size: nat, oldC: nat)
  {
    k <= size && k <= oldC
  }

  /**
    The copy `resize` makes as written stays inside both buffers of a cell
    that has one only when the cell neither shrinks nor grows past its old
    capacity; shrinking such a cell writes past the end of the new buffer.
   */
  lemma ResizeAsWrittenOverruns(size: nat, oldN: nat, oldC: nat, hasBuffer: bool)
    requires oldN <= oldC
    ensures CopyFits(ResizeCopyAsWritten(size, oldN, hasBuffer), size, oldC) <==>
      !hasBuffer || oldN <= size <= oldC
    ensures hasBuffer && size < oldN ==> ResizeCopyAsWritten(size, oldN, hasBuffer) > size
  {
  }

  /** The copy of the smaller size always stays inside both buffers. */
  lemma ResizeCopyFits(size: nat, oldN: nat, oldC: nat)
    requires oldN <= oldC
    ensures CopyFits(ResizeCopy(size, oldN), size, oldC)
  {
  }

  class Cell {
    /** The number of live fields. */
    var n: nat
    /** The number of slots in the buffer. */
    var c: nat
    /** The value half of the buffer. */
    var values: array<Value>
    /** The type half of the buffer. */
    var types: array<Tag>

    /** At most `c` fields are live and both halves of the buffer hold `c` slots. */
    ghost predicate Valid()
      reads this
    {
      n <= c && values.Length == c && types.Length == c && values != types
    }

    /** The live fields, in index order. */
    ghost function Live(): seq<Field>
      reads this, values, types
      requires Valid()
    {
      Zip(types[..n], values[..n])
    }

    /** `new cell{ }` with `n = c = 0` and no buffer (gc.cpp:22-25). */
    constructor ()
      ensures Valid() && n == 0 && c == 0 && Live() == []
      ensures fresh(values) && fresh(types)
    {
      n, c := 0, 0;
      values := new Value[0];
      types := new Tag[0];
    }

    /**
      `grow` (gc.cpp:40-47): a new buffer twice as large, or of 2 slots when
      the cell had none, holding the same live fields.
     */
    method Grow()
      requires Valid()
      modifies this
      ensures Valid() && n == old(n)
      ensures c == if old(c) == 0 then 2 else 2 * old(c)
      ensures fresh(values) && fresh(types)
      ensures Live() == old(Live())
    {
      var cap := if c == 0 then 2 else 2 * c;
      var vs := new Value[cap];
      var ts := new Tag[cap];
      forall i | 0 <= i < n {
        vs[i] := values[i];
      }
      forall i | 0 <= i < n {
        ts[i] := types[i];
      }
      assert vs[..n] == values[..n] && ts[..n] == types[..n];
      values, types, c := vs, ts, cap;
    }

    /**
      `resize` (gc.cpp:29-38) with the copy corrected to the smaller of the
      two sizes: `n` and `c` both become `size`, in a new buffer, and the
      fields both sizes have keep their values.  The fields beyond the old
      size are whatever the new buffer holds.
     */
    method Resize(size: nat)
      requires Valid()
      modifies this
      ensures Valid() && n == size && c == size
      ensures fresh(values) && fresh(types)
      ensures |Live()| == size
      ensures Live()[..ResizeCopy(size, old(n))] == old(Live())[..ResizeCopy(size, old(n))]
    {
      var keep := ResizeCopy(size, n);
      var vs := new Value[size];
      var ts := new Tag[size];
      forall i | 0 <= i < keep {
        vs[i] := values[i];
      }
      forall i | 0 <= i < keep {
        ts[i] := types[i];
      }
      assert vs[..keep] == values[..keep] && ts[..keep] == types[..keep];
      n, c, values, types := size, size, vs, ts;
      assert Live()[..keep] == Zip(ts[..keep], vs[..keep]);
    }

    /** `get_size` (gc.cpp:49-50): the number of live fields. */
    method GetSize() returns (size: nat)
      requires Valid()
      ensures size == |Live()|
    {
      size := n;
    }

    /**
      `push_field` (gc.cpp:52-56): the cell gains the field (`t`, `v`) after
      its last one, growing the buffer first when it is full.
     */
    method PushField(t: Tag, v: Value)
      requires Valid()
      modifies this, values, types
      ensures Valid() && n == old(n) + 1
      ensures c == if old(n) < old(c) then old(c) else if old(c) == 0 then 2 else 2 * old(c)
      ensures old(n) < old(c) ==> values == old(values) && types == old(types)
      ensures old(n) == old(c) ==> fresh(values) && fresh(types)
      ensures Live() == old(Live()) + [Field(t, v)]
    {
      if c == n {
        Grow();
      }
      ghost var before := Live();
      SetField(n, t, v);
      assert Live() == before;
      assert types[..n + 1] == types[..n] + [t];
      assert values[..n + 1] == values[..n] + [v];
      n := n + 1;
    }

    /**
      `pop_field` (gc.cpp:58-59): the last field is dropped and the buffer
      kept.  The decrement is unguarded, so the cell must have a field.
     */
    method PopField()
      requires Valid() && n > 0
      modifies this
      ensures Valid() && n == old(n) - 1 && c == old(c)
      ensures values == old(values) && types == old(types)
      ensures Live() == old(Live())[..old(n) - 1]
    {
      n := n - 1;
    }

    /**
      `set_field` (gc.cpp:61-63): slot `i` takes tag `t` and value `v` and no
      other slot changes; for a live slot that is field `i` of the cell.
     */
    method SetField(i: nat, t: Tag, v: Value)
      requires Valid() && i < c
      modifies types, values
      ensures Valid()
      ensures types[..] == old(types[..])[i := t] && values[..] == old(values[..])[i := v]
      ensures Live() == if i < n then old(Live())[i := Field(t, v)] else old(Live())
    {
      SetType(i, t);
      SetValue(i, v);
    }

    /** `set_type` (gc.cpp:65-69): slot `i` takes tag `t`; values are untouched. */
    method SetType(i: nat, t: Tag)
      requires Valid() && i < c
      modifies types
      ensures Valid()
      ensures types[..] == old(types[..])[i := t]
      ensures Live() == if i < n then old(Live())[i := Field(t, old(Live())[i].value)] else old(Live())
    {
      types[i] := t;
      if i >= n {
        assert types[..n] == old(types[..n]);
      }
    }

    /** `set_value` (gc.cpp:71-72): slot `i` takes value `v`; tags are untouched. */
    method SetValue(i: nat, v: Value)
      requires Valid() && i < c
      modifies values
      ensures Valid()
      ensures values[..] == old(values[..])[i := v]
      ensures Live() == if i < n then old(Live())[i := Field(old(Live())[i].tag, v)] else old(Live())
    {
      values[i] := v;
      if i >= n {
        assert values[..n] == old(values[..n]);
      }
    }

    /** `get_type` (gc.cpp:74-75): the tag in slot `i`; for a live slot, the tag of field `i`. */
    method GetType(i: nat) returns (t: Tag)
      requires Valid() && i < c
      ensures t == types[i]
      ensures i < n ==> t == Live()[i].tag
    {
      t := types[i];
    }

    /** `get_value` (gc.cpp:77-78): the value in slot `i`; for a live slot, the value of field `i`. */
    method GetValue(i: nat) returns (v: Value)
      requires Valid() && i < c
      ensures v == values[i]
      ensures i < n ==> v == Live()[i].value
    {
      v := values[i];
    }
    /**
      The inner loop of the mark phase (gc.cpp:100-104): pushes the non-null
      value of every reference field of this cell onto `stack`, in field
      order.
     */
    method PushTargets(stack: seq<Ptr>) returns (pushed: seq<Ptr>)
      requires Valid()
      ensures pushed == stack + Targets(Live())
    {
      pushed := stack;
      var i := 0;
      while i < n
        invariant i <= n
        invariant pushed == stack + Targets(Live()[..i])
      {
        assert Live()[..i + 1][..i] == Live()[..i];
        if types[i] == RefTag {
          var target := values[i];
          if target != 0 {
            pushed := pushed + [target];
          }
        }
        i := i + 1;
      }
      assert Live()[..i] == Live();
    }

    /**
      The cleanup loop of the sweep for this cell at address `p`
      (gc.cpp:107-111): `cleanups[t]` is called on the value of every field
      whose tag `t` is not the reference tag, in field order; the calls made
      are returned.  Each such `t` must index a registered cleanup.
     */
    method Cleanup(p: Ptr, cleanups: seq<Callback>) returns (ghost calls: seq<Call>)
      requires Valid()
      requires forall f :: f in Live() && f.tag != RefTag ==> Registered(cleanups, f.tag)
      ensures calls == CellCalls(p, Live())
    {
      calls := [];
      var j := 0;
      while j < n
        invariant j <= n
        invariant calls == CellCalls(p, Live()[..j])
      {
        assert Live()[..j + 1][..j] == Live()[..j];
        var t := types[j];
        if t != RefTag {
          assert Live()[j] in Live();
          // The call through `cleanups[t]`: the lookup is bounds-checked here,
          // and the call itself is recorded in `calls`.
          var callback := cleanups[t];
          calls := calls + [Call(p, j, t, values[j])];
        }
        j := j + 1;
      }
      assert Live()[..j] == Live();
    }
  }
}
