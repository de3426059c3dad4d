/**
  Machine words, fields and cleanup callbacks of the MicroGC heap (gc.cpp).

  A cell's storage is one buffer holding `c` values followed by `c` type tags
  (gc.cpp:12-14, 69-78); here a cell's live content is the sequence of its
  first `n` (tag, value) pairs.  A field whose tag is `(type)-1` is a
  reference: its value is the address of another cell, and 0 is null
  (gc.cpp:101-104).
 */
module Store {

  /** The number of distinct 64-bit words. */
  const WordLimit: int := 0x1_0000_0000_0000_0000

  /** An unsigned 64-bit machine word. */
  type u64 = x: int | 0 <= x < WordLimit

  /** A field's payload (`value`, stored through a `size_t *`, gc.cpp:72). */
  type Value = u64

  /** A field's type tag (`type`). */
  type Tag = u64

  /** A cell address (`ptr`); 0 is the null pointer. */
  type Ptr = u64

  /** The tag `(type)-1`, all bits set: the field holds a reference. */
  const RefTag: Tag := 0xFFFF_FFFF_FFFF_FFFF

  /** One (tag, value) slot of a cell. */
  datatype Field = Field(tag: Tag, value: Value)

  /** A function pointer `void (*)(value)`; growing the table fills with null pointers. */
  datatype Callback = NoCallback | Fn(id: nat)

  /** The live fields of a cell whose tag and value arrays start with `ts` and `vs`. */
  function Zip(ts: seq<Tag>, vs: seq<Value>): (fs: seq<Field>)
    requires |ts| == |vs|
    ensures |fs| == |ts|
    ensures forall i :: 0 <= i < |fs| ==> fs[i].tag == ts[i] && fs[i].value == vs[i]
  {
    seq(|ts|, i requires 0 <= i < |ts| => Field(ts[i], vs[i]))
  }

  /** The cells a cell points at: the non-null values of its reference fields. */
  function Succ(fs: seq<Field>): set<Ptr>
  {
    set f | f in fs && f.tag == RefTag && f.value != 0 :: f.value
  }

  /** No address occurs twice. */
  predicate Distinct(rs: seq<Ptr>)
  {
    forall i, j :: 0 <= i < j < |rs| ==> rs[i] != rs[j]
  }

  /** `cleanups[t]` can be called: the index is in range and the pointer is not null. */
  predicate Registered(cleanups: seq<Callback>, t: Tag)
  {
    t < |cleanups| && cleanups[t].Fn?
  }
}
