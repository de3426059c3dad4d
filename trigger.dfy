/**
  The adaptive collection trigger of `help` (gc.cpp:120-129): the threshold
  starts at `min_trigger` = 16 and is doubled or halved after every
  collection, so it is always 16 times a power of two.
 */
module Trigger {

  /** `min_trigger` (gc.cpp:120). */
  const MinTrigger: nat := 16

  /** A threshold `help` can hold: 16, or an even number above 16 whose half is one. */
  ghost predicate IsTrigger(t: nat)
    decreases t
  {
    t == MinTrigger || (t > MinTrigger && t % 2 == 0 && IsTrigger(t / 2))
  }

  function Pow2(k: nat): (p: nat)
    ensures p >= 1
  {
    if k == 0 then 1 else 2 * Pow2(k - 1)
  }

  /** Every threshold is 16·2^k for some k. */
  lemma {:induction false} TriggerIsPower(t: nat)
    requires IsTrigger(t)
    ensures exists k: nat :: t == MinTrigger * Pow2(k)
    decreases t
  {
    if t != MinTrigger {
      TriggerIsPower(t / 2);
      var k: nat :| t / 2 == MinTrigger * Pow2(k);
      assert t == MinTrigger * Pow2(k + 1);
    } else {
      assert t == MinTrigger * Pow2(0);
    }
  }

  /** Conversely, 16·2^k is a threshold for every k. */
  lemma {:induction false} PowerIsTrigger(k: nat)
    ensures IsTrigger(MinTrigger * Pow2(k))
  {
    if k > 0 {
      PowerIsTrigger(k - 1);
      assert (MinTrigger * Pow2(k)) / 2 == MinTrigger * Pow2(k - 1);
    }
  }

  /** A threshold never drops below the floor and is a multiple of it. */
  lemma {:induction false} TriggerFloor(t: nat)
    requires IsTrigger(t)
    ensures t >= MinTrigger && t % MinTrigger == 0
    decreases t
  {
    if t != MinTrigger {
      TriggerFloor(t / 2);
    }
  }

  /**
    The threshold after a collection that left `live` cells (gc.cpp:126-129):
    it grows exactly when more than half of it survived, shrinks exactly when
    fewer than a quarter survived and it is above the floor, and it stays a
    threshold.
   */
  function Adapt(t: nat, live: nat): (r: nat)
    requires IsTrigger(t)
    ensures IsTrigger(r) && r >= MinTrigger
    ensures r > t <==> live > t / 2
    ensures r < t <==> live <= t / 2 && live < t / 4 && t > MinTrigger
    ensures r == t || r == 2 * t || r == t / 2
  {
    TriggerFloor(t);
    if live > t / 2 then
      2 * t
    else if live < t / 4 && t > MinTrigger then
      t / 2
    else
      t
  }
}
