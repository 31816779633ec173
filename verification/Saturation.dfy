/** The wheel computes slot widths in saturating 64-bit arithmetic; this never shows. */
module Saturation {
  import opened Powers
  import opened Placement

  const MAX_TICK: nat := 0xFFFF_FFFF_FFFF_FFFF

  function SaturatingMul(a: nat, b: nat): nat {
    if a * b <= MAX_TICK then a * b else MAX_TICK
  }

  function SaturatingPow(b: nat, k: nat): nat {
    if Pow(b, k) <= MAX_TICK then Pow(b, k) else MAX_TICK
  }

  /** The loop of `choose_slot`, whose running width saturates. */
  function SaturatingLevel(c: Shape, delta: nat, level: nat, width: nat): nat
    decreases c.levels - level
  {
    if level + 1 < c.levels && delta >= width then
      SaturatingLevel(c, delta, level + 1, SaturatingMul(width, c.slots))
    else level
  }

  function SaturatingChoose(c: Shape, now: nat, deadline: nat): Place
    requires c.slots <= MAX_TICK
  {
    if deadline <= now then Place(0, (now + 1) % c.slots)
    else
      var k := SaturatingLevel(c, deadline - now, 0, c.slots);
      PowPositive(c.slots, k);
      Place(k, (deadline / SaturatingPow(c.slots, k)) % c.slots)
  }

  lemma SaturatingWidth(c: Shape, k: nat)
    requires c.slots <= MAX_TICK
    ensures SaturatingMul(SaturatingPow(c.slots, k), c.slots) == SaturatingPow(c.slots, k + 1)
  {
    var w := Width(c, k);
    WidthStep(c, k);
    if w > MAX_TICK {
      MulOrder(MAX_TICK, w, c.slots);
      MulOrder(1, c.slots, MAX_TICK);
    }
  }

  lemma {:induction false} SaturatingLevelExact(c: Shape, delta: nat, level: nat)
    requires c.slots <= MAX_TICK && level < c.levels
    requires level > 0 ==> Width(c, level) <= delta
    requires delta < MAX_TICK || Width(c, c.levels - 1) <= MAX_TICK
    requires delta <= MAX_TICK
    ensures SaturatingLevel(c, delta, level, SaturatingPow(c.slots, level + 1)) == LevelOf(c, delta, level)
    decreases c.levels - level
  {
    if level + 1 < c.levels {
      WidthMonotone(c, level + 1, c.levels - 1);
      if delta >= Width(c, level + 1) {
        SaturatingWidth(c, level + 1);
        SaturatingLevelExact(c, delta, level + 1);
      }
    }
  }

  /** A distance of MAX_TICK is below no saturated width, so the loop runs to the top. */
  lemma {:induction false} GreatestToTop(c: Shape, level: nat, width: nat)
    requires level < c.levels && width <= MAX_TICK
    ensures SaturatingLevel(c, MAX_TICK, level, width) == c.levels - 1
    decreases c.levels - level
  {
    if level + 1 < c.levels {
      GreatestToTop(c, level + 1, SaturatingMul(width, c.slots));
    }
  }

  /**
   * Saturation is harmless for every 64-bit deadline: always when all slot widths fit
   * into 64 bits, and otherwise exactly unless the deadline is the greatest tick and now is zero.
   */
  lemma SaturatingChooseExact(c: Shape, now: nat, deadline: nat)
    requires c.slots <= MAX_TICK && deadline <= MAX_TICK
    ensures SaturatingChoose(c, now, deadline) == Choose(c, now, deadline)
            <==> now > 0 || deadline < MAX_TICK || Width(c, c.levels - 1) <= MAX_TICK
  {
    if now > 0 || deadline < MAX_TICK || Width(c, c.levels - 1) <= MAX_TICK {
      if deadline > now {
        WidthStep(c, 0);
        SaturatingLevelExact(c, deadline - now, 0);
      }
    } else {
      GreatestToTop(c, 0, c.slots);
      assert LevelOf(c, MAX_TICK) != c.levels - 1;
    }
  }

  /** The cascade test `current_tick % width == 0` notices saturation only at the greatest tick. */
  lemma SaturatingCascadeExact(c: Shape, now: nat, k: nat)
    requires 1 <= now <= MAX_TICK
    ensures SaturatingPow(c.slots, k) >= 1
    ensures (now % SaturatingPow(c.slots, k) == 0 <==> now % Width(c, k) == 0)
            <==> now < MAX_TICK || Width(c, k) <= MAX_TICK
  {
    var w := Width(c, k);
    if w > MAX_TICK {
      DivUnique(now, w, 0);
      assert now == w * (now / w) + now % w;
    }
  }
}
