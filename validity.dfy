/** The validity rules of `Coupons`: `isActive`, `canConsume` and `isValid`.
    The clock is the parameter `now`; the usage count is the number of rows
    in the coupon's `usages()` relation. */
module Validity {
  import opened Models

  /** `isActive`: the flag is set and `now` lies in the window bounded,
      inclusively, by whichever of `startsAt` and `expiresAt` are set. */
  predicate IsActive(c: Coupon, now: int)
  {
    && c.active
    && (c.startsAt.None? || now >= c.startsAt.value)
    && (c.expiresAt.None? || now <= c.expiresAt.value)
  }

  /** `canConsume`: no limit, or a limit above the current usage count. */
  predicate CanConsume(c: Coupon, usageCount: int)
  {
    c.usageLimit.None? || c.usageLimit.value > usageCount
  }

  /** `isValid`. */
  predicate IsValid(c: Coupon, now: int, usageCount: int)
  {
    IsActive(c, now) && CanConsume(c, usageCount)
  }

  /** The uses left under a limit `k` after `n` usages; a limit at or below
      the count leaves none, whatever its sign. */
  function UsesLeft(k: int, n: nat): nat
  {
    if k > n then k - n else 0
  }

  /** A coupon can be consumed exactly when it has no limit or uses left
      under it. */
  lemma CanConsumeIffUsesLeft(c: Coupon, usageCount: nat)
    ensures CanConsume(c, usageCount) <==> c.usageLimit.None? || UsesLeft(c.usageLimit.value, usageCount) > 0
  {
  }

  /** Without a limit a coupon can always be consumed; with a limit `k` it can
      be consumed after `k - 1` usages and not after `k`, and a limit of zero
      or below can never be consumed. */
  lemma CanConsumeLimits(c: Coupon, usageCount: nat)
    ensures c.usageLimit.None? ==> CanConsume(c, usageCount)
    ensures c.usageLimit.Some? ==> (CanConsume(c, usageCount) <==> usageCount < c.usageLimit.value)
    ensures c.usageLimit.Some? && c.usageLimit.value <= 0 ==> !CanConsume(c, usageCount)
    ensures c.usageLimit.Some? ==> !CanConsume(c, c.usageLimit.value)
    ensures c.usageLimit.Some? && c.usageLimit.value >= 1 ==> CanConsume(c, c.usageLimit.value - 1)
  {
  }

  /** A cleared `active` flag invalidates a coupon whatever its dates and
      limit. */
  lemma InactiveNeverValid(c: Coupon, now: int, usageCount: int)
    requires !c.active
    ensures !IsActive(c, now) && !IsValid(c, now, usageCount)
  {
  }

  /** Both bounds are inclusive: an active coupon is active at the instant
      `startsAt` but not one second before, and at the instant `expiresAt`
      but not one second after. */
  lemma WindowBoundsInclusive(c: Coupon)
    requires c.active
    requires c.startsAt.Some? && c.expiresAt.Some? ==> c.startsAt.value <= c.expiresAt.value
    ensures c.startsAt.Some? ==> IsActive(c, c.startsAt.value) && !IsActive(c, c.startsAt.value - 1)
    ensures c.expiresAt.Some? ==> IsActive(c, c.expiresAt.value) && !IsActive(c, c.expiresAt.value + 1)
  {
  }

  /** The instants at which a coupon is active form an interval: being active
      at two instants means being active at every instant between them. */
  lemma ActiveWindowConvex(c: Coupon, t1: int, t: int, t2: int)
    requires IsActive(c, t1) && IsActive(c, t2) && t1 <= t <= t2
    ensures IsActive(c, t)
  {
  }

  /** With neither bound set, activity is the flag alone, at every instant. */
  lemma UnboundedWindow(c: Coupon, now: int)
    requires c.startsAt.None? && c.expiresAt.None?
    ensures IsActive(c, now) == c.active
  {
  }
}
