/** The coupon store and the consumption engine: `Coupons::consume` and the
    cascade in `Coupon::booted`. `StoreState` is the abstract value of the
    store; `ConsumeSpec`, `DeleteSpec` and `InsertSpec` say what each
    operation does to it, and `CouponStore` is the mutable store whose
    methods are proved against them. */
module Store {
  import opened Options
  import opened Models
  import opened Validity

  datatype StoreState = StoreState(
    coupons: map<int, Coupon>,
    usages: seq<Usage>,
    nextCouponId: int,
    nextUsageId: int)

  /** Usage ids strictly increase in store order (auto-increment keys). */
  predicate IdsIncreasing(usages: seq<Usage>)
  {
    forall i, j :: 0 <= i < j < |usages| ==> usages[i].id < usages[j].id
  }

  /** What the database keeps true: coupons are keyed by their id, codes are
      unique, every usage row refers to an existing coupon (the foreign key),
      and ids stay below the next auto-increment value. */
  predicate Consistent(s: StoreState)
  {
    && (forall id :: id in s.coupons ==> s.coupons[id].id == id && id < s.nextCouponId)
    && (forall a, b :: a in s.coupons && b in s.coupons && s.coupons[a].code == s.coupons[b].code ==> a == b)
    && (forall i :: 0 <= i < |s.usages| ==> s.usages[i].couponId in s.coupons)
    && (forall i :: 0 <= i < |s.usages| ==> s.usages[i].id < s.nextUsageId)
    && IdsIncreasing(s.usages)
  }

  /** `Coupons::consume` as one atomic step on the store: an invalid coupon
      leaves the store as it is and yields false; a valid one gets a new usage
      row carrying `meta` and `couponable`, and is deactivated when the flag is
      set and the limit is now reached. */
  function ConsumeSpec(s: StoreState, id: int, couponable: Option<Couponable>, meta: JsonObject,
                       deactivateIfLimitReached: bool, now: int): (r: (StoreState, bool))
    requires id in s.coupons
    ensures r.0.coupons.Keys == s.coupons.Keys
  {
    var c := s.coupons[id];
    if !IsValid(c, now, UsageCount(s.usages, id)) then (s, false)
    else
      var usages := s.usages + [Usage(s.nextUsageId, id, couponable, meta)];
      var c' := if !CanConsume(c, UsageCount(usages, id)) && deactivateIfLimitReached
                then c.(active := false) else c;
      (StoreState(s.coupons[id := c'], usages, s.nextCouponId, s.nextUsageId + 1), true)
  }

  /** Deleting a coupon: the `deleting` hook first removes the coupon's usage
      rows, then the row itself goes. A coupon that is not stored is not
      deleted and fires no hook. */
  function DeleteSpec(s: StoreState, id: int): (r: StoreState)
    ensures id !in r.coupons && r.coupons.Keys == s.coupons.Keys - {id}
    ensures forall k :: k in r.coupons ==> r.coupons[k] == s.coupons[k]
    ensures r.nextCouponId == s.nextCouponId && r.nextUsageId == s.nextUsageId
    ensures id !in s.coupons ==> r == s
  {
    if id !in s.coupons then s
    else StoreState(s.coupons - {id}, WithoutUsagesOf(s.usages, id), s.nextCouponId, s.nextUsageId)
  }

  /** Creating a coupon row: the unique index on `code` rejects a second
      coupon with a stored code; otherwise the row gets the next id. */
  function InsertSpec(s: StoreState, c: Coupon): (r: (StoreState, Option<int>))
    ensures r.0.usages == s.usages && r.0.nextUsageId == s.nextUsageId
    ensures r.1.None? ==> r.0 == s
    ensures r.1.Some? ==> && r.0.coupons.Keys == s.coupons.Keys + {r.1.value}
                          && r.0.coupons[r.1.value] == c.(id := r.1.value)
                          && r.1.value < r.0.nextCouponId
                          && forall k :: k in s.coupons && k != r.1.value ==> r.0.coupons[k] == s.coupons[k]
  {
    if exists k :: k in s.coupons && s.coupons[k].code == c.code then (s, None)
    else
      var id := s.nextCouponId;
      (StoreState(s.coupons[id := c.(id := id)], s.usages, id + 1, s.nextUsageId), Some(id))
  }

  // ---- properties of a single consume ----

  /** An invalid coupon is consumed with no side effect: no usage row, no
      change to `active` or to anything else, and the result is false. */
  lemma ConsumeInvalidHasNoEffect(s: StoreState, id: int, couponable: Option<Couponable>, meta: JsonObject,
                                  deactivate: bool, now: int)
    requires id in s.coupons
    requires !IsValid(s.coupons[id], now, UsageCount(s.usages, id))
    ensures ConsumeSpec(s, id, couponable, meta, deactivate, now) == (s, false)
  {
  }

  /** A valid coupon is consumed successfully: exactly one usage row is
      appended, carrying the given `meta` and `couponable`; the coupon's count
      grows by one; the coupon is deactivated exactly when the flag is set and
      this usage reached the limit; nothing else changes. */
  lemma ConsumeValid(s: StoreState, id: int, couponable: Option<Couponable>, meta: JsonObject,
                     deactivate: bool, now: int)
    requires id in s.coupons
    requires IsValid(s.coupons[id], now, UsageCount(s.usages, id))
    ensures var c := s.coupons[id];
      var n := UsageCount(s.usages, id);
      var u := Usage(s.nextUsageId, id, couponable, meta);
      var c' := c.(active := !(deactivate && c.usageLimit == Some(n + 1)));
      && ConsumeSpec(s, id, couponable, meta, deactivate, now)
         == (StoreState(s.coupons[id := c'], s.usages + [u], s.nextCouponId, s.nextUsageId + 1), true)
      && UsageCount(s.usages + [u], id) == n + 1
  {
    UsagesOfAppend(s.usages, Usage(s.nextUsageId, id, couponable, meta), id);
  }

  /** Consuming one coupon leaves the usage relation of every other coupon
      exactly as it was. */
  lemma ConsumeKeepsOtherUsages(s: StoreState, id: int, couponable: Option<Couponable>, meta: JsonObject,
                                deactivate: bool, now: int, other: int)
    requires id in s.coupons && other != id
    ensures UsagesOf(ConsumeSpec(s, id, couponable, meta, deactivate, now).0.usages, other) == UsagesOf(s.usages, other)
  {
    UsagesOfAppend(s.usages, Usage(s.nextUsageId, id, couponable, meta), other);
  }

  /** Consuming keeps the store consistent. */
  lemma ConsumePreservesConsistent(s: StoreState, id: int, couponable: Option<Couponable>, meta: JsonObject,
                                   deactivate: bool, now: int)
    requires Consistent(s) && id in s.coupons
    ensures Consistent(ConsumeSpec(s, id, couponable, meta, deactivate, now).0)
  {
    if IsValid(s.coupons[id], now, UsageCount(s.usages, id)) {
      ConsumeValid(s, id, couponable, meta, deactivate, now);
      var c := s.coupons[id];
      RowAddedConsistent(s, id, c.(active := !(deactivate && c.usageLimit == Some(UsageCount(s.usages, id) + 1))),
                         Usage(s.nextUsageId, id, couponable, meta));
    }
  }

  /** Replacing a coupon by one with the same id and code and appending a
      usage row of that coupon under the next usage id keeps the store
      consistent. */
  lemma RowAddedConsistent(s: StoreState, id: int, c: Coupon, u: Usage)
    requires Consistent(s) && id in s.coupons
    requires c.id == s.coupons[id].id && c.code == s.coupons[id].code
    requires u.id == s.nextUsageId && u.couponId == id
    ensures Consistent(StoreState(s.coupons[id := c], s.usages + [u], s.nextCouponId, s.nextUsageId + 1))
  {
    AppendIncreasing(s.usages, u);
    var coupons := s.coupons[id := c];
    assert forall k :: k in coupons ==> coupons[k].id == s.coupons[k].id && coupons[k].code == s.coupons[k].code;
  }

  /** Appending a row with a fresh, larger id keeps the ids increasing. */
  lemma AppendIncreasing(usages: seq<Usage>, u: Usage)
    requires IdsIncreasing(usages)
    requires forall i :: 0 <= i < |usages| ==> usages[i].id < u.id
    ensures IdsIncreasing(usages + [u])
  {
    var t := usages + [u];
    forall i, j | 0 <= i < j < |t| ensures t[i].id < t[j].id {
      assert t[i] == usages[i];
    }
  }

  /** A single consume never takes a coupon past its limit. */
  lemma ConsumeRespectsLimit(s: StoreState, id: int, couponable: Option<Couponable>, meta: JsonObject,
                             deactivate: bool, now: int)
    requires id in s.coupons && s.coupons[id].usageLimit.Some?
    requires UsageCount(s.usages, id) <= s.coupons[id].usageLimit.value
    ensures UsageCount(ConsumeSpec(s, id, couponable, meta, deactivate, now).0.usages, id)
         <= s.coupons[id].usageLimit.value
  {
    if IsValid(s.coupons[id], now, UsageCount(s.usages, id)) {
      ConsumeValid(s, id, couponable, meta, deactivate, now);
    }
  }

  // ---- repeated consumption ----

  /** `times` calls of `consume` on the same coupon at the instant `now`: the
      final store and the results in call order. */
  function ConsumeTimes(s: StoreState, id: int, times: nat, couponable: Option<Couponable>, meta: JsonObject,
                        deactivate: bool, now: int): (r: (StoreState, seq<bool>))
    requires id in s.coupons
    ensures id in r.0.coupons && |r.1| == times
    decreases times
  {
    if times == 0 then (s, [])
    else
      var first := ConsumeSpec(s, id, couponable, meta, deactivate, now);
      var rest := ConsumeTimes(first.0, id, times - 1, couponable, meta, deactivate, now);
      (rest.0, [first.1] + rest.1)
  }

  /** Once invalid, a coupon stays invalid under repeated consumption: every
      call returns false and the store never changes. */
  lemma {:induction false} ConsumeTimesInvalid(s: StoreState, id: int, times: nat, couponable: Option<Couponable>,
                                               meta: JsonObject, deactivate: bool, now: int)
    requires id in s.coupons
    requires !IsValid(s.coupons[id], now, UsageCount(s.usages, id))
    ensures var r := ConsumeTimes(s, id, times, couponable, meta, deactivate, now);
      r.0 == s && forall i :: 0 <= i < times ==> !r.1[i]
  {
    if times > 0 {
      ConsumeTimesInvalid(s, id, times - 1, couponable, meta, deactivate, now);
    }
  }

  function Min(a: nat, b: nat): nat { if a < b then a else b }

  /** Repeated consumption of an active, in-window coupon with limit `k`: of
      `times` calls, exactly the first `min(times, k - n)` succeed, where `n` is
      the usage count before; the count grows by the number of successes, so it
      never exceeds `max(k, n)`; the coupon ends inactive exactly when the flag
      is set and the limit was reached; nothing else about the coupon changes. */
  lemma {:induction false} RepeatedConsume(s: StoreState, id: int, times: nat, couponable: Option<Couponable>,
                                           meta: JsonObject, deactivate: bool, now: int)
    requires id in s.coupons
    requires IsActive(s.coupons[id], now) && s.coupons[id].usageLimit.Some?
    decreases times
    ensures var r := ConsumeTimes(s, id, times, couponable, meta, deactivate, now);
      var c := s.coupons[id];
      var n := UsageCount(s.usages, id);
      var left := UsesLeft(c.usageLimit.value, n);
      && (forall i :: 0 <= i < times ==> (r.1[i] <==> i < left))
      && UsageCount(r.0.usages, id) == n + Min(times, left)
      && UsageCount(r.0.usages, id) <= (if n < c.usageLimit.value then c.usageLimit.value else n)
      && r.0.coupons[id] == c.(active := !(deactivate && 0 < left <= times))
  {
    var c := s.coupons[id];
    var n := UsageCount(s.usages, id);
    var left := UsesLeft(c.usageLimit.value, n);
    if times == 0 {
    } else if left == 0 {
      ConsumeTimesInvalid(s, id, times, couponable, meta, deactivate, now);
    } else {
      RepeatedConsumeStep(s, id, times, couponable, meta, deactivate, now);
    }
  }

  /** The inductive step of `RepeatedConsume`: a first call that succeeds. */
  lemma {:induction false} RepeatedConsumeStep(s: StoreState, id: int, times: nat, couponable: Option<Couponable>,
                                               meta: JsonObject, deactivate: bool, now: int)
    requires id in s.coupons && times > 0
    requires IsActive(s.coupons[id], now) && s.coupons[id].usageLimit.Some?
    requires UsesLeft(s.coupons[id].usageLimit.value, UsageCount(s.usages, id)) > 0
    decreases times, 1
    ensures var r := ConsumeTimes(s, id, times, couponable, meta, deactivate, now);
      var c := s.coupons[id];
      var n := UsageCount(s.usages, id);
      var left := UsesLeft(c.usageLimit.value, n);
      && (forall i :: 0 <= i < times ==> (r.1[i] <==> i < left))
      && UsageCount(r.0.usages, id) == n + Min(times, left)
      && r.0.coupons[id] == c.(active := !(deactivate && 0 < left <= times))
  {
    var c := s.coupons[id];
    var n := UsageCount(s.usages, id);
    var left := UsesLeft(c.usageLimit.value, n);
    ConsumeValid(s, id, couponable, meta, deactivate, now);
    var s1 := ConsumeSpec(s, id, couponable, meta, deactivate, now).0;
    var rest := ConsumeTimes(s1, id, times - 1, couponable, meta, deactivate, now);
    assert ConsumeTimes(s, id, times, couponable, meta, deactivate, now) == (rest.0, [true] + rest.1);
    RepeatedConsumeRest(s, id, times, couponable, meta, deactivate, now);
    ShiftResults(rest.1, left);
  }

  /** What the calls after a first success do, as `RepeatedConsumeStep`
      needs it. */
  lemma {:induction false} RepeatedConsumeRest(s: StoreState, id: int, times: nat, couponable: Option<Couponable>,
                                               meta: JsonObject, deactivate: bool, now: int)
    requires id in s.coupons && times > 0
    requires IsActive(s.coupons[id], now) && s.coupons[id].usageLimit.Some?
    requires UsesLeft(s.coupons[id].usageLimit.value, UsageCount(s.usages, id)) > 0
    decreases times, 0
    ensures var s1 := ConsumeSpec(s, id, couponable, meta, deactivate, now).0;
      id in s1.coupons &&
      var r := ConsumeTimes(s1, id, times - 1, couponable, meta, deactivate, now);
      var c := s.coupons[id];
      var n := UsageCount(s.usages, id);
      var left := UsesLeft(c.usageLimit.value, n);
      && (forall i :: 0 <= i < times - 1 ==> (r.1[i] <==> i < left - 1))
      && UsageCount(r.0.usages, id) == n + Min(times, left)
      && r.0.coupons[id] == c.(active := !(deactivate && 0 < left <= times))
  {
    var c := s.coupons[id];
    var n := UsageCount(s.usages, id);
    var left := UsesLeft(c.usageLimit.value, n);
    var u := Usage(s.nextUsageId, id, couponable, meta);
    var c1 := c.(active := !(deactivate && left == 1));
    var s1 := StoreState(s.coupons[id := c1], s.usages + [u], s.nextCouponId, s.nextUsageId + 1);
    ConsumeValid(s, id, couponable, meta, deactivate, now);
    if deactivate && left == 1 {
      ConsumeTimesInvalid(s1, id, times - 1, couponable, meta, deactivate, now);
    } else {
      RepeatedConsume(s1, id, times - 1, couponable, meta, deactivate, now);
      assert UsesLeft(c1.usageLimit.value, n + 1) == left - 1;
    }
  }

  /** A first success in front of a run whose first `k - 1` calls succeed
      gives a run whose first `k` calls succeed. */
  lemma ShiftResults(rest: seq<bool>, k: nat)
    requires k > 0
    requires forall i :: 0 <= i < |rest| ==> (rest[i] <==> i < k - 1)
    ensures forall i :: 0 <= i < |rest| + 1 ==> (([true] + rest)[i] <==> i < k)
  {
    forall i | 0 <= i < |rest| + 1
      ensures ([true] + rest)[i] <==> i < k
    {
      if i > 0 {
        assert ([true] + rest)[i] == rest[i - 1];
      }
    }
  }

  /** Repeated consumption of an active, in-window coupon without a limit:
      every call succeeds, one usage row per call, and the coupon is never
      deactivated. */
  lemma {:induction false} RepeatedConsumeUnlimited(s: StoreState, id: int, times: nat, couponable: Option<Couponable>,
                                                    meta: JsonObject, deactivate: bool, now: int)
    requires id in s.coupons
    requires IsActive(s.coupons[id], now) && s.coupons[id].usageLimit.None?
    decreases times, 1
    ensures var r := ConsumeTimes(s, id, times, couponable, meta, deactivate, now);
      && (forall i :: 0 <= i < times ==> r.1[i])
      && UsageCount(r.0.usages, id) == UsageCount(s.usages, id) + times
      && r.0.coupons[id] == s.coupons[id]
  {
    if times > 0 {
      ConsumeValid(s, id, couponable, meta, deactivate, now);
      var s1 := ConsumeSpec(s, id, couponable, meta, deactivate, now).0;
      var rest := ConsumeTimes(s1, id, times - 1, couponable, meta, deactivate, now);
      assert ConsumeTimes(s, id, times, couponable, meta, deactivate, now) == (rest.0, [true] + rest.1);
      RepeatedConsumeUnlimitedRest(s, id, times, couponable, meta, deactivate, now);
      assert forall i :: 0 < i < times ==> ([true] + rest.1)[i] == rest.1[i - 1];
    }
  }

  /** What the calls after the first do, as `RepeatedConsumeUnlimited` needs
      it. */
  lemma {:induction false} RepeatedConsumeUnlimitedRest(s: StoreState, id: int, times: nat,
                                                        couponable: Option<Couponable>, meta: JsonObject,
                                                        deactivate: bool, now: int)
    requires id in s.coupons && times > 0
    requires IsActive(s.coupons[id], now) && s.coupons[id].usageLimit.None?
    decreases times, 0
    ensures var s1 := ConsumeSpec(s, id, couponable, meta, deactivate, now).0;
      id in s1.coupons &&
      var r := ConsumeTimes(s1, id, times - 1, couponable, meta, deactivate, now);
      && (forall i :: 0 <= i < times - 1 ==> r.1[i])
      && UsageCount(r.0.usages, id) == UsageCount(s.usages, id) + times
      && r.0.coupons[id] == s.coupons[id]
  {
    var c := s.coupons[id];
    ConsumeValid(s, id, couponable, meta, deactivate, now);
    var s1 := ConsumeSpec(s, id, couponable, meta, deactivate, now).0;
    assert s1.coupons[id] == c;
    assert UsageCount(s1.usages, id) == UsageCount(s.usages, id) + 1;
    RepeatedConsumeUnlimited(s1, id, times - 1, couponable, meta, deactivate, now);
  }

  /** The scenario of a coupon "SAVE20" that is active, has no dates and a
      limit of 2: three consumes return true, true, false, leave two usage
      rows, and leave the coupon inactive. */
  lemma LimitTwoScenario(meta: JsonObject, now: int)
    ensures var c := Coupon(1, "SAVE20", "percentage_discount", None, None, None, Some(2), true);
      var s := StoreState(map[1 := c], [], 2, 1);
      var r := ConsumeTimes(s, 1, 3, None, meta, true, now);
      && r.1 == [true, true, false]
      && UsageCount(r.0.usages, 1) == 2
      && !r.0.coupons[1].active
  {
    var c := Coupon(1, "SAVE20", "percentage_discount", None, None, None, Some(2), true);
    var s := StoreState(map[1 := c], [], 2, 1);
    RepeatedConsume(s, 1, 3, None, meta, true, now);
  }

  // ---- cascade delete ----

  /** Deleting a coupon removes all of its usages and no other usage: its
      relation is empty afterwards and every other coupon's relation is
      exactly what it was. */
  lemma DeleteCascades(s: StoreState, id: int)
    requires id in s.coupons
    ensures UsagesOf(DeleteSpec(s, id).usages, id) == []
    ensures forall other :: other != id ==> UsagesOf(DeleteSpec(s, id).usages, other) == UsagesOf(s.usages, other)
    ensures forall u :: u in DeleteSpec(s, id).usages <==> u in s.usages && u.couponId != id
  {
    UsagesOfAfterDelete(s.usages, id, id);
    forall other | other != id
      ensures UsagesOf(DeleteSpec(s, id).usages, other) == UsagesOf(s.usages, other)
    {
      UsagesOfAfterDelete(s.usages, id, other);
    }
  }

  /** A row with a smaller id than every row of an increasing sequence can be
      put in front of it. */
  lemma ConsIncreasing(u: Usage, rest: seq<Usage>)
    requires IdsIncreasing(rest)
    requires forall v :: v in rest ==> u.id < v.id
    ensures IdsIncreasing([u] + rest)
  {
    var r := [u] + rest;
    forall i, j | 0 <= i < j < |r| ensures r[i].id < r[j].id {
      assert r[j] == rest[j - 1];
      if i > 0 {
        assert r[i] == rest[i - 1];
      } else {
        assert r[j] in rest;
      }
    }
  }

  /** Filtering keeps usage ids increasing. */
  lemma {:induction false} WithoutUsagesOfIncreasing(usages: seq<Usage>, id: int)
    requires IdsIncreasing(usages)
    ensures IdsIncreasing(WithoutUsagesOf(usages, id))
  {
    if usages != [] {
      var tail := usages[1..];
      var rest := WithoutUsagesOf(tail, id);
      assert IdsIncreasing(tail) by {
        forall i, j | 0 <= i < j < |tail| ensures tail[i].id < tail[j].id {
          assert tail[i] == usages[i + 1] && tail[j] == usages[j + 1];
        }
      }
      WithoutUsagesOfIncreasing(tail, id);
      forall v | v in rest ensures usages[0].id < v.id {
        var j :| 0 <= j < |tail| && tail[j] == v;
        assert usages[j + 1] == v;
      }
      if usages[0].couponId != id {
        ConsIncreasing(usages[0], rest);
      }
    }
  }

  /** Deleting keeps the store consistent; in particular no usage is left
      pointing at the deleted coupon. */
  lemma DeletePreservesConsistent(s: StoreState, id: int)
    requires Consistent(s)
    ensures Consistent(DeleteSpec(s, id))
  {
    if id in s.coupons {
      WithoutUsagesOfIncreasing(s.usages, id);
      var r := DeleteSpec(s, id);
      forall i | 0 <= i < |r.usages|
        ensures r.usages[i].couponId in r.coupons && r.usages[i].id < r.nextUsageId
      {
        assert r.usages[i] in r.usages;
        var j :| 0 <= j < |s.usages| && s.usages[j] == r.usages[i];
      }
    }
  }

  /** Creating a coupon keeps the store consistent, fails exactly when the
      code is already taken, and otherwise adds one coupon under an id no
      stored coupon has. */
  lemma InsertPreservesConsistent(s: StoreState, c: Coupon)
    requires Consistent(s)
    ensures Consistent(InsertSpec(s, c).0)
    ensures InsertSpec(s, c).1.None? <==> exists k :: k in s.coupons && s.coupons[k].code == c.code
    ensures InsertSpec(s, c).1.Some? ==> InsertSpec(s, c).1.value !in s.coupons
                                         && |InsertSpec(s, c).0.coupons| == |s.coupons| + 1
  {
    if !exists k :: k in s.coupons && s.coupons[k].code == c.code {
      InsertFresh(s, c);
    }
  }

  /** Storing a coupon whose code is unused under the next id. */
  lemma InsertFresh(s: StoreState, c: Coupon)
    requires Consistent(s)
    requires forall k :: k in s.coupons ==> s.coupons[k].code != c.code
    ensures var id := s.nextCouponId;
      var coupons := s.coupons[id := c.(id := id)];
      && id !in s.coupons && |coupons| == |s.coupons| + 1
      && Consistent(StoreState(coupons, s.usages, id + 1, s.nextUsageId))
  {
    var id := s.nextCouponId;
    var coupons := s.coupons[id := c.(id := id)];
    assert id !in s.coupons;
    forall a, b | a in coupons && b in coupons && coupons[a].code == coupons[b].code
      ensures a == b
    {
      if a != id && b != id {
        assert coupons[a] == s.coupons[a] && coupons[b] == s.coupons[b];
      }
    }
  }

  /** The mutable store: the coupon table, the usage table and the two
      auto-increment counters. */
  class CouponStore {
    var coupons: map<int, Coupon>
    var usages: seq<Usage>
    var nextCouponId: int
    var nextUsageId: int

    function State(): StoreState
      reads this
    {
      StoreState(coupons, usages, nextCouponId, nextUsageId)
    }

    predicate Valid()
      reads this
    {
      Consistent(State())
    }

    constructor ()
      ensures Valid() && State() == StoreState(map[], [], 1, 1)
    {
      coupons, usages, nextCouponId, nextUsageId := map[], [], 1, 1;
    }

    /** Create a coupon row; `None` when the unique index on `code` refuses it. */
    method Insert(c: Coupon) returns (id: Option<int>)
      requires Valid()
      modifies this
      ensures Valid()
      ensures (State(), id) == InsertSpec(old(State()), c)
    {
      ghost var s := State();
      InsertPreservesConsistent(s, c);
      if exists k :: k in coupons && coupons[k].code == c.code {
        return None;
      }
      var newId := nextCouponId;
      coupons := coupons[newId := c.(id := newId)];
      nextCouponId := newId + 1;
      id := Some(newId);
      assert State() == InsertSpec(s, c).0;
    }

    /** `Coupons::consume` for the stored coupon `id`, with the database
        transaction taken as one atomic step. */
    method Consume(id: int, couponable: Option<Couponable>, meta: JsonObject,
                   deactiveIfLimitReached: bool, now: int) returns (ok: bool)
      requires Valid() && id in coupons
      modifies this
      ensures Valid()
      ensures (State(), ok) == ConsumeSpec(old(State()), id, couponable, meta, deactiveIfLimitReached, now)
      ensures ok == IsValid(old(coupons)[id], now, UsageCount(old(usages), id))
      ensures !ok ==> State() == old(State())
    {
      ConsumePreservesConsistent(State(), id, couponable, meta, deactiveIfLimitReached, now);
      var coupon := coupons[id];
      if !IsValid(coupon, now, UsageCount(usages, id)) {
        return false;
      }
      var usage := Usage(nextUsageId, id, couponable, meta);
      usages := usages + [usage];
      nextUsageId := nextUsageId + 1;
      if !CanConsume(coupon, UsageCount(usages, id)) && deactiveIfLimitReached {
        coupons := coupons[id := coupon.(active := false)];
      } else {
        assert coupons[id := coupon] == coupons;
      }
      ok := true;
    }

    /** `$coupon->delete()` with its `deleting` hook: the coupon's usages are
        removed first, then the coupon. */
    method Delete(id: int)
      requires Valid()
      modifies this
      ensures Valid()
      ensures State() == DeleteSpec(old(State()), id)
    {
      DeletePreservesConsistent(State(), id);
      if id !in coupons {
        return;
      }
      usages := WithoutUsagesOf(usages, id);
      coupons := coupons - {id};
    }
  }
}
