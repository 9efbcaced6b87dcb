/** The two persisted records, `Coupon` and `CouponUsage`, and the
    `usages()` relation between them. */
module Models {
  import opened Options

  /** Structured data as the `array` cast stores it: the shape of `payload`
      and of a usage's `meta`. */
  datatype Json =
    | JNull
    | JBool(b: bool)
    | JInt(i: int)
    | JString(s: string)
    | JList(items: seq<Json>)
    | JObject(fields: map<string, Json>)

  type JsonObject = map<string, Json>

  /** A coupon row. Instants are whole seconds; `startsAt`, `expiresAt`,
      `usageLimit` and `payload` are nullable columns. */
  datatype Coupon = Coupon(
    id: int,
    code: string,
    strategy: string,
    payload: Option<JsonObject>,
    startsAt: Option<int>,
    expiresAt: Option<int>,
    usageLimit: Option<int>,
    active: bool)

  /** The polymorphic `couponable` reference: `couponable_type` and
      `couponable_id`, both set or both null. */
  datatype Couponable = Couponable(kind: string, id: int)

  /** A usage row, owned by the coupon `couponId`. */
  datatype Usage = Usage(id: int, couponId: int, couponable: Option<Couponable>, meta: JsonObject)

  /** `Coupon::usages()`: the usage rows whose `coupon_id` is `couponId`, in
      store order. */
  function UsagesOf(usages: seq<Usage>, couponId: int): (r: seq<Usage>)
    ensures |r| <= |usages|
  {
    if usages == [] then []
    else (if usages[0].couponId == couponId then [usages[0]] else []) + UsagesOf(usages[1..], couponId)
  }

  /** The relation holds exactly the stored rows whose `coupon_id` is
      `couponId`. */
  lemma {:induction false} UsagesOfMembers(usages: seq<Usage>, couponId: int)
    ensures forall u :: u in UsagesOf(usages, couponId) <==> u in usages && u.couponId == couponId
  {
    if usages != [] {
      UsagesOfMembers(usages[1..], couponId);
      assert usages == [usages[0]] + usages[1..];
    }
  }

  /** `$coupon->usages()->count()`. */
  function UsageCount(usages: seq<Usage>, couponId: int): nat
  {
    |UsagesOf(usages, couponId)|
  }

  /** What `$coupon->usages()->delete()` leaves in the store: every usage
      row that does not belong to `couponId`, in store order. */
  function WithoutUsagesOf(usages: seq<Usage>, couponId: int): (r: seq<Usage>)
    ensures forall u :: u in r <==> u in usages && u.couponId != couponId
  {
    if usages == [] then []
    else (if usages[0].couponId != couponId then [usages[0]] else []) + WithoutUsagesOf(usages[1..], couponId)
  }

  /** Saving one more usage row extends that coupon's relation by exactly
      that row and leaves every other coupon's relation as it was. */
  lemma {:induction false} UsagesOfAppend(usages: seq<Usage>, u: Usage, couponId: int)
    ensures UsagesOf(usages + [u], couponId)
         == UsagesOf(usages, couponId) + (if u.couponId == couponId then [u] else [])
  {
    if usages == [] {
      assert usages + [u] == [u];
      assert UsagesOf([u], couponId) == (if u.couponId == couponId then [u] else []) + UsagesOf([], couponId);
    } else {
      assert (usages + [u])[1..] == usages[1..] + [u];
      UsagesOfAppend(usages[1..], u, couponId);
    }
  }

  /** Deleting one coupon's usages empties its relation and leaves the
      relation of every other coupon exactly as it was. */
  lemma {:induction false} UsagesOfAfterDelete(usages: seq<Usage>, deleted: int, couponId: int)
    ensures UsagesOf(WithoutUsagesOf(usages, deleted), couponId)
         == if couponId == deleted then [] else UsagesOf(usages, couponId)
  {
    if usages != [] {
      UsagesOfAfterDelete(usages[1..], deleted, couponId);
      var rest := WithoutUsagesOf(usages[1..], deleted);
      if usages[0].couponId != deleted {
        assert WithoutUsagesOf(usages, deleted) == [usages[0]] + rest;
        assert ([usages[0]] + rest)[1..] == rest;
      } else {
        assert WithoutUsagesOf(usages, deleted) == rest;
      }
    }
  }
}
