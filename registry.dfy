/** The strategy registry of `Coupons`: `getStrategies`, the lookup
    `getStrategies()[name] ?? null` shared by the other operations,
    `applyCoupon`, `getStrategyPayloadSchema` and `hasStrategyPayloadSchema`.
    The configuration is the list of strategies `filament-coupons.strategies`
    names, in order, each already instantiated; what `apply` does is the
    parameter `apply`. */
module Registry {
  import opened Options
  import opened Models
  import opened Strategies

  type Config = seq<Strategy>

  /** What a strategy's `apply` does with a coupon: it returns a boolean or
      it throws. */
  datatype ApplyResult = Returned(applied: bool) | Threw

  // ---- mapWithKeys ----

  /** No two pairs share a key. */
  predicate DistinctKeys<V>(pairs: seq<(string, V)>)
  {
    forall i, j :: 0 <= i < j < |pairs| ==> pairs[i].0 != pairs[j].0
  }

  function KeySet<V>(pairs: seq<(string, V)>): set<string>
  {
    set i | 0 <= i < |pairs| :: pairs[i].0
  }

  /** A collection's `mapWithKeys(...)->all()`: the pairs the callback
      returns, in order, into one array, a later key replacing an earlier
      one. Every key is present, and maps to a value it was paired with. */
  function MapWithKeys<V>(pairs: seq<(string, V)>): (r: map<string, V>)
    ensures forall i :: 0 <= i < |pairs| ==> pairs[i].0 in r
    ensures forall k :: k in r ==> (k, r[k]) in pairs
    decreases |pairs|
  {
    if pairs == [] then map[]
    else
      var n := |pairs| - 1;
      var r := MapWithKeys(pairs[..n]);
      assert forall k :: k in r ==> (k, r[k]) in pairs by {
        forall k | k in r ensures (k, r[k]) in pairs {
          assert (k, r[k]) in pairs[..n];
        }
      }
      r[pairs[n].0 := pairs[n].1]
  }

  /** Later wins: the value of a pair is the one kept for its key exactly when
      no later pair has the same key. */
  lemma {:induction false} MapWithKeysLaterWins<V>(pairs: seq<(string, V)>, i: int)
    requires 0 <= i < |pairs|
    requires forall j :: i < j < |pairs| ==> pairs[j].0 != pairs[i].0
    ensures MapWithKeys(pairs)[pairs[i].0] == pairs[i].1
    decreases |pairs|
  {
    var n := |pairs| - 1;
    MapWithKeysSnoc(pairs);
    if i < n {
      var init := pairs[..n];
      LastOfKeyInit(pairs, i);
      MapWithKeysLaterWins(init, i);
    }
  }

  /** A pair that no later pair shares its key with keeps that property once
      the last pair is dropped. */
  lemma LastOfKeyInit<V>(pairs: seq<(string, V)>, i: int)
    requires 0 <= i < |pairs| - 1
    requires forall j :: i < j < |pairs| ==> pairs[j].0 != pairs[i].0
    ensures var init := pairs[..|pairs| - 1]; init[i] == pairs[i] && forall j :: i < j < |init| ==> init[j].0 != init[i].0
  {
    var init := pairs[..|pairs| - 1];
    forall j | i < j < |init| ensures init[j].0 != init[i].0 {
      assert init[j] == pairs[j];
    }
  }

  /** The last pair is put on top of the array of the others. */
  lemma MapWithKeysSnoc<V>(pairs: seq<(string, V)>)
    requires pairs != []
    ensures MapWithKeys(pairs) == MapWithKeys(pairs[..|pairs| - 1])[pairs[|pairs| - 1].0 := pairs[|pairs| - 1].1]
  {
  }

  /** The keys of the result are exactly the keys of the pairs; so there are
      as many entries as distinct keys, never more than pairs, and exactly as
      many as pairs when the keys are distinct. */
  lemma {:induction false} MapWithKeysSize<V>(pairs: seq<(string, V)>)
    ensures MapWithKeys(pairs).Keys == KeySet(pairs)
    ensures |MapWithKeys(pairs)| == |KeySet(pairs)| <= |pairs|
    ensures DistinctKeys(pairs) ==> |MapWithKeys(pairs)| == |pairs|
    decreases |pairs|
  {
    if pairs != [] {
      var n := |pairs| - 1;
      var init := pairs[..n];
      MapWithKeysSize(init);
      KeySetSnoc(pairs);
      if DistinctKeys(pairs) {
        DistinctKeysInit(pairs);
      }
    } else {
      assert KeySet(pairs) == {};
    }
  }

  /** The keys of a sequence of pairs are those of all but the last, and the
      last one's. */
  lemma KeySetSnoc<V>(pairs: seq<(string, V)>)
    requires pairs != []
    ensures KeySet(pairs) == KeySet(pairs[..|pairs| - 1]) + {pairs[|pairs| - 1].0}
  {
    var n := |pairs| - 1;
    var init := pairs[..n];
    forall k | k in KeySet(pairs) ensures k in KeySet(init) + {pairs[n].0} {
      var j :| 0 <= j < |pairs| && pairs[j].0 == k;
      if j < n {
        assert init[j] == pairs[j];
      }
    }
    forall k | k in KeySet(init) ensures k in KeySet(pairs) {
      var j :| 0 <= j < n && init[j].0 == k;
      assert pairs[j] == init[j];
    }
  }

  /** With distinct keys, the pairs before the last have distinct keys, none
      of them the last one's. */
  lemma DistinctKeysInit<V>(pairs: seq<(string, V)>)
    requires pairs != [] && DistinctKeys(pairs)
    ensures DistinctKeys(pairs[..|pairs| - 1])
    ensures pairs[|pairs| - 1].0 !in KeySet(pairs[..|pairs| - 1])
  {
    var n := |pairs| - 1;
    var init := pairs[..n];
    forall i, j | 0 <= i < j < |init| ensures init[i].0 != init[j].0 {
      assert init[i] == pairs[i] && init[j] == pairs[j];
    }
    forall j | 0 <= j < n ensures init[j].0 != pairs[n].0 {
      assert init[j] == pairs[j];
    }
  }

  /** The keys of a `mapWithKeys` array in array order: a PHP array keeps a
      key at the place of its first insertion, even when a later pair
      replaces its value. */
  function KeysInOrder<V>(pairs: seq<(string, V)>): seq<string>
    decreases |pairs|
  {
    if pairs == [] then []
    else
      var init := KeysInOrder(pairs[..|pairs| - 1]);
      var k := pairs[|pairs| - 1].0;
      if k in init then init else init + [k]
  }

  /** `x` is paired somewhere before `y` is first paired. */
  predicate FirstBefore<V>(pairs: seq<(string, V)>, x: string, y: string)
  {
    exists p :: 0 <= p < |pairs| && pairs[p].0 == x && forall q :: 0 <= q <= p ==> pairs[q].0 != y
  }

  /** The ordered keys list every key once, exactly the keys of the pairs,
      each before every key that is first paired later. */
  lemma {:induction false} KeysInOrderSpec<V>(pairs: seq<(string, V)>)
    ensures var r := KeysInOrder(pairs);
      && (forall i, j :: 0 <= i < j < |r| ==> r[i] != r[j])
      && (forall k :: k in r <==> k in KeySet(pairs))
      && (forall a, b :: 0 <= a < b < |r| ==> FirstBefore(pairs, r[a], r[b]))
    decreases |pairs|
  {
    if pairs == [] {
      assert KeySet(pairs) == {};
    } else {
      var n := |pairs| - 1;
      var init := pairs[..n];
      var ri := KeysInOrder(init);
      var k := pairs[n].0;
      KeysInOrderSpec(init);
      KeySetSnoc(pairs);
      FirstBeforeSnoc(pairs);
      if k !in ri {
        assert KeysInOrder(pairs) == ri + [k];
        NewKeyLast(pairs, init);
      }
    }
  }

  /** Dropping the last pair never undoes "first paired before". */
  lemma FirstBeforeSnoc<V>(pairs: seq<(string, V)>)
    requires pairs != []
    ensures forall x, y :: FirstBefore(pairs[..|pairs| - 1], x, y) ==> FirstBefore(pairs, x, y)
  {
    var init := pairs[..|pairs| - 1];
    forall x, y | FirstBefore(init, x, y) ensures FirstBefore(pairs, x, y) {
      var p :| 0 <= p < |init| && init[p].0 == x && forall q :: 0 <= q <= p ==> init[q].0 != y;
      assert pairs[p] == init[p];
      forall q | 0 <= q <= p ensures pairs[q].0 != y {
        assert pairs[q] == init[q];
      }
    }
  }

  /** A key first paired by the last pair comes after every earlier key. */
  lemma NewKeyLast<V>(pairs: seq<(string, V)>, init: seq<(string, V)>)
    requires pairs != [] && init == pairs[..|pairs| - 1]
    requires forall k :: k in KeysInOrder(init) <==> k in KeySet(init)
    requires pairs[|pairs| - 1].0 !in KeysInOrder(init)
    ensures var ri := KeysInOrder(init);
      forall a :: 0 <= a < |ri| ==> FirstBefore(pairs, ri[a], pairs[|pairs| - 1].0)
  {
    var n := |pairs| - 1;
    var ri := KeysInOrder(init);
    var k := pairs[n].0;
    forall a | 0 <= a < |ri| ensures FirstBefore(pairs, ri[a], k) {
      assert ri[a] in KeySet(init);
      var p :| 0 <= p < |init| && init[p].0 == ri[a];
      assert pairs[p] == init[p];
      forall q | 0 <= q <= p ensures pairs[q].0 != k {
        assert pairs[q] == init[q];
        assert init[q].0 in KeySet(init);
      }
    }
  }

  // ---- getStrategies ----

  /** The callback of `getStrategies`: each strategy paired with its name. */
  function Keyed(config: Config): (r: seq<(string, Strategy)>)
    ensures |r| == |config|
    ensures forall i :: 0 <= i < |config| ==> r[i] == (config[i].Name(), config[i])
  {
    seq(|config|, i requires 0 <= i < |config| => (config[i].Name(), config[i]))
  }

  /** No two configured strategies share a name. */
  predicate DistinctNames(config: Config)
  {
    forall i, j :: 0 <= i < j < |config| ==> config[i].Name() != config[j].Name()
  }

  /** The names of the configured strategies. */
  function Names(config: Config): set<string>
  {
    KeySet(Keyed(config))
  }

  /** Distinct names are distinct keys of the `mapWithKeys` pairs. */
  lemma DistinctNamesKeyed(config: Config)
    requires DistinctNames(config)
    ensures DistinctKeys(Keyed(config))
  {
    var pairs := Keyed(config);
    forall i, j | 0 <= i < j < |pairs| ensures pairs[i].0 != pairs[j].0 {
      assert pairs[i].0 == config[i].Name() && pairs[j].0 == config[j].Name();
    }
  }

  /** `getStrategies`: every configured name is a key, and every key maps to
      a configured strategy of that name. */
  function GetStrategies(config: Config): (r: map<string, Strategy>)
    ensures forall i :: 0 <= i < |config| ==> config[i].Name() in r
    ensures forall k :: k in r ==> r[k] in config && r[k].Name() == k
  {
    KeyedEntries(config);
    MapWithKeys(Keyed(config))
  }

  /** Each entry of the `mapWithKeys` array of `getStrategies` is a configured
      strategy of its key's name. */
  lemma KeyedEntries(config: Config)
    ensures var r := MapWithKeys(Keyed(config));
      forall k :: k in r ==> r[k] in config && r[k].Name() == k
  {
    var pairs := Keyed(config);
    var r := MapWithKeys(pairs);
    forall k | k in r ensures r[k] in config && r[k].Name() == k {
      KeyedEntry(config, k, r[k]);
    }
  }

  lemma KeyedEntry(config: Config, k: string, st: Strategy)
    requires (k, st) in Keyed(config)
    ensures st in config && st.Name() == k
  {
    var pairs := Keyed(config);
    var j :| 0 <= j < |pairs| && pairs[j] == (k, st);
    assert pairs[j] == (config[j].Name(), config[j]);
  }

  /** The order of the keys of `getStrategies`: each configured name once,
      exactly the registered names, in the order of their first
      configuration. */
  function StrategyOrder(config: Config): seq<string>
  {
    KeysInOrder(Keyed(config))
  }

  lemma StrategyOrderSpec(config: Config)
    ensures var r := StrategyOrder(config);
      && (forall i, j :: 0 <= i < j < |r| ==> r[i] != r[j])
      && (forall k :: k in r <==> k in GetStrategies(config))
      && (forall a, b :: 0 <= a < b < |r| ==> NamedBefore(config, r[a], r[b]))
  {
    var pairs := Keyed(config);
    var r := StrategyOrder(config);
    KeysInOrderSpec(pairs);
    MapWithKeysSize(pairs);
    forall a, b | 0 <= a < b < |r| ensures NamedBefore(config, r[a], r[b]) {
      KeyedBefore(config, r[a], r[b]);
    }
  }

  /** A strategy named `x` is configured before the first one named `y`. */
  predicate NamedBefore(config: Config, x: string, y: string)
  {
    exists p :: 0 <= p < |config| && config[p].Name() == x && forall q :: 0 <= q <= p ==> config[q].Name() != y
  }

  /** A name paired before another among the pairs of `getStrategies` is
      configured before it. */
  lemma KeyedBefore(config: Config, x: string, y: string)
    requires FirstBefore(Keyed(config), x, y)
    ensures NamedBefore(config, x, y)
  {
    var pairs := Keyed(config);
    var p :| 0 <= p < |pairs| && pairs[p].0 == x && forall q :: 0 <= q <= p ==> pairs[q].0 != y;
    assert config[p].Name() == x;
    forall q | 0 <= q <= p ensures config[q].Name() != y {
      assert pairs[q].0 == config[q].Name();
    }
  }

  /** Later wins: the last configured strategy of a name is the registered
      one. */
  lemma LastOfItsName(config: Config, i: int)
    requires 0 <= i < |config|
    requires forall j :: i < j < |config| ==> config[j].Name() != config[i].Name()
    ensures GetStrategies(config)[config[i].Name()] == config[i]
  {
    MapWithKeysLaterWins(Keyed(config), i);
  }

  /** The registry has one entry per distinct configured name: never more
      entries than configured strategies, and exactly as many when the names
      are distinct. */
  lemma RegistrySize(config: Config)
    ensures GetStrategies(config).Keys == Names(config)
    ensures |GetStrategies(config)| == |Names(config)| <= |config|
    ensures DistinctNames(config) ==> |GetStrategies(config)| == |config|
  {
    MapWithKeysSize(Keyed(config));
    if DistinctNames(config) {
      DistinctNamesKeyed(config);
    }
  }

  /** The array key of a nullable strategy name: PHP uses `""` for null. */
  function KeyOf(name: Option<string>): string
  {
    name.GetOr("")
  }

  /** `getStrategies()[name] ?? null`: the strategy registered under the
      name, present exactly when some configured strategy has that name. */
  function Lookup(config: Config, name: Option<string>): (r: Option<Strategy>)
    ensures r.Some? <==> exists i :: 0 <= i < |config| && config[i].Name() == KeyOf(name)
    ensures r.Some? ==> r.value in config && r.value.Name() == KeyOf(name)
  {
    var m := GetStrategies(config);
    if KeyOf(name) in m then Some(m[KeyOf(name)]) else None
  }

  /** `applyCoupon`: false for a coupon whose strategy name is not registered;
      otherwise what the registered strategy's `apply` does with it. */
  function ApplyCoupon(config: Config, coupon: Coupon, apply: (Strategy, Coupon) -> ApplyResult): (r: ApplyResult)
    ensures (forall i :: 0 <= i < |config| ==> config[i].Name() != coupon.strategy) ==> r == Returned(false)
    ensures forall i :: 0 <= i < |config| && config[i].Name() == coupon.strategy
                        && (forall j :: i < j < |config| ==> config[j].Name() != coupon.strategy)
                        ==> r == apply(config[i], coupon)
  {
    forall i | 0 <= i < |config| && config[i].Name() == coupon.strategy
                 && (forall j :: i < j < |config| ==> config[j].Name() != coupon.strategy)
    {
      LastOfItsName(config, i);
    }
    match Lookup(config, Some(coupon.strategy))
    case None => Returned(false)
    case Some(st) => apply(st, coupon)
  }

  /** The payload form a strategy offers: the fields its class declares. */
  function Schema(st: Strategy): Schema
  {
    st.declaredSchema
  }

  /** `getStrategyPayloadSchema`, with each strategy's own schema: `[]` for
      an unregistered name, else the schema of the last configured strategy
      with that name. */
  function GetStrategyPayloadSchema(config: Config, name: Option<string>): (r: Schema)
    ensures (forall i :: 0 <= i < |config| ==> config[i].Name() != KeyOf(name)) ==> r == []
    ensures forall i :: 0 <= i < |config| && config[i].Name() == KeyOf(name)
                        && (forall j :: i < j < |config| ==> config[j].Name() != KeyOf(name))
                        ==> r == config[i].declaredSchema
  {
    forall i | 0 <= i < |config| && config[i].Name() == KeyOf(name)
                 && (forall j :: i < j < |config| ==> config[j].Name() != KeyOf(name))
    {
      LastOfItsName(config, i);
    }
    match Lookup(config, name)
    case None => []
    case Some(st) => Schema(st)
  }

  /** `hasStrategyPayloadSchema`: `filled` of the schema, that is, whether it
      has any field. */
  function HasStrategyPayloadSchema(config: Config, name: Option<string>): (r: bool)
    ensures r <==> |GetStrategyPayloadSchema(config, name)| > 0
  {
    GetStrategyPayloadSchema(config, name) != []
  }

  /** An unregistered name has no payload schema. */
  lemma UnknownNameHasNoSchema(config: Config, name: Option<string>)
    requires forall i :: 0 <= i < |config| ==> config[i].Name() != KeyOf(name)
    ensures GetStrategyPayloadSchema(config, name) == [] && !HasStrategyPayloadSchema(config, name)
  {
  }

  /** A null name is looked up as `""`, which no strategy class yields unless
      its snake-cased short name starts with `_strategy`. */
  lemma NullNameIsEmptyKey(config: Config)
    ensures Lookup(config, None) == Lookup(config, Some(""))
  {
  }

  // ---- the payload schema as the code is written ----

  /** `getStrategyPayloadSchema` as written: `schema` is `final` in
      `CouponStrategy`, so every registered strategy answers with the base
      class's empty schema. */
  function GetStrategyPayloadSchemaAsWritten(config: Config, name: Option<string>): (r: Schema)
    ensures r == []
  {
    match Lookup(config, name)
    case None => []
    case Some(_) => BaseSchema
  }

  function HasStrategyPayloadSchemaAsWritten(config: Config, name: Option<string>): (r: bool)
    ensures !r
  {
    GetStrategyPayloadSchemaAsWritten(config, name) != []
  }

  /** The discrepancy: a strategy whose class declares payload fields, the
      last of its name, has a payload schema by the design and none as the
      code is written. */
  lemma FinalSchemaHidesFields(config: Config, i: int)
    requires 0 <= i < |config| && config[i].declaredSchema != []
    requires forall j :: i < j < |config| ==> config[j].Name() != config[i].Name()
    ensures HasStrategyPayloadSchema(config, Some(config[i].Name()))
    ensures !HasStrategyPayloadSchemaAsWritten(config, Some(config[i].Name()))
  {
  }
}
