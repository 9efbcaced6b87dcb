# Coupon engine of filament-coupons, in Dafny

This project models the coupon core of the Laravel/Filament package
`noxoua/filament-coupons` and proves properties of it. The core covers:

- **Validity rules.** A coupon is active when its flag is set and the
  current instant lies in its inclusive `starts_at`/`expires_at` window. It
  can be consumed when it has no usage limit, or a limit above its usage
  count. It is valid when it is both.
- **Consumption.** `consume` adds one usage row and may deactivate the
  coupon. Deleting a coupon first deletes its usages.
- **Strategy registry.** Each strategy class gets a name derived from its
  class name with `afterLast`, `snake` and `before`. The registry collects the
  configured strategies under those names; a later strategy of the same name
  wins. The registry serves `applyCoupon` and the payload-schema queries.
- **Redeem-a-code action.** The action looks a code up, checks the coupon
  and dispatches it to its strategy. Every situation ends in a danger
  notification and halt, a success, a failure, the reported generic error, or
  the form's refusal of the code before the action runs.
- **Multi-create page.** The page turns one form submission into one coupon,
  or into several coupons with generated codes. The number of coupons goes
  through PHP 8's `(int)` cast of a string: the longest numeric prefix is read,
  an integer that fits in 64 bits is exact, and anything else is rounded to the
  nearest double, then cut toward zero and saturated, with an infinite double
  giving 0.
- **Class-name command.** `make:coupons-strategy` normalises a strategy
  class name and chooses its target path.

Layout:

- `options.dfy`: `Option` and `Result`.
- `str.dfy`: the Laravel string helpers the core calls, on ASCII.
- `models.dfy`: the records and the `usages()` relation.
- `validity.dfy`: `isActive`, `canConsume` and `isValid`.
- `store.dfy`: consumption and the cascade delete. It has pure specification
  functions on a `StoreState` value, and a `CouponStore` class whose methods
  are proved against those functions.
- `strategies.dfy`: `CouponStrategy`, its name and its schema.
- `registry.dfy`: `getStrategies` and the operations built on it.
- `apply_action.dfy`: `ApplyCouponAction`.
- `numeric_string.dfy`: PHP's `(int)` cast of a string: the numeric-prefix
  reader, rounding to the nearest double, and the cut to a 64-bit integer.
- `create_coupon.dfy`: `CreateCoupon::handleRecordCreation`.
- `strategy_command.dfy`: `CreateStrategyCommand`.

Inputs the source reads from its environment become parameters:

- the clock (`now()`) is `now`, in whole seconds;
- the configured strategy classes are a sequence of strategy values;
- a strategy's `apply` is an oracle `(Strategy, Coupon) -> ApplyResult`, which returns a boolean or throws;
- the strategy resolver that the action calls is `resolve`;
- `Str::random(10)` is an oracle `random`. Its `i`-th answer is the code of the `i`-th record;
- the prompt answer of the command is a parameter.

## Model

| member | source | states |
|---|---|---|
| `Validity.IsActive` | src/Coupons.php:86-94 | the definition: the flag is set and `now` is at or after `starts_at` and at or before `expires_at`, each bound only when set; its consequences are `WindowBoundsInclusive`, `ActiveWindowConvex` and `UnboundedWindow` |
| `Validity.CanConsume` | src/Coupons.php:103-106 | the definition: no limit, or a limit strictly above the usage count; `CanConsumeLimits` and `CanConsumeIffUsesLeft` characterise it |
| `Validity.IsValid` | src/Coupons.php:73-76 | the definition: active and consumable; `InactiveNeverValid` is its consequence |
| `Validity.CanConsumeLimits` | src/Coupons.php:103-106 | without a limit a coupon can always be consumed; with limit `k` exactly while the count is below `k`, so never for `k <= 0`, after `k-1` usages but not after `k` |
| `Validity.CanConsumeIffUsesLeft` | src/Coupons.php:103-106 | consumable exactly when there is no limit or the limit leaves uses after the current count |
| `Validity.InactiveNeverValid` | src/Coupons.php:73-76 | a cleared `active` flag makes the coupon inactive and invalid whatever its dates and limit |
| `Validity.WindowBoundsInclusive` | src/Coupons.php:86-94 | active at `starts_at` but not one second before, at `expires_at` but not one second after |
| `Validity.ActiveWindowConvex` | src/Coupons.php:86-94 | the instants at which a coupon is active form an interval |
| `Validity.UnboundedWindow` | src/Coupons.php:86-94 | with neither date set, activity is the flag alone |
| `Models.UsagesOf` | src/Models/Coupon.php:34-37 | the relation is never longer than the usage table |
| `Models.UsageCount` | src/Coupons.php:105 | the definition: `usages()->count()` is the length of the relation, which `UsagesOfAppend` and `UsagesOfAfterDelete` relate to saving and deleting rows |
| `Models.UsagesOfMembers` | src/Models/Coupon.php:34-37 | the relation holds exactly the stored rows with that `coupon_id` |
| `Models.UsagesOfAppend` | src/Coupons.php:126-134 | saving a usage row extends its coupon's relation by that row and leaves every other relation as it was |
| `Models.WithoutUsagesOf` | src/Models/Coupon.php:41-43 | after deleting a coupon's usages the table holds exactly the rows of other coupons |
| `Models.UsagesOfAfterDelete` | src/Models/Coupon.php:41-43 | after deleting a coupon's usages its relation is empty and every other relation is unchanged |
| `Store.ConsumeSpec` | src/Coupons.php:114-143 | consuming never adds or removes a coupon |
| `Store.ConsumeInvalidHasNoEffect` | src/Coupons.php:120-122 | an invalid coupon yields false and leaves the whole store unchanged |
| `Store.ConsumeValid` | src/Coupons.php:124-141 | a valid coupon yields true, gets exactly one new usage row with the given meta and couponable, and its count grows by one. It is deactivated exactly when the flag is set and this usage reached the limit. Nothing else changes |
| `Store.ConsumeKeepsOtherUsages` | src/Coupons.php:124-141 | consuming one coupon leaves every other coupon's usages as they were |
| `Store.ConsumePreservesConsistent` | src/Coupons.php:114-143 | consuming keeps ids, unique codes, foreign keys and increasing usage ids intact |
| `Store.ConsumeRespectsLimit` | src/Coupons.php:114-143 | a consume never takes a coupon's count past its limit |
| `Store.ConsumeTimes` | src/Coupons.php:114-143 | `t` consumes in a row give `t` results and keep the coupon stored; `RepeatedConsume` and `ConsumeTimesInvalid` say which succeed |
| `Store.ConsumeTimesInvalid` | src/Coupons.php:120-122 | repeated consumes of an invalid coupon all fail and change nothing |
| `Store.RepeatedConsume` | src/Coupons.php:114-143 | of `t` consumes of an active limited coupon, exactly the first `min(t, k-n)` succeed. The count grows by that number and never exceeds `max(k, n)`. The coupon ends inactive exactly when the flag is set and the limit was reached |
| `Store.RepeatedConsumeUnlimited` | src/Coupons.php:114-143 | every consume of an active unlimited coupon succeeds, adds one row, and never deactivates it |
| `Store.LimitTwoScenario` | src/Coupons.php:114-143 | an active coupon with limit 2, consumed three times, gives true, true, false, two rows, and ends inactive |
| `Store.DeleteSpec` | src/Models/Coupon.php:39-44 | the deleted coupon is gone, every other coupon stays with its value, the id counters are unchanged, and deleting an absent id changes nothing |
| `Store.InsertSpec` | src/Resources/CouponResource/Pages/CreateCoupon.php:27 | a taken code leaves the store as it is; otherwise the submitted coupon is stored under the next auto-increment id, the counter moves past it, usages do not change and every other coupon keeps its value; that the id is unused is `InsertPreservesConsistent` |
| `Store.DeleteCascades` | src/Models/Coupon.php:41-43 | deleting a coupon removes exactly its usages and keeps every other relation |
| `Store.DeletePreservesConsistent` | src/Models/Coupon.php:39-44 | deleting keeps the store consistent; no usage is left pointing at the deleted coupon |
| `Store.InsertPreservesConsistent` | src/Resources/CouponResource/Pages/CreateCoupon.php:27 | creating a coupon keeps the store consistent and fails exactly when the code is taken; on success the new id is one no stored coupon has, and the store holds one coupon more |
| `Store.CouponStore.Consume` | src/Coupons.php:114-143 | the in-place consume moves the store as `ConsumeSpec` says, returns `isValid`, and changes nothing when it returns false |
| `Store.CouponStore.Delete` | src/Models/Coupon.php:39-44 | the in-place delete moves the store as `DeleteSpec` says |
| `Store.CouponStore.Insert` | src/Resources/CouponResource/Pages/CreateCoupon.php:27 | the in-place insert moves the store as `InsertSpec` says |
| `Str.Snake` | src/Strategies/CouponStrategy.php:25 | the definition of `snake` on ASCII: a string of small letters is kept; any other is word-capitalised, loses its whitespace, gets `_` before every inner capital and is lowered; `SnakeChars` and `SnakeOfLetters` are its properties |
| `Str.Before` | src/Strategies/CouponStrategy.php:26 | `before` keeps the prefix up to the first occurrence of the needle, or the whole string |
| `Str.AfterLast` | src/Strategies/CouponStrategy.php:24 | `afterLast` keeps the longest suffix without the separator |
| `Str.SnakeChars` | src/Strategies/CouponStrategy.php:25 | `snake` leaves no capital and no whitespace, and brings in no backslash |
| `Str.SnakeOfLetters` | src/Strategies/CouponStrategy.php:25 | on letters starting with a capital, `snake` puts an underscore before each later capital and lowers everything |
| `Str.BeforeLast` | src/Commands/CreateStrategyCommand.php:31 | `beforeLast` keeps the prefix up to the last occurrence of the needle, or the whole string |
| `Str.Studly` | src/Commands/CreateStrategyCommand.php:30 | `studly` leaves no separator and capitalises its first character |
| `Str.StudlyIdempotent` | src/Commands/CreateStrategyCommand.php:30 | `studly` is idempotent |
| `Strategies.ShortSnake` | src/Strategies/CouponStrategy.php:23-25 | the definition: the class name after its last backslash, snake-cased; `TwoWordShortSnake` evaluates it |
| `Strategies.GetName` | src/Strategies/CouponStrategy.php:21-27 | the definition: `ShortSnake` cut before the first `_strategy`; `GetNameChars`, `GetNameCut` and `SingleWordName` are its properties |
| `Strategies.GetNameChars` | src/Strategies/CouponStrategy.php:21-27 | a strategy name has no backslash, no capital and no whitespace |
| `Strategies.GetNameCut` | src/Strategies/CouponStrategy.php:21-27 | the name is the snake-cased short class name, cut before its first `_strategy` when there is one |
| `Strategies.TwoWordShortSnake` | src/Strategies/CouponStrategy.php:23-25 | the short name of a class `XY`, for capitalised words, snake-cases to `x_y` whatever the namespace |
| `Strategies.SingleWordName` | src/Strategies/CouponStrategy.php:21-27 | a class `XStrategy`, for a capitalised word `X`, is named `x` in any namespace |
| `Strategies.SingleWordNameGlobal` | src/Strategies/CouponStrategy.php:21-27 | a class `XStrategy` in the global namespace, for a capitalised word `X`, is named `x` |
| `Strategies.BaseClassName` | src/Strategies/CouponStrategy.php:21-27 | an example of `getName`: a class whose short name is `CouponStrategy` is named `coupon` in any namespace |
| `Registry.MapWithKeys` | src/Coupons.php:45-51 | every pair's key is present, and each key maps to a value it was paired with |
| `Registry.MapWithKeysLaterWins` | src/Coupons.php:45-51 | a pair's value is kept when no later pair has its key |
| `Registry.MapWithKeysSize` | src/Coupons.php:45-51 | the keys are exactly the pairs' keys; as many entries as distinct keys, at most as many as pairs |
| `Registry.KeysInOrderSpec` | src/Coupons.php:45-51 | the array keys in order list each key once, exactly the pairs' keys, each before every key first paired later |
| `Registry.GetStrategies` | src/Coupons.php:41-52 | every configured name is registered, and each entry is a configured strategy of that name; the key order is `StrategyOrder` |
| `Registry.StrategyOrderSpec` | src/Coupons.php:41-52 | the keys of `getStrategies` in array order: each registered name once, in the order of its first configuration |
| `Registry.LastOfItsName` | src/Coupons.php:41-52 | the last configured strategy of a name is the registered one |
| `Registry.RegistrySize` | src/Coupons.php:41-52 | one entry per distinct name; never more than configured, exactly as many when names are distinct |
| `Registry.KeyOf` | src/Coupons.php:19 | the definition: PHP uses the empty key for a null name; `NullNameIsEmptyKey` is its consequence for lookups |
| `Registry.Lookup` | src/Coupons.php:19 | the lookup finds a strategy exactly when one is configured under the name, and finds one of that name |
| `Registry.ApplyCoupon` | src/Coupons.php:57-66 | an unregistered name gives false; otherwise the result is what the last strategy of that name does with the coupon |
| `Registry.Schema` | src/Coupons.php:25 | the schema a strategy answers with, as each strategy is meant to supply it; the `final` base method is `GetStrategyPayloadSchemaAsWritten` |
| `Registry.GetStrategyPayloadSchema` | src/Coupons.php:17-26 | `[]` for an unregistered name, otherwise the schema of the last configured strategy of that name |
| `Registry.HasStrategyPayloadSchema` | src/Coupons.php:31-34 | true exactly when that schema has a field |
| `Registry.NullNameIsEmptyKey` | src/Coupons.php:19 | a null name is looked up as the empty key |
| `Registry.GetStrategyPayloadSchemaAsWritten` | src/Strategies/CouponStrategy.php:32-38 | as written, every name has an empty payload schema |
| `Registry.HasStrategyPayloadSchemaAsWritten` | src/Coupons.php:31-34 | as written, no name has a payload schema |
| `Registry.FinalSchemaHidesFields` | src/Strategies/CouponStrategy.php:32-38 | a strategy that declares fields has a payload schema as intended and none as written |
| `ApplyAction.CodeAccepted` | src/Actions/ApplyCouponAction.php:25-30 | the definition: `required` refuses a code that is empty once trimmed, and `maxLength(20)` a longer one; `EndsOnce` and `RejectionIgnoresStrategies` use it |
| `ApplyAction.FindByCode` | src/Actions/ApplyCouponAction.php:33-35 | absent exactly when no stored coupon has the code; otherwise the stored coupon with exactly that code |
| `ApplyAction.Usable` | src/Actions/ApplyCouponAction.php:37 | a coupon is usable exactly when it is found and valid now |
| `ApplyAction.Dispatch` | src/Actions/ApplyCouponAction.php:46-65 | the definition of the `try` block: a missing or throwing strategy, a throwing `apply`, or `passToAction` on a class without `CanNotifyAndRedirect` gives the reported generic error; otherwise the hand-over and success or failure; `DispatchResolved` and `ThrowNeverSucceeds` state it |
| `ApplyAction.Closure` | src/Actions/ApplyCouponAction.php:32-66 | the definition of the closure: rejection for an unusable code, dispatch otherwise; `RejectedIffUnusable` and `SuccessIffApplied` characterise it |
| `ApplyAction.Redeem` | src/Actions/ApplyCouponAction.php:25-66 | the definition of a submission: validation, then the closure; `EndsOnce` says every run ends in one terminal effect |
| `ApplyAction.RejectedIffUnusable` | src/Actions/ApplyCouponAction.php:37-44 | an accepted code gets the failure notification and a halt exactly when no coupon has it or that coupon is invalid |
| `ApplyAction.RejectionIgnoresStrategies` | src/Actions/ApplyCouponAction.php:37-44 | a refused or rejected code reaches no strategy: the effects do not depend on the resolver or on `apply` |
| `ApplyAction.SuccessIffApplied` | src/Actions/ApplyCouponAction.php:46-58 | success exactly when the coupon is usable, its strategy resolves to a class using `CanNotifyAndRedirect` and `apply` returns true; failure exactly when, under the same conditions, `apply` returns false |
| `ApplyAction.ThrowNeverSucceeds` | src/Actions/ApplyCouponAction.php:46-65 | a throw from the resolver, a missing strategy, a throw from `apply`, or `passToAction` undefined on the strategy gives the reported generic error |
| `ApplyAction.ErroredShape` | src/Actions/ApplyCouponAction.php:59-65 | an error run reports, notifies and halts, and holds no success, failure or hand-over |
| `ApplyAction.EndsOnce` | src/Actions/ApplyCouponAction.php:32-82 | every run ends in exactly one terminal effect, its last |
| `ApplyAction.ErrorAlwaysHalts` | src/Actions/ApplyCouponAction.php:74-82 | `error` sends the danger notification, then halts |
| `ApplyAction.CouponAction.Error` | src/Actions/ApplyCouponAction.php:74-82 | the in-place `error` appends the notification and the halt |
| `ApplyAction.CouponAction.Act` | src/Actions/ApplyCouponAction.php:32-66 | the step-by-step closure, including the hand-over after `apply`, has exactly the effects of `Closure` |
| `ApplyAction.GetStrategyAsWritten` | src/Actions/ApplyCouponAction.php:47 | as written, resolving any name throws for the undefined method |
| `ApplyAction.AsWrittenNeverApplies` | src/Actions/ApplyCouponAction.php:47 | as written, no run succeeds, fails or hands over, and every usable code ends in the reported generic error |
| `ApplyAction.GetStrategy` | src/Coupons.php:19 | the intended resolver is unresolved exactly for an unconfigured name, otherwise gives a configured strategy of that name, and never throws |
| `ApplyAction.DispatchResolved` | src/Actions/ApplyCouponAction.php:53-58 | a resolved strategy's `apply` decides the outcome: error if it throws; when it returns, the generic error if the class lacks `passToAction`, else success or failure after the hand-over |
| `ApplyAction.IntendedDispatch` | src/Actions/ApplyCouponAction.php:46-65 | with the intended resolver, the dispatch agrees with `applyCoupon` for the last strategy of the name, unless that strategy lacks `passToAction` |
| `ApplyAction.IntendedMatchesApplyCoupon` | src/Actions/ApplyCouponAction.php:32-66 | with the intended resolver, a usable code gets success or failure as `applyCoupon` returns true or false for a strategy with the trait, the generic error for one without it, and the generic error when `apply` throws |
| `ApplyAction.IntendedUnknownStrategy` | src/Actions/ApplyCouponAction.php:49-51 | with the intended resolver, an unregistered strategy is reported as invalid, where `applyCoupon` returns false |
| `NumericString.ReadNumeric` | src/Resources/CouponResource/Pages/CreateCoupon.php:21 | the numeric prefix after leading whitespace and a sign has digits before or after its point, and no fraction without a point; `ReadUnsignedPresence` says when there is one |
| `NumericString.ReadUnsignedPresence` | src/Resources/CouponResource/Pages/CreateCoupon.php:21 | after the sign there is a numeric prefix exactly when a digit, or a point and a digit, come first |
| `NumericString.StringToInt` | src/Resources/CouponResource/Pages/CreateCoupon.php:21 | PHP's `(int)` of a string stays within the 64-bit range; `NumeralRoundTrip`, `SignedNumeralRoundTrip`, `DecimalTruncates` and `OnePointNines` evaluate it |
| `NumericString.ReadExponent` | src/Resources/CouponResource/Pages/CreateCoupon.php:21 | an exponent that is read lies within `-19999..19999`, larger magnitudes being capped |
| `NumericString.Log2` | src/Resources/CouponResource/Pages/CreateCoupon.php:21 | the binary exponent `e` of `num / den`: `2^e <= num / den < 2^(e + 1)` |
| `NumericString.Log2Unique` | src/Resources/CouponResource/Pages/CreateCoupon.php:21 | that exponent is the only one with the property |
| `NumericString.RoundHalfEven` | src/Resources/CouponResource/Pages/CreateCoupon.php:21 | a nearest integer to `sn / sd`, the even one on a tie; it is the quotient or one more |
| `NumericString.NearestDouble` | src/Resources/CouponResource/Pages/CreateCoupon.php:21 | the double nearest to `num / den` as `q * 2^k`: `q` is the nearest, ties-to-even rounding of `num / den / 2^k`, `k` is at least -1074, and above the subnormal range `q` lies between `2^52` and `2^53` |
| `NumericString.DoubleToInt` | src/Resources/CouponResource/Pages/CreateCoupon.php:21 | the cut of a double `q * 2^k` to an integer is within the 64-bit range; `IntegerDouble` evaluates it beyond that range |
| `NumericString.InfiniteDouble` | src/Resources/CouponResource/Pages/CreateCoupon.php:21 | a double `q * 2^k` reaches `2^top` exactly when `q` has more than `top - k` bits |
| `NumericString.NormalSignificand` | src/Resources/CouponResource/Pages/CreateCoupon.php:21 | above the subnormal range the rounded significand lies between `2^52` and `2^53` |
| `NumericString.IntegerDouble` | src/Resources/CouponResource/Pages/CreateCoupon.php:21 | an integer beyond 64 bits is cast to `IntMax` (`IntMin` with a minus sign) below the overflow limit of doubles, and to 0 from there on, where its double is infinite |
| `NumericString.DoubleLimitAboveLong` | src/Resources/CouponResource/Pages/CreateCoupon.php:21 | the overflow limit of doubles lies above the 64-bit range |
| `NumericString.IntegerFormToInt` | src/Resources/CouponResource/Pages/CreateCoupon.php:21 | an integer prefix is cast to its value, saturated at the 64-bit bounds, below the overflow limit of doubles, and to 0 from there on |
| `NumericString.NumeralRoundTrip` | src/Resources/CouponResource/Pages/CreateCoupon.php:21 | a typed numeral is cast back to its number, saturated at `IntMax`; from the overflow limit of doubles on it gives 0 |
| `NumericString.SignedNumeralRoundTrip` | src/Resources/CouponResource/Pages/CreateCoupon.php:21 | a signed numeral is cast to the number, negated for `-`, saturated at both 64-bit bounds, and to 0 from the overflow limit of doubles on |
| `NumericString.DecimalTruncates` | src/Resources/CouponResource/Pages/CreateCoupon.php:21 | a numeral with a fraction short enough to be exact in a double is cast to its whole part |
| `NumericString.OnePointNines` | src/Resources/CouponResource/Pages/CreateCoupon.php:21 | `1.` followed by at most 15 nines is cast to 1; with 16 or more the double rounds up to 2 and the cast gives 2 |
| `CreateCoupon.IntCast` | src/Resources/CouponResource/Pages/CreateCoupon.php:21 | the definition of `(int)` on each kind of form value: null 0, booleans 0 or 1, strings by `StringToInt`, arrays 0 when empty else 1 |
| `CreateCoupon.Count` | src/Resources/CouponResource/Pages/CreateCoupon.php:21 | a missing or null count means 1; otherwise the cast count, raised to 1 |
| `CreateCoupon.TypedCount` | src/Resources/CouponResource/Pages/CreateCoupon.php:21 | a count typed as a numeral `n > 1` makes `n` records |
| `CreateCoupon.DecimalCount` | src/Resources/CouponResource/Pages/CreateCoupon.php:21 | a count typed with a short decimal fraction makes as many records as its whole part, at least one |
| `CreateCoupon.NinesCount` | src/Resources/CouponResource/Pages/CreateCoupon.php:21 | a count typed as `1.` and nines makes one record with at most 15 nines and two from 16 on |
| `CreateCoupon.HandleRecordCreation` | src/Resources/CouponResource/Pages/CreateCoupon.php:19-31 | makes exactly `Count` records, the `i`-th from `Created(data, random, i)`, and returns the last. With one record and no code it fails before making any |
| `CreateCoupon.CodeFor` | src/Resources/CouponResource/Pages/CreateCoupon.php:26 | the definition: the `i`-th random code when several records are made, else the submitted code; `CodeAssignment` states it |
| `CreateCoupon.Created` | src/Resources/CouponResource/Pages/CreateCoupon.php:23-27 | the definition: the submitted data without the count, with that record's code; `CreatedFields` and `SameOtherFields` state it |
| `CreateCoupon.CreatedFields` | src/Resources/CouponResource/Pages/CreateCoupon.php:23-27 | no record carries `number_of_coupons`, every record carries a code |
| `CreateCoupon.SameOtherFields` | src/Resources/CouponResource/Pages/CreateCoupon.php:23-27 | records differ at most in their codes; every other field is the submitted value |
| `CreateCoupon.CodeAssignment` | src/Resources/CouponResource/Pages/CreateCoupon.php:22-26 | one record keeps the submitted code verbatim; several get fresh ten-character codes |
| `StrategyCommand.InputName` | src/Commands/CreateStrategyCommand.php:25-29 | the argument when given (even empty), otherwise the prompt answer |
| `StrategyCommand.ClassName` | src/Commands/CreateStrategyCommand.php:25-33 | the class name always ends with `Strategy` |
| `StrategyCommand.ClassNameChars` | src/Commands/CreateStrategyCommand.php:25-33 | the class name has no whitespace, `-` or `_`, and its first character is not a small letter |
| `StrategyCommand.ClassNameIdempotent` | src/Commands/CreateStrategyCommand.php:25-33 | normalising a normalised name returns it unchanged |
| `StrategyCommand.TestExamples` | src/Commands/CreateStrategyCommand.php:25-33 | `Test` and `TestStrategy` both give `TestStrategy` |
| `StrategyCommand.EmptyName` | src/Commands/CreateStrategyCommand.php:25-33 | an empty name gives `Strategy` |
| `StrategyCommand.TargetPath` | src/Commands/CreateStrategyCommand.php:34 | the definition: `<app>/Coupons/<ClassName>.php`; `TargetFile` states where that file is |
| `StrategyCommand.TargetFile` | src/Commands/CreateStrategyCommand.php:34 | a name without `/` goes to `<app>/Coupons/<ClassName>.php` |

## Left out

- Concurrency: `DB::transaction` in `consume` is one atomic step, and row locking and races are not modelled.
- Reflection: `new $strategyClass` is not modelled. The configuration is a sequence of strategy values, so a bad class name cannot arise.
- A strategy's `apply`, `getLabel` and their effects on the store are not modelled: `apply` is an oracle whose store effects are left out.
- Persistence: Eloquent, the database schema, timestamp truncation and the casts of dates and JSON are left out. The unique index on `code` is taken as given (it lives in a migration that is not part of this model). Instants are whole seconds.
- Notifications, redirects and translations: a notification is its translation keys. `passToAction` is one effect when the strategy's class uses `CanNotifyAndRedirect`, and the undefined-method error otherwise; which redirects and notifications it copies is left out.
- UI: forms, tables, the relation manager and the List/Edit/View pages are left out. The `code` field's `required` and `maxLength(20)` rules are the only form rules modelled.
- The command's file copying, console output and `vendor:publish` call are I/O and are left out. The directory separator is `/`.
- String helpers: case mapping and whitespace are ASCII only. `Str::snake`'s caching is left out.
- GetStrategies: the result is a Dafny map, which has no order; the order of its keys, which a PHP array keeps, is stated separately by `StrategyOrder` and `StrategyOrderSpec`.
- ConsumeSpec and CouponStore.Consume: they consume the stored coupon with a given id. `Coupons::consume` checks and updates the `Coupon` instance it is passed and re-queries only the usage count, so an instance whose fields are stale (say, `active` changed in the database since it was loaded) can be judged differently from the stored row; the model assumes the instance equals the stored row.
- The `boolean` cast of `active` is not modelled: the store keeps the flag as a boolean.
- `NumericString.StringToInt`: the cast rounds through an exact nearest-double function, as a correctly rounding `zend_strtod` does; the C code of `zend_strtod` and `zend_dval_to_lval_cap` is not part of this model. Floats are not a form value.
- `ApplyAction.FindByCode`: codes are compared exactly, character for character. `where('code', ...)` compares with the database's collation, which may ignore case (MySQL's default does), so a code typed in another case can find a coupon there and not in the model.
- `ApplyAction.FindByCode`: it requires a consistent store, where codes are unique, as the database's unique index guarantees. With duplicate codes, `first()` would pick a row by an order the query does not fix.
- The `expires_at` bound is inclusive, as the code has it, so a coupon is still active at the exact instant it expires.
- Tests that override the `final` methods `getName` and `schema`, or call `getStrategy`, describe behaviour the code does not have. The model follows the code.

## Findings

| source | as written | input that shows it | evidently intended | confidence | as-written member | corrected member |
|---|---|---|---|---|---|---|
| src/Actions/ApplyCouponAction.php:47 | calls `coupons()->getStrategy(...)`, which `Coupons` does not declare, so PHP throws an `Error`; the `Throwable` handler turns it into the generic error for every valid coupon | any stored, valid coupon code, e.g. an active coupon with no dates and no limit | look the strategy up with `getStrategies()[$name] ?? null`, as `applyCoupon` does | high, not executed | `ApplyAction.AsWrittenNeverApplies` | `ApplyAction.GetStrategy` |
| src/Strategies/CouponStrategy.php:32-38 | `schema()` is `final` and returns `[]`, though its comment says concrete strategies override it, so `getStrategyPayloadSchema` is always `[]` and `hasStrategyPayloadSchema` always false | a configured strategy whose form declares payload fields | each strategy supplies its own schema | high, not executed | `Registry.FinalSchemaHidesFields` | `Registry.HasStrategyPayloadSchema` |
