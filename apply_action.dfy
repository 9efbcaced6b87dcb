/** The action of `ApplyCouponAction`: a code typed into its form is looked
    up, checked and dispatched to the coupon's strategy. What the action
    shows and does is a sequence of effects. How a strategy name is resolved
    and what a strategy's `apply` does are parameters, so that the action can
    be studied both with the resolver the code calls and with the registry
    lookup it evidently means. */
module ApplyAction {
  import opened Options
  import opened Models
  import opened Validity
  import opened Store
  import opened Strategies
  import Registry

  /** The translation keys of the two danger notifications. */
  const FailureTitle: string := "filament-coupons::filament-coupons.action.notifications.failure.title"
  const FailureBody: string := "filament-coupons::filament-coupons.action.notifications.failure.body"
  const ErrorTitle: string := "filament-coupons::filament-coupons.action.notifications.error.title"
  const ErrorBody: string := "filament-coupons::filament-coupons.action.notifications.error.body"

  /** The `maxLength` of the form's `code` field. */
  const MaxCodeLength: nat := 20

  /** A throwable, as `report` receives it. */
  datatype Thrown =
    | InvalidStrategy(name: string)   // the `Exception` the action throws for an unresolved strategy
    | UndefinedMethod(methodName: string) // the `Error` PHP throws for a call to a method a class lacks
    | ApplyThrew                      // whatever a strategy's `apply` throws

  /** One observable effect of the action. */
  datatype Effect =
    | ValidationFailed              // the form refuses the code and the action closure does not run
    | Notify(title: string, body: string) // a danger notification
    | Halt                          // `halt()`: the action stops here
    | Report(thrown: Thrown)        // `report($e)`
    | PassToAction(strategy: Strategy) // the strategy hands its notifications and redirects to the action
    | Success                       // `success()`
    | Failure                       // `failure()`

  /** What resolving a strategy name gives: a strategy, nothing, or a throw. */
  datatype Resolution = Resolved(strategy: Strategy) | Unresolved | ResolveThrew(thrown: Thrown)

  /** The characters PHP's `trim` removes. */
  predicate IsTrimmed(c: char)
  {
    c == ' ' || c == '\t' || c == '\n' || c == '\r' || c == '\U{0}' || c == '\U{B}'
  }

  /** The form's rules for `code`: `required`, which refuses a code that is
      empty once trimmed, and `maxLength(20)`. */
  predicate CodeAccepted(code: string)
  {
    (exists i :: 0 <= i < |code| && !IsTrimmed(code[i])) && |code| <= MaxCodeLength
  }

  /** `Coupon::query()->where('code', $code)->first()`: the stored coupon with
      exactly this code, if there is one. Codes are unique in a consistent
      store, so there is at most one. */
  function FindByCode(s: StoreState, code: string): (r: Option<Coupon>)
    requires Consistent(s)
    ensures r.None? <==> forall id :: id in s.coupons ==> s.coupons[id].code != code
    ensures r.Some? ==> r.value.id in s.coupons && s.coupons[r.value.id] == r.value && r.value.code == code
  {
    if exists id :: id in s.coupons && s.coupons[id].code == code then
      var id :| id in s.coupons && s.coupons[id].code == code;
      Some(s.coupons[id])
    else
      None
  }

  /** `error`: a danger notification with the given title and body, then a
      halt. */
  function ErrorEffects(title: string, body: string): (r: seq<Effect>)
  {
    [Notify(title, body), Halt]
  }

  /** The effects for a code that names no usable coupon. */
  function Rejected(): seq<Effect>
  {
    ErrorEffects(FailureTitle, FailureBody)
  }

  /** The `catch` block: the throwable is reported, then the generic error
      is shown. */
  function Errored(t: Thrown): seq<Effect>
  {
    [Report(t)] + ErrorEffects(ErrorTitle, ErrorBody)
  }

  /** The undefined-method error of `passToAction` on a strategy whose class
      does not use `CanNotifyAndRedirect`. */
  const NoPassToAction: Thrown := UndefinedMethod("passToAction")

  /** The `try` block, for a coupon that is valid. A strategy's `apply` runs
      before `passToAction`, so a strategy without the trait has applied the
      coupon when the call to the missing method throws. */
  function Dispatch(c: Coupon, resolve: string -> Resolution,
                    apply: (Strategy, Coupon) -> Registry.ApplyResult): seq<Effect>
  {
    match resolve(c.strategy)
    case ResolveThrew(t) => Errored(t)
    case Unresolved => Errored(InvalidStrategy(c.strategy))
    case Resolved(st) =>
      match apply(st, c)
      case Threw => Errored(ApplyThrew)
      case Returned(applied) =>
        if !st.usesNotifyTrait then Errored(NoPassToAction)
        else [PassToAction(st), if applied then Success else Failure]
  }

  /** The coupon a code names, when it is stored and valid at `now`. */
  function Usable(s: StoreState, code: string, now: int): (r: Option<Coupon>)
    requires Consistent(s)
    ensures r.Some? ==> r == FindByCode(s, code) && IsValid(r.value, now, UsageCount(s.usages, r.value.id))
    ensures r.None? ==> FindByCode(s, code).None? || !IsValid(FindByCode(s, code).value, now, UsageCount(s.usages, FindByCode(s, code).value.id))
  {
    match FindByCode(s, code)
    case None => None
    case Some(c) => if IsValid(c, now, UsageCount(s.usages, c.id)) then Some(c) else None
  }

  /** The `action` closure on the submitted code: a code that names no
      usable coupon is rejected, a usable one is dispatched. */
  function Closure(s: StoreState, code: string, now: int, resolve: string -> Resolution,
                   apply: (Strategy, Coupon) -> Registry.ApplyResult): seq<Effect>
    requires Consistent(s)
  {
    match Usable(s, code, now)
    case None => Rejected()
    case Some(c) => Dispatch(c, resolve, apply)
  }

  /** The action on a submitted code: the form's validation, then the
      closure. */
  function Redeem(s: StoreState, code: string, now: int, resolve: string -> Resolution,
                  apply: (Strategy, Coupon) -> Registry.ApplyResult): seq<Effect>
    requires Consistent(s)
  {
    if !CodeAccepted(code) then [ValidationFailed] else Closure(s, code, now, resolve, apply)
  }

  /** The action object, as far as its effects go. */
  class CouponAction {
    /** The effects the action has had so far, in order. */
    var effects: seq<Effect>

    constructor ()
      ensures effects == []
    {
      effects := [];
    }

    /** `error`: a danger notification, then `halt`. */
    method Error(title: string, body: string)
      modifies this
      ensures effects == old(effects) + ErrorEffects(title, body)
    {
      effects := effects + [Notify(title, body)];
      effects := effects + [Halt];
    }

    /** The `action` closure, step by step: look the code up, check the
        coupon, resolve its strategy and apply it, turning a throw into a
        report and the generic error. */
    method Act(s: StoreState, code: string, now: int, resolve: string -> Resolution,
               apply: (Strategy, Coupon) -> Registry.ApplyResult)
      requires Consistent(s)
      modifies this
      ensures effects == old(effects) + Closure(s, code, now, resolve, apply)
    {
      var coupon := FindByCode(s, code);
      if coupon.None? || !IsValid(coupon.value, now, UsageCount(s.usages, coupon.value.id)) {
        Error(FailureTitle, FailureBody);
        return;
      }
      var c := coupon.value;
      var thrown: Option<Thrown> := None;
      var resolved := resolve(c.strategy);
      if resolved.ResolveThrew? {
        thrown := Some(resolved.thrown);
      } else if resolved.Unresolved? {
        thrown := Some(InvalidStrategy(c.strategy));
      } else {
        var applied := apply(resolved.strategy, c);
        if applied.Threw? {
          thrown := Some(ApplyThrew);
        } else if !resolved.strategy.usesNotifyTrait {
          thrown := Some(NoPassToAction);
        } else {
          effects := effects + [PassToAction(resolved.strategy)];
          if applied.applied {
            effects := effects + [Success];
          } else {
            effects := effects + [Failure];
          }
        }
      }
      if thrown.Some? {
        effects := effects + [Report(thrown.value)];
        Error(ErrorTitle, ErrorBody);
      }
    }
  }

  /** An effect after which the action does nothing more. */
  predicate Terminal(e: Effect)
  {
    e.ValidationFailed? || e.Halt? || e.Success? || e.Failure?
  }

  // ---- properties of the action ----

  /** `error` always shows a danger notification and then halts. */
  lemma ErrorAlwaysHalts(title: string, body: string)
    ensures var r := ErrorEffects(title, body);
      |r| == 2 && r[0] == Notify(title, body) && r[|r| - 1] == Halt
  {
  }

  /** Every run ends in exactly one terminal effect, as its last effect. */
  lemma EndsOnce(s: StoreState, code: string, now: int, resolve: string -> Resolution,
                 apply: (Strategy, Coupon) -> Registry.ApplyResult)
    requires Consistent(s)
    ensures var r := Redeem(s, code, now, resolve, apply);
      && r != [] && Terminal(r[|r| - 1])
      && forall i :: 0 <= i < |r| - 1 ==> !Terminal(r[i])
  {
  }

  /** A code the form accepts is rejected, with the failure notification and
      a halt, exactly when no stored coupon has that code or the one that has
      it is not valid now. */
  lemma {:induction false} RejectedIffUnusable(s: StoreState, code: string, now: int,
                                               resolve: string -> Resolution,
                                               apply: (Strategy, Coupon) -> Registry.ApplyResult)
    requires Consistent(s) && CodeAccepted(code)
    ensures Redeem(s, code, now, resolve, apply) == Rejected()
        <==> (forall id :: id in s.coupons ==> s.coupons[id].code != code)
             || !IsValid(FindByCode(s, code).value, now, UsageCount(s.usages, FindByCode(s, code).value.id))
  {
    var r := Redeem(s, code, now, resolve, apply);
    match Usable(s, code, now)
    case None =>
    case Some(c) =>
      assert r == Dispatch(c, resolve, apply);
      assert r[0].Report? || r[0].PassToAction?;
  }

  /** A rejected or refused code never reaches a strategy: the effects do not
      depend on the resolver or on any strategy's `apply`. */
  lemma RejectionIgnoresStrategies(s: StoreState, code: string, now: int,
                                   resolve1: string -> Resolution, apply1: (Strategy, Coupon) -> Registry.ApplyResult,
                                   resolve2: string -> Resolution, apply2: (Strategy, Coupon) -> Registry.ApplyResult)
    requires Consistent(s)
    requires !CodeAccepted(code) || Usable(s, code, now).None?
    ensures Redeem(s, code, now, resolve1, apply1) == Redeem(s, code, now, resolve2, apply2)
  {
  }

  /** The action succeeds exactly when the code names a coupon valid now,
      its strategy resolves to a class that uses `CanNotifyAndRedirect`, and
      that strategy's `apply` returns true; it reports a failure exactly when,
      under the same conditions, `apply` returns false. */
  lemma {:induction false} SuccessIffApplied(s: StoreState, code: string, now: int,
                                             resolve: string -> Resolution,
                                             apply: (Strategy, Coupon) -> Registry.ApplyResult)
    requires Consistent(s)
    ensures var r := Redeem(s, code, now, resolve, apply);
      var u := Usable(s, code, now);
      && (Success in r <==> CodeAccepted(code) && u.Some? && resolve(u.value.strategy).Resolved?
                            && resolve(u.value.strategy).strategy.usesNotifyTrait
                            && apply(resolve(u.value.strategy).strategy, u.value) == Registry.Returned(true))
      && (Failure in r <==> CodeAccepted(code) && u.Some? && resolve(u.value.strategy).Resolved?
                            && resolve(u.value.strategy).strategy.usesNotifyTrait
                            && apply(resolve(u.value.strategy).strategy, u.value) == Registry.Returned(false))
  {
    var r := Redeem(s, code, now, resolve, apply);
    if CodeAccepted(code) {
      match Usable(s, code, now)
      case None =>
        assert r == [Notify(FailureTitle, FailureBody), Halt];
      case Some(c) =>
        match resolve(c.strategy)
        case ResolveThrew(t) =>
          assert r == [Report(t), Notify(ErrorTitle, ErrorBody), Halt];
        case Unresolved =>
          assert r == [Report(InvalidStrategy(c.strategy)), Notify(ErrorTitle, ErrorBody), Halt];
        case Resolved(st) =>
          match apply(st, c)
          case Threw =>
            assert r == [Report(ApplyThrew), Notify(ErrorTitle, ErrorBody), Halt];
          case Returned(applied) =>
            if !st.usesNotifyTrait {
              assert r == [Report(NoPassToAction), Notify(ErrorTitle, ErrorBody), Halt];
            }
    } else {
      assert r == [ValidationFailed];
    }
  }

  /** A throw while dispatching, whether from resolving the strategy, from
      its `apply`, or from `passToAction` on a class without the trait, is
      reported and shown as the generic error, never as success: nothing is
      passed to the action, and the run halts. */
  lemma ThrowNeverSucceeds(s: StoreState, code: string, now: int, resolve: string -> Resolution,
                           apply: (Strategy, Coupon) -> Registry.ApplyResult)
    requires Consistent(s) && CodeAccepted(code) && Usable(s, code, now).Some?
    ensures var c := Usable(s, code, now).value;
      var r := Redeem(s, code, now, resolve, apply);
      && (resolve(c.strategy).ResolveThrew? ==> r == Errored(resolve(c.strategy).thrown))
      && (resolve(c.strategy).Unresolved? ==> r == Errored(InvalidStrategy(c.strategy)))
      && (resolve(c.strategy).Resolved? && apply(resolve(c.strategy).strategy, c).Threw? ==> r == Errored(ApplyThrew))
      && ((resolve(c.strategy).Resolved? && apply(resolve(c.strategy).strategy, c).Returned?
           && !resolve(c.strategy).strategy.usesNotifyTrait) ==> r == Errored(NoPassToAction))
  {
  }

  /** An error run reports its throwable, shows the generic error and halts,
      and holds no success, failure or hand-over. */
  lemma ErroredShape(t: Thrown)
    ensures var r := Errored(t);
      && r == [Report(t), Notify(ErrorTitle, ErrorBody), Halt]
      && Success !in r && Failure !in r && forall e :: e in r ==> !e.PassToAction?
  {
  }

  // ---- resolving the strategy: as written and as intended ----

  /** `coupons()->getStrategy($name)` as the code stands: `Coupons` declares
      no `getStrategy`, so the call throws PHP's `Error` whatever the name. */
  function GetStrategyAsWritten(name: string): (r: Resolution)
    ensures r.ResolveThrew? && r.thrown.UndefinedMethod?
  {
    ResolveThrew(UndefinedMethod("getStrategy"))
  }

  /** The lookup the action evidently means, `getStrategies()[$name] ?? null`:
      unresolved exactly when no configured strategy has the name, else a
      configured strategy of that name; it never throws. */
  function GetStrategy(config: Registry.Config, name: string): (r: Resolution)
    ensures r.Unresolved? <==> forall i :: 0 <= i < |config| ==> config[i].Name() != name
    ensures r.Resolved? ==> r.strategy in config && r.strategy.Name() == name
    ensures !r.ResolveThrew?
  {
    match Registry.Lookup(config, Some(name))
    case None => Unresolved
    case Some(st) => Resolved(st)
  }

  /** As written, the action never applies a coupon: every usable code ends
      in the generic error reporting the undefined method, and no run holds a
      success, a failure or a hand-over to the action. */
  lemma {:induction false} AsWrittenNeverApplies(s: StoreState, code: string, now: int,
                                                 apply: (Strategy, Coupon) -> Registry.ApplyResult)
    requires Consistent(s)
    ensures var r := Redeem(s, code, now, GetStrategyAsWritten, apply);
      && Success !in r && Failure !in r && (forall e :: e in r ==> !e.PassToAction?)
      && (CodeAccepted(code) && Usable(s, code, now).Some? ==> r == Errored(UndefinedMethod("getStrategy")))
  {
    if CodeAccepted(code) && Usable(s, code, now).Some? {
      ErroredShape(UndefinedMethod("getStrategy"));
    }
  }

  /** The intended lookup as the resolver the action calls. */
  function Resolver(config: Registry.Config): string -> Resolution
  {
    name => GetStrategy(config, name)
  }

  /** With the intended lookup, a coupon whose strategy is configured is
      dispatched to the last configured strategy of that name, and the
      `try` block agrees with `Coupons::applyCoupon`: success when it returns
      true, failure when it returns false, the generic error when it throws
      or when that strategy's class lacks `passToAction`. */
  lemma IntendedDispatch(config: Registry.Config, c: Coupon,
                         apply: (Strategy, Coupon) -> Registry.ApplyResult, i: int)
    requires 0 <= i < |config| && config[i].Name() == c.strategy
    requires forall j :: i < j < |config| ==> config[j].Name() != config[i].Name()
    ensures var a := Registry.ApplyCoupon(config, c, apply);
      Dispatch(c, Resolver(config), apply)
        == if a.Threw? then Errored(ApplyThrew)
           else if !config[i].usesNotifyTrait then Errored(NoPassToAction)
           else [PassToAction(config[i]), if a.applied then Success else Failure]
  {
    Registry.LastOfItsName(config, i);
    assert Registry.ApplyCoupon(config, c, apply) == apply(config[i], c);
    assert Resolver(config)(c.strategy) == Resolved(config[i]);
    DispatchResolved(c, Resolver(config), apply, config[i]);
  }

  /** A coupon whose strategy resolves is handed to that strategy's `apply`,
      and its outcome follows what `apply` does, unless the strategy's class
      lacks `passToAction`, which turns every returned outcome into the
      generic error. */
  lemma DispatchResolved(c: Coupon, resolve: string -> Resolution,
                         apply: (Strategy, Coupon) -> Registry.ApplyResult, st: Strategy)
    requires resolve(c.strategy) == Resolved(st)
    ensures Dispatch(c, resolve, apply)
         == if apply(st, c).Threw? then Errored(ApplyThrew)
            else if !st.usesNotifyTrait then Errored(NoPassToAction)
            else [PassToAction(st), if apply(st, c).applied then Success else Failure]
  {
  }

  /** The same for a submitted code: a usable coupon whose strategy is
      configured is applied by the last configured strategy of that name,
      with the outcome `applyCoupon` gives when that strategy uses the trait,
      and the generic error whatever `apply` returned when it does not. */
  lemma IntendedMatchesApplyCoupon(config: Registry.Config, s: StoreState, code: string, now: int,
                                   apply: (Strategy, Coupon) -> Registry.ApplyResult, i: int)
    requires Consistent(s) && CodeAccepted(code) && Usable(s, code, now).Some?
    requires 0 <= i < |config| && config[i].Name() == Usable(s, code, now).value.strategy
    requires forall j :: i < j < |config| ==> config[j].Name() != config[i].Name()
    ensures var c := Usable(s, code, now).value;
      var r := Redeem(s, code, now, Resolver(config), apply);
      && (config[i].usesNotifyTrait && Registry.ApplyCoupon(config, c, apply) == Registry.Returned(true)
          ==> r == [PassToAction(config[i]), Success])
      && (config[i].usesNotifyTrait && Registry.ApplyCoupon(config, c, apply) == Registry.Returned(false)
          ==> r == [PassToAction(config[i]), Failure])
      && (!config[i].usesNotifyTrait && Registry.ApplyCoupon(config, c, apply).Returned?
          ==> r == Errored(NoPassToAction))
      && (Registry.ApplyCoupon(config, c, apply) == Registry.Threw ==> r == Errored(ApplyThrew))
  {
    var c := Usable(s, code, now).value;
    assert Redeem(s, code, now, Resolver(config), apply) == Dispatch(c, Resolver(config), apply);
    IntendedDispatch(config, c, apply, i);
  }

  /** With the intended lookup, a usable coupon whose strategy name is not
      configured is reported as an invalid strategy and shown as the generic
      error, where `applyCoupon` quietly returns false. */
  lemma IntendedUnknownStrategy(config: Registry.Config, s: StoreState, code: string, now: int,
                                apply: (Strategy, Coupon) -> Registry.ApplyResult)
    requires Consistent(s) && CodeAccepted(code) && Usable(s, code, now).Some?
    requires forall i :: 0 <= i < |config| ==> config[i].Name() != Usable(s, code, now).value.strategy
    ensures var c := Usable(s, code, now).value;
      && Redeem(s, code, now, Resolver(config), apply) == Errored(InvalidStrategy(c.strategy))
      && Registry.ApplyCoupon(config, c, apply) == Registry.Returned(false)
  {
  }
}
