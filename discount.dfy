/**
 * The Discount entity of the cart module.  The entity's field values are the
 * datatype DiscountRecord; the validity test, the valuation and the usage
 * counter increment are functions of it.  The class Discount is the mutable
 * entity itself: `use()` bumps its usage counter in place.
 *
 * `value`, `maximum_discount_amount`, `is_valid`, `apply_to` and `use` are
 * reconstructed from the entity's tests and its call sites in the discount
 * service.  `value` means percentage points for a PERCENTAGE discount and an
 * amount in currency units for FIXED_AMOUNT and COUPON discounts, taken in
 * the currency of the order it is applied to.
 */
module Discounts {
  import opened Wrappers
  import opened ValueObjects

  /** Discount identifiers (UUIDs in the source). */
  type Id = nat

  /** A clock reading; only its order matters. */
  type Time = int

  datatype DiscountType = Percentage | FixedAmount | Coupon

  datatype DiscountRecord = DiscountRecord(
    id: Id,
    kind: DiscountType,
    value: real,
    code: Option<string>,
    description: string,
    minimumOrderValue: Option<Money>,
    maximumDiscountAmount: Option<Money>,
    validFrom: Time,
    validUntil: Option<Time>,
    maxUsageCount: Option<int>,
    currentUsageCount: int)

  /** A discount built with only its id, type and value given: every other field takes its default, and `now` is the clock reading `valid_from` defaults to. */
  function NewDiscount(id: Id, kind: DiscountType, value: real, now: Time): (r: DiscountRecord)
    ensures r.id == id && r.kind == kind && r.value == value && r.validFrom == now
    ensures r.code == None && r.description == ""
    ensures r.minimumOrderValue == Some(Money(0, "BRL")) && r.maximumDiscountAmount == Some(Money(0, "BRL"))
    ensures r.validUntil == None && r.maxUsageCount == None && r.currentUsageCount == 0
  {
    DiscountRecord(id, kind, value, None, "", Some(FromAmount(0.0)), Some(FromAmount(0.0)), now, None, None, 0)
  }

  /** Whether the maximum discount amount bounds a reduction: it is set and not zero (a zero maximum means unbounded). */
  predicate CapsReduction(d: DiscountRecord)
  {
    d.maximumDiscountAmount.Some? && d.maximumDiscountAmount.value.cents != 0
  }

  /** The invariants the entity is meant to keep: a positive value, at most 100 points for a percentage, a non-negative cap, and a usage count within its limit. */
  ghost predicate WellFormed(d: DiscountRecord)
  {
    && d.value > 0.0
    && (d.kind == Percentage ==> d.value <= 100.0)
    && (d.maximumDiscountAmount.Some? ==> d.maximumDiscountAmount.value.cents >= 0)
    && 0 <= d.currentUsageCount
    && (d.maxUsageCount.Some? ==> d.currentUsageCount <= d.maxUsageCount.value)
  }

  // ---------------------------------------------------------------------------
  // is_valid
  // ---------------------------------------------------------------------------

  /**
   * `is_valid(order_value)` at clock reading `now`: the window has opened, it
   * has not closed, a use is left, and the order reaches the minimum.  The
   * minimum is compared with Money's `>=`, so a minimum in another currency
   * raises once the first three gates pass.  A minimum of None sets no bound.
   */
  function IsValid(d: DiscountRecord, order: Money, now: Time): (r: Result<bool, Error>)
    ensures now < d.validFrom ==> r == Success(false)
    ensures d.validUntil.Some? && d.validUntil.value < now ==> r == Success(false)
    ensures d.maxUsageCount.Some? && d.currentUsageCount >= d.maxUsageCount.value ==> r == Success(false)
    ensures r == Success(true) <==>
              && d.validFrom <= now
              && (d.validUntil.None? || now <= d.validUntil.value)
              && (d.maxUsageCount.None? || d.currentUsageCount < d.maxUsageCount.value)
              && (d.minimumOrderValue.None? || d.minimumOrderValue.value.currency == order.currency)
              && (d.minimumOrderValue.None? || Amount(order) >= Amount(d.minimumOrderValue.value))
    ensures r.Failure? <==>
              && d.validFrom <= now
              && (d.validUntil.None? || now <= d.validUntil.value)
              && (d.maxUsageCount.None? || d.currentUsageCount < d.maxUsageCount.value)
              && d.minimumOrderValue.Some? && d.minimumOrderValue.value.currency != order.currency
    ensures r.Failure? ==> r.error == CurrencyMismatch(order.currency, d.minimumOrderValue.value.currency)
  {
    if now < d.validFrom then Success(false)
    else if d.validUntil.Some? && now > d.validUntil.value then Success(false)
    else if d.maxUsageCount.Some? && d.currentUsageCount >= d.maxUsageCount.value then Success(false)
    else match d.minimumOrderValue
      case None => Success(true)
      case Some(minimum) => Ge(order, minimum)
  }

  // ---------------------------------------------------------------------------
  // apply_to
  // ---------------------------------------------------------------------------

  /** The amount taken off a valid order, before the floor at zero. */
  function Reduction(d: DiscountRecord, order: Money): (r: Result<Money, Error>)
    ensures r.Success? ==> r.value.currency == order.currency
    ensures r.Failure? <==>
              d.kind == Percentage && CapsReduction(d) && d.maximumDiscountAmount.value.currency != order.currency
  {
    match d.kind
    case Percentage =>
      var raw := Mul(order, d.value / 100.0);
      if !CapsReduction(d) then Success(raw)
      else
        var cap := d.maximumDiscountAmount.value;
        (match Gt(raw, cap)
         case Failure(e) => Failure(e)
         case Success(over) => Success(if over then cap else raw))
    case _ => Success(FromAmount(d.value, order.currency))
  }

  /**
   * `apply_to(order_value)` at clock reading `now`: the total after the
   * discount.  An invalid discount hands the order back unchanged; a valid one
   * takes off its reduction and never takes the total below zero.
   */
  function ApplyTo(d: DiscountRecord, order: Money, now: Time): (r: Result<Money, Error>)
    ensures IsValid(d, order, now).Failure? ==> r == Failure(IsValid(d, order, now).error)
    ensures IsValid(d, order, now) == Success(false) ==> r == Success(order)
    ensures r.Success? ==> r.value.currency == order.currency
    ensures IsValid(d, order, now) == Success(true) && r.Success? ==> r.value.cents >= 0
    ensures r.Failure? <==>
              || IsValid(d, order, now).Failure?
              || (IsValid(d, order, now) == Success(true) && Reduction(d, order).Failure?)
  {
    match IsValid(d, order, now)
    case Failure(e) => Failure(e)
    case Success(valid) =>
      if !valid then Success(order)
      else
        match Reduction(d, order)
        case Failure(e) => Failure(e)
        case Success(reduction) =>
          var total := Sub(order, reduction).value;
          if IsNegative(total) then Success(FromAmount(0.0, order.currency)) else Success(total)
  }

  function Max(x: int, y: int): int
  {
    if x < y then y else x
  }

  /** The reduction in cents, computed on integers: a rounded share of the order, capped for a percentage; the rounded value otherwise. */
  function ReductionCents(d: DiscountRecord, orderCents: int): int
  {
    match d.kind
    case Percentage =>
      var raw := RoundHalfAwayFromZero(orderCents as real * (d.value / 100.0));
      if CapsReduction(d) && raw > d.maximumDiscountAmount.value.cents
      then d.maximumDiscountAmount.value.cents
      else raw
    case _ => RoundHalfAwayFromZero(d.value * 100.0)
  }

  /** Reduction computes, in Money, exactly the reduction the integer reference gives. */
  lemma ReductionMatchesReference(d: DiscountRecord, order: Money)
    requires Reduction(d, order).Success?
    ensures Reduction(d, order).value == Money(ReductionCents(d, order.cents), order.currency)
  {
    if d.kind == Percentage {
      if !CapsReduction(d) {
        UncappedReductionMatchesReference(d, order);
      } else {
        CappedReductionMatchesReference(d, order);
      }
    }
  }

  lemma UncappedReductionMatchesReference(d: DiscountRecord, order: Money)
    requires d.kind == Percentage && !CapsReduction(d)
    ensures Reduction(d, order).value == Money(ReductionCents(d, order.cents), order.currency)
  {
    MulRoundsExactProduct(order, d.value / 100.0);
  }

  lemma CappedReductionMatchesReference(d: DiscountRecord, order: Money)
    requires d.kind == Percentage && CapsReduction(d)
    requires d.maximumDiscountAmount.value.currency == order.currency
    ensures Reduction(d, order).value == Money(ReductionCents(d, order.cents), order.currency)
  {
    MulRoundsExactProduct(order, d.value / 100.0);
  }

  /** A valid discount's total is the order less the reduction, floored at zero. */
  lemma ApplyToMatchesReference(d: DiscountRecord, order: Money, now: Time)
    requires IsValid(d, order, now) == Success(true)
    requires Reduction(d, order).Success?
    ensures ApplyTo(d, order, now) == Success(Money(Max(0, order.cents - ReductionCents(d, order.cents)), order.currency))
  {
    ReductionMatchesReference(d, order);
  }

  /** A valid percentage discount with a maximum in the order's currency never takes off more than that maximum. */
  lemma CapBoundsDiscount(d: DiscountRecord, order: Money, now: Time)
    requires IsValid(d, order, now) == Success(true)
    requires d.kind == Percentage && CapsReduction(d)
    requires d.maximumDiscountAmount.value.currency == order.currency
    ensures ApplyTo(d, order, now).Success?
    ensures order.cents - ApplyTo(d, order, now).value.cents <= d.maximumDiscountAmount.value.cents
  {
    ApplyToMatchesReference(d, order, now);
  }

  /** A maximum of zero bounds nothing: the reduction is the same as with no maximum at all, in any currency. */
  lemma ZeroCapIsUnbounded(d: DiscountRecord, order: Money, currency: string)
    requires d.maximumDiscountAmount == Some(Money(0, currency))
    ensures Reduction(d, order) == Reduction(d.(maximumDiscountAmount := None), order)
  {
  }

  /** On a non-negative order a well-formed discount never raises the total. */
  lemma ApplyToStaysWithinOrder(d: DiscountRecord, order: Money, now: Time)
    requires WellFormed(d)
    requires order.cents >= 0
    requires ApplyTo(d, order, now).Success?
    ensures 0 <= ApplyTo(d, order, now).value.cents <= order.cents
  {
    if IsValid(d, order, now) == Success(true) {
      ApplyToMatchesReference(d, order, now);
      ReductionIsNonNegative(d, order.cents);
    }
  }

  lemma ReductionIsNonNegative(d: DiscountRecord, orderCents: int)
    requires WellFormed(d)
    requires orderCents >= 0
    ensures ReductionCents(d, orderCents) >= 0
  {
    if d.kind == Percentage {
      var share := orderCents as real * (d.value / 100.0);
      assert share >= 0.0;
      RoundingIsMonotone(0.0, share);
      RoundingWholeIsExact(0);
    } else {
      RoundingIsMonotone(0.0, d.value * 100.0);
      RoundingWholeIsExact(0);
    }
  }

  /** A fraction between 0 and 1 of a non-negative amount lies between zero and that amount. */
  lemma ShareStaysWithinWhole(whole: real, fraction: real)
    requires whole >= 0.0 && 0.0 <= fraction <= 1.0
    ensures 0.0 <= whole * fraction <= whole
  {
    assert whole * (1.0 - fraction) >= 0.0;
  }

  /** A percentage of at most 100 takes off at most the whole order, however it rounds. */
  lemma PercentageReductionWithinOrder(d: DiscountRecord, orderCents: int)
    requires WellFormed(d) && d.kind == Percentage
    requires orderCents >= 0
    ensures 0 <= ReductionCents(d, orderCents) <= orderCents
  {
    var share := orderCents as real * (d.value / 100.0);
    ShareStaysWithinWhole(orderCents as real, d.value / 100.0);
    assert 0 as real <= share <= orderCents as real;
    RoundingStaysBetween(share, 0, orderCents);
  }

  // ---------------------------------------------------------------------------
  // use
  // ---------------------------------------------------------------------------

  /** `use()`: one more use counted, nothing else touched. */
  function Used(d: DiscountRecord): (r: DiscountRecord)
    ensures r.currentUsageCount == d.currentUsageCount + 1
    ensures r.(currentUsageCount := d.currentUsageCount) == d
  {
    d.(currentUsageCount := d.currentUsageCount + 1)
  }

  /** Using a discount right after it was valid keeps it well formed: the usage count stays within its limit. */
  lemma UseAfterValidKeepsWellFormed(d: DiscountRecord, order: Money, now: Time)
    requires WellFormed(d)
    requires IsValid(d, order, now) == Success(true)
    ensures WellFormed(Used(d))
  {
  }

  /**
   * The next state after one redemption: `apply_to`, then `use()` only when
   * the discount was valid and `apply_to` did not raise, as the service does.
   */
  function Redeemed(d: DiscountRecord, order: Money, now: Time): (r: DiscountRecord)
    ensures r.(currentUsageCount := d.currentUsageCount) == d
    ensures r.currentUsageCount == d.currentUsageCount || r.currentUsageCount == d.currentUsageCount + 1
    ensures r.currentUsageCount == d.currentUsageCount + 1 <==>
              IsValid(d, order, now) == Success(true) && ApplyTo(d, order, now).Success?
  {
    if IsValid(d, order, now) == Success(true) && ApplyTo(d, order, now).Success? then Used(d) else d
  }

  /** The totals of `k` successive redemptions of `d` against one order at one clock reading. */
  function Redemptions(d: DiscountRecord, order: Money, now: Time, k: nat): (r: seq<Result<Money, Error>>)
    ensures |r| == k
    decreases k
  {
    if k == 0 then [] else [ApplyTo(d, order, now)] + Redemptions(Redeemed(d, order, now), order, now, k - 1)
  }

  /** The discount after `k` successive redemptions. */
  function AfterRedemptions(d: DiscountRecord, order: Money, now: Time, k: nat): (r: DiscountRecord)
    ensures r.(currentUsageCount := d.currentUsageCount) == d
    ensures d.currentUsageCount <= r.currentUsageCount <= d.currentUsageCount + k
    decreases k
  {
    if k == 0 then d else AfterRedemptions(Redeemed(d, order, now), order, now, k - 1)
  }

  /** However often it is redeemed, a capped discount's usage count never passes the cap. */
  lemma {:induction false} RedemptionsNeverExceedCap(d: DiscountRecord, order: Money, now: Time, k: nat)
    requires d.maxUsageCount.Some? && d.currentUsageCount <= d.maxUsageCount.value
    ensures AfterRedemptions(d, order, now, k).currentUsageCount <= d.maxUsageCount.value
    ensures AfterRedemptions(d, order, now, k).maxUsageCount == d.maxUsageCount
    decreases k
  {
    if k > 0 {
      RedemptionsNeverExceedCap(Redeemed(d, order, now), order, now, k - 1);
    }
  }

  /** The i-th total of a run of redemptions is what `apply_to` gives on the discount as the first i redemptions left it. */
  lemma {:induction false} RedemptionAt(d: DiscountRecord, order: Money, now: Time, k: nat, i: nat)
    requires i < k
    ensures Redemptions(d, order, now, k)[i] == ApplyTo(AfterRedemptions(d, order, now, i), order, now)
    decreases i
  {
    if i > 0 {
      RedemptionAt(Redeemed(d, order, now), order, now, k - 1, i - 1);
    }
  }

  /**
   * While uses remain and the other gates pass, every one of the first
   * redemptions discounts the order exactly as the first one does.
   */
  lemma RedemptionsApplyWhileUsesRemain(d: DiscountRecord, order: Money, now: Time, k: nat)
    requires d.maxUsageCount.Some? && d.currentUsageCount + k <= d.maxUsageCount.value
    requires d.validFrom <= now && (d.validUntil.None? || now <= d.validUntil.value)
    requires d.minimumOrderValue.None? || (d.minimumOrderValue.value.currency == order.currency && d.minimumOrderValue.value.cents <= order.cents)
    requires Reduction(d, order).Success?
    ensures k > 0 ==> IsValid(d, order, now) == Success(true)
    ensures forall i :: 0 <= i < k ==> Redemptions(d, order, now, k)[i] == ApplyTo(d, order, now)
  {
    forall i | 0 <= i < k
      ensures Redemptions(d, order, now, k)[i] == ApplyTo(d, order, now)
    {
      RedemptionAt(d, order, now, k, i);
      RedemptionsCountUses(d, order, now, i);
      assert IsValid(d.(currentUsageCount := d.currentUsageCount + i), order, now) == IsValid(d, order, now);
    }
  }

  /** A redemption whose `apply_to` raises counts no use, so every further one raises the same way. */
  lemma {:induction false} FailingRedemptionCountsNoUse(d: DiscountRecord, order: Money, now: Time, k: nat)
    requires ApplyTo(d, order, now).Failure?
    ensures AfterRedemptions(d, order, now, k) == d
    ensures forall i :: 0 <= i < k ==> Redemptions(d, order, now, k)[i] == ApplyTo(d, order, now)
    decreases k
  {
    if k > 0 {
      assert Redeemed(d, order, now) == d;
      FailingRedemptionCountsNoUse(d, order, now, k - 1);
    }
  }

  /** Once its uses are spent, every further redemption hands the order back unchanged. */
  lemma {:induction false} ExhaustedDiscountPassesThrough(d: DiscountRecord, order: Money, now: Time, k: nat)
    requires d.maxUsageCount.Some? && d.currentUsageCount >= d.maxUsageCount.value
    ensures forall i :: 0 <= i < k ==> Redemptions(d, order, now, k)[i] == Success(order)
  {
    if k > 0 {
      assert Redeemed(d, order, now) == d;
      ExhaustedDiscountPassesThrough(d, order, now, k - 1);
    }
  }

  /** Each of the first uses left is a real redemption: it counts one use. */
  lemma {:induction false} RedemptionsCountUses(d: DiscountRecord, order: Money, now: Time, k: nat)
    requires d.maxUsageCount.Some? && d.currentUsageCount + k <= d.maxUsageCount.value
    requires d.validFrom <= now && (d.validUntil.None? || now <= d.validUntil.value)
    requires d.minimumOrderValue.None? || (d.minimumOrderValue.value.currency == order.currency && d.minimumOrderValue.value.cents <= order.cents)
    requires Reduction(d, order).Success?
    ensures AfterRedemptions(d, order, now, k) == d.(currentUsageCount := d.currentUsageCount + k)
    decreases k
  {
    if k > 0 {
      assert IsValid(d, order, now) == Success(true);
      RedemptionsCountUses(Used(d), order, now, k - 1);
    }
  }

  // ---------------------------------------------------------------------------
  // The entity's tests, as lemmas
  // ---------------------------------------------------------------------------

  function Brl(cents: int): Money
  {
    Money(cents, DefaultCurrency)
  }

  lemma PercentageDiscountCalculation(id: Id, now: Time)
    ensures ApplyTo(NewDiscount(id, Percentage, 10.0, now), Brl(10000), now) == Success(Brl(9000))
  {
  }

  lemma FixedDiscountCalculation(id: Id, now: Time)
    ensures ApplyTo(NewDiscount(id, FixedAmount, 15.0, now), Brl(10000), now) == Success(Brl(8500))
  {
  }

  lemma DiscountCannotResultInNegativePrice(id: Id, now: Time)
    ensures ApplyTo(NewDiscount(id, FixedAmount, 75.0, now), Brl(5000), now) == Success(Brl(0))
  {
  }

  lemma DiscountWithMinimumPurchase(id: Id, now: Time)
    ensures var d := NewDiscount(id, Percentage, 20.0, now).(minimumOrderValue := Some(Brl(10000)));
            && ApplyTo(d, Brl(5000), now) == Success(Brl(5000))
            && ApplyTo(d, Brl(20000), now) == Success(Brl(16000))
  {
  }

  lemma DiscountWithMaximumAmount(id: Id, now: Time)
    ensures var d := NewDiscount(id, Percentage, 30.0, now).(maximumDiscountAmount := Some(Brl(5000)));
            && ApplyTo(d, Brl(10000), now) == Success(Brl(7000))
            && ApplyTo(d, Brl(50000), now) == Success(Brl(45000))
  {
  }

  lemma DiscountValidityPeriod(id: Id, now: Time, day: Time)
    requires day > 0
    ensures var current := NewDiscount(id, Percentage, 10.0, now - day).(validUntil := Some(now + day));
            && IsValid(current, Brl(10000), now) == Success(true)
            && ApplyTo(current, Brl(10000), now) == Success(Brl(9000))
    ensures var expired := NewDiscount(id, Percentage, 10.0, now - 11 * day).(validUntil := Some(now - day));
            && IsValid(expired, Brl(10000), now) == Success(false)
            && ApplyTo(expired, Brl(10000), now) == Success(Brl(10000))
    ensures var future := NewDiscount(id, Percentage, 10.0, now + day).(validUntil := Some(now + 11 * day));
            && IsValid(future, Brl(10000), now) == Success(false)
            && ApplyTo(future, Brl(10000), now) == Success(Brl(10000))
  {
  }

  /**
   * The usage-limit test, read as "apply, then use when valid and applied": two
   * redemptions discount the order and the third hands it back unchanged.
   */
  lemma DiscountUsageLimit(id: Id, now: Time)
    ensures Redemptions(NewDiscount(id, Percentage, 10.0, now).(maxUsageCount := Some(2)), Brl(10000), now, 3)
            == [Success(Brl(9000)), Success(Brl(9000)), Success(Brl(10000))]
  {
    var d := NewDiscount(id, Percentage, 10.0, now).(maxUsageCount := Some(2));
    var order := Brl(10000);
    assert Redeemed(d, order, now) == d.(currentUsageCount := 1);
    assert Redeemed(d.(currentUsageCount := 1), order, now) == d.(currentUsageCount := 2);
    assert Redemptions(d.(currentUsageCount := 2), order, now, 1) == [Success(order)];
  }

  /** The default minimum of 0.00 BRL makes a fresh discount raise on an order in any other currency. */
  lemma DefaultMinimumIsInBrl(id: Id, kind: DiscountType, value: real, now: Time, order: Money)
    requires order.currency != DefaultCurrency
    ensures IsValid(NewDiscount(id, kind, value, now), order, now).Failure?
  {
  }

  // ---------------------------------------------------------------------------
  // The mutable entity
  // ---------------------------------------------------------------------------

  /**
   * The Discount entity.  Only `use()` changes a discount in this module, and
   * only its usage counter, so every other field is a constant.
   */
  class Discount {
    const id: Id
    const kind: DiscountType
    const value: real
    const code: Option<string>
    const description: string
    const minimumOrderValue: Option<Money>
    const maximumDiscountAmount: Option<Money>
    const validFrom: Time
    const validUntil: Option<Time>
    const maxUsageCount: Option<int>
    var currentUsageCount: int

    /** The discount's field values. */
    function Record(): DiscountRecord
      reads this
    {
      DiscountRecord(id, kind, value, code, description, minimumOrderValue, maximumDiscountAmount,
                     validFrom, validUntil, maxUsageCount, currentUsageCount)
    }

    /** A new discount object holding the given field values; also the deep copy of another discount. */
    constructor (r: DiscountRecord)
      ensures Record() == r
    {
      id, kind, value, code, description := r.id, r.kind, r.value, r.code, r.description;
      minimumOrderValue, maximumDiscountAmount := r.minimumOrderValue, r.maximumDiscountAmount;
      validFrom, validUntil := r.validFrom, r.validUntil;
      maxUsageCount, currentUsageCount := r.maxUsageCount, r.currentUsageCount;
    }

    /** `use()`: bumps the usage counter in place, without re-validating. */
    method Use()
      modifies this
      ensures Record() == Used(old(Record()))
    {
      currentUsageCount := currentUsageCount + 1;
    }
  }
}
