/**
 * The discount service: look a discount up in the store, validate it, apply
 * it, count the use and save it back; look a coupon up by code; create
 * percentage and fixed-amount discounts.  Store calls are awaited one after
 * another, so each operation is a sequential method.  The clock reading and
 * the id a new discount draws are parameters.
 */
module DiscountServices {
  import opened Wrappers
  import opened ValueObjects
  import opened Discounts
  import opened MemoryDiscountRepository

  /** The discount `create_percentage_discount` builds before saving it: the given fields over the entity's defaults. */
  function PercentageDiscount(id: Id, percentage: real, code: string, description: string,
                              minimumOrderValue: Option<Money>, validUntil: Option<Time>,
                              maxUsageCount: Option<int>, now: Time): (r: DiscountRecord)
    ensures r.id == id && r.kind == Percentage && r.value == percentage && r.code == Some(code)
    ensures r.description == description && r.minimumOrderValue == minimumOrderValue
    ensures r.validFrom == now && r.validUntil == validUntil && r.maxUsageCount == maxUsageCount
    ensures r.currentUsageCount == 0 && !CapsReduction(r)
  {
    NewDiscount(id, Percentage, percentage, now).(code := Some(code), description := description,
      minimumOrderValue := minimumOrderValue, validUntil := validUntil, maxUsageCount := maxUsageCount)
  }

  /** The discount `create_fixed_amount_discount` builds: the amount's number, its currency dropped, over the entity's defaults. */
  function FixedAmountDiscount(id: Id, amount: Money, code: string, description: string,
                               minimumOrderValue: Option<Money>, validUntil: Option<Time>,
                               maxUsageCount: Option<int>, now: Time): (r: DiscountRecord)
    ensures r.id == id && r.kind == FixedAmount && r.value == amount.cents as real / 100.0 && r.code == Some(code)
    ensures r.description == description && r.minimumOrderValue == minimumOrderValue
    ensures r.validFrom == now && r.validUntil == validUntil && r.maxUsageCount == maxUsageCount
    ensures r.currentUsageCount == 0 && !CapsReduction(r)
  {
    NewDiscount(id, FixedAmount, Amount(amount), now).(code := Some(code), description := description,
      minimumOrderValue := minimumOrderValue, validUntil := validUntil, maxUsageCount := maxUsageCount)
  }

  class DiscountService {
    const repository: InMemoryDiscountRepository

    constructor (repository: InMemoryDiscountRepository)
      ensures this.repository == repository
    {
      this.repository := repository;
    }

    /**
     * `apply_discount_to_cart`: an unknown id raises "not found" and an
     * invalid discount raises "invalid", both before anything changes; a
     * currency mismatch inside `is_valid` or `apply_to` propagates, also
     * before anything changes.  On success the discount's `apply_to` result
     * is returned, its use is counted once on the object the lookup handed
     * out, and a copy of that object is saved once.
     */
    method ApplyDiscountToCart(cartTotal: Money, discountId: Id, now: Time) returns (r: Result<Money, Error>)
      requires repository.Valid()
      modifies repository, repository.discounts.Values
      ensures repository.Valid()
      ensures discountId !in old(repository.discounts) ==> r == Failure(NotFound)
      ensures discountId in old(repository.discounts) ==>
                var before := old(repository.Contents())[discountId];
                && (IsValid(before, cartTotal, now).Failure? ==> r == Failure(IsValid(before, cartTotal, now).error))
                && (IsValid(before, cartTotal, now) == Success(false) ==> r == Failure(InvalidDiscount))
                && (IsValid(before, cartTotal, now) == Success(true) ==> r == ApplyTo(before, cartTotal, now))
      ensures r.Failure? ==>
                && repository.discounts == old(repository.discounts)
                && repository.Contents() == old(repository.Contents())
                && repository.codeIndex == old(repository.codeIndex)
                && repository.saveLog == old(repository.saveLog)
      ensures r.Success? ==>
                && discountId in old(repository.discounts)
                && old(repository.discounts)[discountId].Record() == Used(old(repository.Contents())[discountId])
                && discountId in repository.discounts
                && fresh(repository.discounts[discountId])
                && repository.discounts.Keys == old(repository.discounts.Keys)
                && (forall k :: k in old(repository.discounts) && k != discountId ==>
                      repository.discounts[k] == old(repository.discounts)[k])
                && var after := Used(old(repository.Contents())[discountId]);
                && repository.Contents() == old(repository.Contents())[discountId := after]
                && repository.saveLog == old(repository.saveLog) + [after]
                && repository.codeIndex == if IsIndexed(after.code)
                                           then old(repository.codeIndex)[after.code.value := discountId]
                                           else old(repository.codeIndex)
    {
      var found := repository.GetById(discountId);
      if found.None? {
        return Failure(NotFound);
      }
      var discount := found.value;
      var valid := IsValid(discount.Record(), cartTotal, now);
      if valid.Failure? {
        return Failure(valid.error);
      }
      if !valid.value {
        return Failure(InvalidDiscount);
      }
      var discountValue := ApplyTo(discount.Record(), cartTotal, now);
      if discountValue.Failure? {
        return discountValue;
      }
      ghost var stored := repository.Contents();
      discount.Use();
      assert repository.Contents() == stored[discountId := discount.Record()] by {
        forall k | k in repository.discounts && k != discountId
          ensures repository.discounts[k] != discount
        {
          assert repository.discounts[k].id == k;
        }
      }
      var saved := repository.Save(discount);
      return discountValue;
    }

    /**
     * `validate_coupon_code`: None for an unknown code or a discount that is
     * not valid for the order, otherwise the stored discount itself.  It
     * changes nothing; a currency mismatch inside `is_valid` propagates.
     */
    method ValidateCouponCode(code: string, orderValue: Money, now: Time) returns (r: Result<Option<Discount>, Error>)
      ensures repository.GetByCode(code).None? ==> r == Success(None)
      ensures repository.GetByCode(code).Some? ==>
                var d := repository.GetByCode(code).value;
                match IsValid(d.Record(), orderValue, now)
                case Failure(e) => r == Failure(e)
                case Success(valid) => r == Success(if valid then Some(d) else None)
    {
      var found := repository.GetByCode(code);
      if found.None? {
        return Success(None);
      }
      var valid := IsValid(found.value.Record(), orderValue, now);
      if valid.Failure? {
        return Failure(valid.error);
      }
      if !valid.value {
        return Success(None);
      }
      return Success(found);
    }

    /**
     * `create_percentage_discount`: a percentage of at most zero or above 100
     * is refused and nothing is saved; otherwise a PERCENTAGE discount with
     * the given fields is saved and the stored copy returned.
     */
    method CreatePercentageDiscount(percentage: real, code: string, description: string,
                                    minimumOrderValue: Option<Money>, validUntil: Option<Time>,
                                    maxUsageCount: Option<int>, newId: Id, now: Time)
      returns (r: Result<Discount, Error>)
      requires repository.Valid()
      modifies repository
      ensures repository.Valid()
      ensures r.Failure? <==> percentage <= 0.0 || percentage > 100.0
      ensures r.Failure? ==> r.error == InvalidPercentage && unchanged(repository)
      ensures r.Success? ==>
                var created := PercentageDiscount(newId, percentage, code, description, minimumOrderValue,
                                                  validUntil, maxUsageCount, now);
                && fresh(r.value) && r.value.Record() == created
                && repository.discounts == old(repository.discounts)[newId := r.value]
                && repository.Contents() == old(repository.Contents())[newId := created]
                && repository.saveLog == old(repository.saveLog) + [created]
                && repository.codeIndex == if code != "" then old(repository.codeIndex)[code := newId]
                                           else old(repository.codeIndex)
    {
      if percentage <= 0.0 || percentage > 100.0 {
        return Failure(InvalidPercentage);
      }
      var discount := new Discount(PercentageDiscount(newId, percentage, code, description, minimumOrderValue,
                                                      validUntil, maxUsageCount, now));
      var saved := repository.Save(discount);
      return Success(saved);
    }

    /**
     * `create_fixed_amount_discount`: an amount that is not positive is
     * refused and nothing is saved; otherwise a FIXED_AMOUNT discount
     * carrying the amount's number is saved and the stored copy returned.
     */
    method CreateFixedAmountDiscount(amount: Money, code: string, description: string,
                                     minimumOrderValue: Option<Money>, validUntil: Option<Time>,
                                     maxUsageCount: Option<int>, newId: Id, now: Time)
      returns (r: Result<Discount, Error>)
      requires repository.Valid()
      modifies repository
      ensures repository.Valid()
      ensures r.Failure? <==> !IsPositive(amount)
      ensures r.Failure? ==> r.error == NonPositiveAmount && unchanged(repository)
      ensures r.Success? ==>
                var created := FixedAmountDiscount(newId, amount, code, description, minimumOrderValue,
                                                   validUntil, maxUsageCount, now);
                && fresh(r.value) && r.value.Record() == created
                && repository.discounts == old(repository.discounts)[newId := r.value]
                && repository.Contents() == old(repository.Contents())[newId := created]
                && repository.saveLog == old(repository.saveLog) + [created]
                && repository.codeIndex == if code != "" then old(repository.codeIndex)[code := newId]
                                           else old(repository.codeIndex)
    {
      if !IsPositive(amount) {
        return Failure(NonPositiveAmount);
      }
      var discount := new Discount(FixedAmountDiscount(newId, amount, code, description, minimumOrderValue,
                                                       validUntil, maxUsageCount, now));
      var saved := repository.Save(discount);
      return Success(saved);
    }
  }

  /** A fixed-amount discount the service accepts has a positive value; it is well formed exactly when its usage limit is not negative. */
  lemma CreatedFixedAmountIsPositive(id: Id, amount: Money, code: string, description: string,
                                     minimumOrderValue: Option<Money>, validUntil: Option<Time>,
                                     maxUsageCount: Option<int>, now: Time)
    requires IsPositive(amount)
    ensures FixedAmountDiscount(id, amount, code, description, minimumOrderValue, validUntil, maxUsageCount, now).value > 0.0
    ensures WellFormed(FixedAmountDiscount(id, amount, code, description, minimumOrderValue, validUntil, maxUsageCount, now))
            <==> maxUsageCount.None? || maxUsageCount.value >= 0
  {
  }

  /** A percentage the service accepts, 100 included, gives a discount that is well formed exactly when its usage limit is not negative. */
  lemma CreatedPercentageIsWellFormed(id: Id, percentage: real, code: string, description: string,
                                      minimumOrderValue: Option<Money>, validUntil: Option<Time>,
                                      maxUsageCount: Option<int>, now: Time)
    requires 0.0 < percentage <= 100.0
    ensures WellFormed(PercentageDiscount(id, percentage, code, description, minimumOrderValue, validUntil, maxUsageCount, now))
            <==> maxUsageCount.None? || maxUsageCount.value >= 0
  {
  }

  // ---------------------------------------------------------------------------
  // The unchecked usage limit
  // ---------------------------------------------------------------------------

  /**
   * As written, the service checks only the percentage or the amount, so a
   * usage limit of -1 is saved: the discount breaks the entity's invariant
   * from the start and is never valid, for any order at any time.
   */
  lemma NegativeUsageLimitIsAccepted(id: Id, code: string, description: string, order: Money, now: Time, later: Time)
    ensures var d := PercentageDiscount(id, 10.0, code, description, None, None, Some(-1), now);
            && !WellFormed(d)
            && IsValid(d, order, later) == Success(false)
  {
  }

  /** The usage-limit check the service leaves out: a limit, when given, must not be negative. */
  function UsageLimitError(maxUsageCount: Option<int>): (r: Option<Error>)
    ensures r.None? <==> maxUsageCount.None? || maxUsageCount.value >= 0
    ensures r.Some? ==> r.value == NegativeUsageLimit
  {
    if maxUsageCount.Some? && maxUsageCount.value < 0 then Some(NegativeUsageLimit) else None
  }

  /**
   * `create_percentage_discount`'s checks with the usage limit checked too:
   * exactly the discounts it accepts are well formed.
   */
  function CheckedPercentageDiscount(id: Id, percentage: real, code: string, description: string,
                                     minimumOrderValue: Option<Money>, validUntil: Option<Time>,
                                     maxUsageCount: Option<int>, now: Time): (r: Result<DiscountRecord, Error>)
    ensures r.Success? <==> 0.0 < percentage <= 100.0 && UsageLimitError(maxUsageCount).None?
    ensures r.Success? ==>
              && r.value == PercentageDiscount(id, percentage, code, description, minimumOrderValue, validUntil, maxUsageCount, now)
              && WellFormed(r.value)
    ensures r.Failure? ==> r.error == if percentage <= 0.0 || percentage > 100.0 then InvalidPercentage else NegativeUsageLimit
  {
    if percentage <= 0.0 || percentage > 100.0 then Failure(InvalidPercentage)
    else if UsageLimitError(maxUsageCount).Some? then Failure(UsageLimitError(maxUsageCount).value)
    else Success(PercentageDiscount(id, percentage, code, description, minimumOrderValue, validUntil, maxUsageCount, now))
  }

  /**
   * `create_fixed_amount_discount`'s check with the usage limit checked too:
   * exactly the discounts it accepts are well formed.
   */
  function CheckedFixedAmountDiscount(id: Id, amount: Money, code: string, description: string,
                                      minimumOrderValue: Option<Money>, validUntil: Option<Time>,
                                      maxUsageCount: Option<int>, now: Time): (r: Result<DiscountRecord, Error>)
    ensures r.Success? <==> IsPositive(amount) && UsageLimitError(maxUsageCount).None?
    ensures r.Success? ==>
              && r.value == FixedAmountDiscount(id, amount, code, description, minimumOrderValue, validUntil, maxUsageCount, now)
              && WellFormed(r.value)
    ensures r.Failure? ==> r.error == if !IsPositive(amount) then NonPositiveAmount else NegativeUsageLimit
  {
    if !IsPositive(amount) then Failure(NonPositiveAmount)
    else if UsageLimitError(maxUsageCount).Some? then Failure(UsageLimitError(maxUsageCount).value)
    else Success(FixedAmountDiscount(id, amount, code, description, minimumOrderValue, validUntil, maxUsageCount, now))
  }
}
