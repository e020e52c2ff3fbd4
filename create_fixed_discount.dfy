/**
 * The use case that creates a fixed-amount discount from plain numbers: it
 * checks its own arguments, turns the amount and the minimum order value into
 * money in the chosen currency, and hands over to the discount service.
 */
module UseCases {
  import opened Wrappers
  import opened ValueObjects
  import opened Discounts
  import opened DiscountServices

  class CreateFixedDiscountUseCase {
    const service: DiscountService

    constructor (service: DiscountService)
      ensures this.service == service
    {
      this.service := service;
    }

    /**
     * `execute`: an amount not above zero is refused first, then an empty
     * code; neither saves anything.  Otherwise the amount and the minimum
     * become money in `currency` (rounded to cents), and the service decides:
     * an amount that rounds to zero cents is refused there, anything else is
     * saved with the rounded minimum as a present gate.  The currency
     * defaults to BRL, the minimum to zero, the expiry and the usage limit to
     * none.  The id the new discount draws and the clock reading come first.
     */
    method Execute(newId: Id, now: Time, amount: real, code: string, description: string,
                   currency: string := DefaultCurrency, minimumOrderValue: real := 0.0,
                   validUntil: Option<Time> := None, maxUsageCount: Option<int> := None)
      returns (r: Result<Discount, Error>)
      requires service.repository.Valid()
      modifies service.repository
      ensures service.repository.Valid()
      ensures amount <= 0.0 ==> r == Failure(AmountNotAboveZero)
      ensures amount > 0.0 && code == "" ==> r == Failure(MissingCode)
      ensures amount > 0.0 && code != "" && FromAmount(amount, currency).cents <= 0 ==> r == Failure(NonPositiveAmount)
      ensures r.Failure? ==> unchanged(service.repository)
      ensures r.Success? <==> amount > 0.0 && code != "" && FromAmount(amount, currency).cents > 0
      ensures r.Success? ==>
                var created := FixedAmountDiscount(newId, FromAmount(amount, currency), code, description,
                                                   Some(FromAmount(minimumOrderValue, currency)),
                                                   validUntil, maxUsageCount, now);
                && fresh(r.value) && r.value.Record() == created
                && service.repository.discounts == old(service.repository.discounts)[newId := r.value]
                && service.repository.Contents() == old(service.repository.Contents())[newId := created]
                && service.repository.codeIndex == old(service.repository.codeIndex)[code := newId]
                && service.repository.saveLog == old(service.repository.saveLog) + [created]
    {
      if amount <= 0.0 {
        return Failure(AmountNotAboveZero);
      }
      if code == "" {
        return Failure(MissingCode);
      }
      var discountAmount := FromAmount(amount, currency);
      var minOrder := FromAmount(minimumOrderValue, currency);
      r := service.CreateFixedAmountDiscount(discountAmount, code, description, Some(minOrder),
                                             validUntil, maxUsageCount, newId, now);
    }
  }

  /**
   * Called with only the amount, code and description, the use case creates
   * a BRL discount whose minimum is 0.00 BRL, with no expiry and no usage
   * limit.
   */
  method ExecuteWithDefaults(useCase: CreateFixedDiscountUseCase, newId: Id, now: Time)
    returns (r: Result<Discount, Error>)
    requires useCase.service.repository.Valid()
    modifies useCase.service.repository
    ensures r.Success?
    ensures r.value.value == 15.0 && r.value.kind == FixedAmount
    ensures r.value.minimumOrderValue == Some(Money(0, DefaultCurrency))
    ensures r.value.validUntil == None && r.value.maxUsageCount == None
  {
    r := useCase.Execute(newId, now, 15.0, "SAVE15", "15 off");
  }

  /** A positive amount below half a cent passes the use case's own guard but not the service's. */
  lemma SubCentAmountIsRefusedByService()
    ensures 0.004 > 0.0 && !IsPositive(FromAmount(0.004, DefaultCurrency))
  {
    ConstructionRoundsTiesAwayFromZero();
  }
}
