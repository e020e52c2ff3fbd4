# Discount valuation in the e-commerce cart module

This project models the part of the cart module that prices discounts:

- the `Money` value object and its arithmetic, comparisons, sign tests and rendering;
- the `Discount` entity: its kinds and defaults, its validity test, how it prices an order, and how a use is counted;
- the in-memory discount repository, a dictionary of discount objects plus an index from coupon code to id;
- the discount service, which applies a stored discount to a cart total, validates a coupon code, and creates percentage and fixed-amount discounts;
- the use case that creates a fixed discount from plain numbers;
- the cart's `add_item`.

Money holds a whole number of cents and a currency code. Building a Money rounds the amount to cents, with ties going away from zero (Decimal's `ROUND_HALF_UP`). Addition, subtraction and the four orderings raise on mixed currencies; `==` returns false instead. Multiplication and division take a plain number. The currency defaults to BRL. The discount module's `is_valid`, `apply_to` and `use`, and its `value` and `maximum_discount_amount` fields, are not in `discount.py`. They are reconstructed from what `tests/modules/cart/domain/entities/test_discount.py` and `discount_service.py` demand of them:

- `is_valid` checks its gates in this order: the window has opened, the window has not closed, a use is left, and the order reaches the minimum.
- An invalid discount's `apply_to` returns the order unchanged.
- A percentage takes a rounded share of the order. It is capped by the maximum discount amount only when that amount is set and not zero. The default maximum is zero, which means unbounded.
- A fixed amount or a coupon takes off its value, read in the order's currency.
- The total never goes below zero.
- `use` adds one to the usage count and checks nothing.

A minimum order value of None, which the service passes by default, sets no bound. The default of `Money(0)` sets a bound of 0.00 BRL.

The usage-limit test calls only `apply_to`, three times, and expects the third call to give the price back. The service instead calls `use()` after `apply_to`. The model keeps `ApplyTo` pure and `Use` separate, and states the usage-limit property over "apply, then use when the discount is valid and `apply_to` succeeds" (`Discounts.Redemptions`), as the service counts a use only after `apply_to` returns.

Stateful code is modelled as classes:

- The repository, the service, the use case, the cart and the discount's usage counter are classes.
- Each method that changes the store says which object each id maps to afterwards and what field values those objects hold.
- A ghost `saveLog` records the field values handed to `save`, oldest first.
- The async store calls are awaited one after another, so each service operation is a sequential method.
- The clock reading (`now`) and the id a new discount draws (`newId`) are parameters.

Module layout: `Wrappers` (Option, Result, errors), `ValueObjects` (money), `Discounts` (the entity), `MemoryDiscountRepository`, `DiscountServices`, `UseCases` and `Carts`.

## Model

| member | source | states |
|---|---|---|
| ValueObjects.FromAmount | ecommerce/modules/cart/domain/value_objects/money.py:16-32 | the Money keeps the given currency, BRL by default, and its cents are the amount in cents rounded half away from zero |
| ValueObjects.RoundHalfAwayFromZero | ecommerce/modules/cart/domain/value_objects/money.py:29 | the result is the nearest whole number, and a tie goes away from zero |
| ValueObjects.RoundingIsUnique | ecommerce/modules/cart/domain/value_objects/money.py:29 | half-away-from-zero rounding has exactly one result for every number |
| ValueObjects.RoundingIsMonotone | ecommerce/modules/cart/domain/value_objects/money.py:29 | rounding preserves order: a smaller amount never rounds above a larger one |
| ValueObjects.RoundingStaysBetween | ecommerce/modules/cart/domain/value_objects/money.py:29 | an amount between two whole numbers rounds to a whole number between them |
| ValueObjects.ConstructionIsIdempotent | ecommerce/modules/cart/domain/value_objects/money.py:26-29 | rebuilding a Money from its own amount and currency gives the same Money |
| ValueObjects.ConstructionRoundsTiesAwayFromZero | ecommerce/modules/cart/domain/value_objects/money.py:29 | -0.005 becomes -0.01, 10.005 becomes 10.01, and 0.004 becomes 0.00 |
| ValueObjects.Add | ecommerce/modules/cart/domain/value_objects/money.py:44-64 | it fails exactly when the currencies differ, with both codes in the error; otherwise the sum is exact, in the first operand's currency |
| ValueObjects.Sub | ecommerce/modules/cart/domain/value_objects/money.py:66-86 | it fails exactly when the currencies differ; otherwise the difference is exact, in the first operand's currency |
| ValueObjects.AddThenSubRoundTrip | ecommerce/modules/cart/domain/value_objects/money.py:44-86 | adding b and then subtracting b gives back a |
| ValueObjects.Mul | ecommerce/modules/cart/domain/value_objects/money.py:88-109 | the currency is kept, and the cents are the exact product rounded half away from zero |
| ValueObjects.MulRoundsExactProduct | ecommerce/modules/cart/domain/value_objects/money.py:88-109 | the product's cents are the rounded value of cents times the factor |
| ValueObjects.MulByWholeIsExact | ecommerce/modules/cart/domain/value_objects/money.py:88-109 | multiplying by a whole number multiplies the cents exactly |
| ValueObjects.Div | ecommerce/modules/cart/domain/value_objects/money.py:111-136 | it fails with division by zero exactly when the divisor is zero; otherwise the quotient keeps the currency, rounded to cents |
| ValueObjects.MulThenDivRoundTrip | ecommerce/modules/cart/domain/value_objects/money.py:88-136 | multiplying by a non-zero whole number and then dividing by it gives back the original Money |
| ValueObjects.Equals | ecommerce/modules/cart/domain/value_objects/money.py:138-151 | two Money values are equal exactly when both the amount and the currency match |
| ValueObjects.Lt | ecommerce/modules/cart/domain/value_objects/money.py:153-172 | it fails exactly on mixed currencies; otherwise it compares the amounts with < |
| ValueObjects.Le | ecommerce/modules/cart/domain/value_objects/money.py:174-193 | it fails exactly on mixed currencies; otherwise it compares the amounts with <= |
| ValueObjects.Gt | ecommerce/modules/cart/domain/value_objects/money.py:195-214 | it fails exactly on mixed currencies; otherwise it compares the amounts with > |
| ValueObjects.Ge | ecommerce/modules/cart/domain/value_objects/money.py:216-235 | it fails exactly on mixed currencies; otherwise it compares the amounts with >= |
| ValueObjects.OrderingsAgree | ecommerce/modules/cart/domain/value_objects/money.py:153-235 | in one currency, a > b is the same as b < a and a >= b is the same as b <= a; <= means < or equal, >= means not <, and exactly one of <, == and > holds, at least one and never two |
| ValueObjects.SignsAreExclusive | ecommerce/modules/cart/domain/value_objects/money.py:237-262 | every Money is exactly one of zero, positive or negative, as its amount's sign says |
| ValueObjects.IsZero | ecommerce/modules/cart/domain/value_objects/money.py:237-244 | true exactly when the amount is zero |
| ValueObjects.IsPositive | ecommerce/modules/cart/domain/value_objects/money.py:246-253 | true exactly when the amount is above zero |
| ValueObjects.IsNegative | ecommerce/modules/cart/domain/value_objects/money.py:255-262 | true exactly when the amount is below zero |
| ValueObjects.FormatAmount | ecommerce/modules/cart/domain/value_objects/money.py:37-38 | the two-decimal rendering ends in a point and two digits, and starts with a minus sign exactly when the amount is negative |
| ValueObjects.NumeralRoundTrip | ecommerce/modules/cart/domain/value_objects/money.py:34-38 | reading back the numeral written for n gives n |
| ValueObjects.NumeralHasNoLeadingZero | ecommerce/modules/cart/domain/value_objects/money.py:37-38 | the numeral of a positive whole number does not start with 0 |
| ValueObjects.FormatAmountIsCanonical | ecommerce/modules/cart/domain/value_objects/money.py:37-38 | the rendering is canonical: a minus sign exactly when the amount is negative; whole units without leading zeros, with "0" for none; a point; exactly two digits |
| ValueObjects.FormatThenParseRoundTrip | ecommerce/modules/cart/domain/value_objects/money.py:34-38 | the two-decimal rendering of an amount reads back to the same cents, a negative sign included |
| ValueObjects.CurrencySymbol | ecommerce/modules/cart/domain/value_objects/money.py:36-38 | the prefix is "R$" for BRL and the currency code itself for any other currency |
| ValueObjects.ToString | ecommerce/modules/cart/domain/value_objects/money.py:34-38 | BRL renders as "R$ " and any other currency as its code and a space, followed by exactly the canonical two-decimal rendering of the amount, which reads back to the Money's cents |
| Discounts.NewDiscount | ecommerce/modules/cart/domain/entities/discount.py:23-31 | a new discount carries the given id, type, value and start time, and the defaults: no code, an empty description, a zero BRL minimum, a zero BRL maximum, no expiry, no usage limit and no uses |
| Discounts.IsValid | tests/modules/cart/domain/entities/test_discount.py:84-127 | false before the window opens, after it closes, or once the uses are spent; otherwise the result of Money's >= against the minimum; a minimum of None always passes; it fails exactly when the minimum is in another currency and the first three gates pass |
| Discounts.Reduction | tests/modules/cart/domain/entities/test_discount.py:8-82 | the reduction is in the order's currency; it fails exactly when a percentage has a non-zero maximum in another currency |
| Discounts.ApplyTo | tests/modules/cart/domain/entities/test_discount.py:32-62 | a validity error propagates; an invalid discount returns the order unchanged; a valid one never gives a negative total; it fails exactly on a currency mismatch |
| Discounts.ReductionMatchesReference | tests/modules/cart/domain/entities/test_discount.py:8-82 | the reduction in Money equals an integer reference: the order's cents times the percentage rounded, then capped; for the other kinds, the value in cents rounded |
| Discounts.ApplyToMatchesReference | tests/modules/cart/domain/entities/test_discount.py:8-82 | a valid discount's total is the order's cents less the reference reduction, floored at zero |
| Discounts.CapBoundsDiscount | tests/modules/cart/domain/entities/test_discount.py:64-82 | a valid percentage discount with a non-zero maximum in the order's currency never takes off more than that maximum, floored or not |
| Discounts.ZeroCapIsUnbounded | tests/modules/cart/domain/entities/test_discount.py:8-18 | a maximum of zero, the default, in any currency, prices exactly as having no maximum |
| Discounts.ApplyToStaysWithinOrder | tests/modules/cart/domain/entities/test_discount.py:32-42 | on a non-negative order, when apply_to succeeds, a well-formed discount gives a total between zero and the order |
| Discounts.ReductionIsNonNegative | tests/modules/cart/domain/entities/test_discount.py:20-42 | on a non-negative order, a well-formed discount never takes off a negative amount |
| Discounts.PercentageReductionWithinOrder | tests/modules/cart/domain/entities/test_discount.py:8-18 | a share of at most 100 percent takes off between zero and the whole order, however it rounds |
| Discounts.Used | ecommerce/modules/cart/domain/services/discount_service.py:45 | the usage count goes up by one, and no other field changes |
| Discounts.UseAfterValidKeepsWellFormed | ecommerce/modules/cart/domain/services/discount_service.py:40-45 | using a discount right after it passed is_valid keeps the usage count within its limit |
| Discounts.Redeemed | ecommerce/modules/cart/domain/services/discount_service.py:40-45 | one redemption changes only the usage count, and raises it by one exactly when the discount is valid and apply_to succeeds; otherwise the discount is unchanged |
| Discounts.AfterRedemptions | tests/modules/cart/domain/entities/test_discount.py:129-150 | k redemptions change only the usage count, and raise it by at most k |
| Discounts.FailingRedemptionCountsNoUse | ecommerce/modules/cart/domain/services/discount_service.py:40-45 | when apply_to fails, no use is counted, so the discount stays as it was and every redemption fails the same way |
| Discounts.Redemptions | tests/modules/cart/domain/entities/test_discount.py:129-150 | k redemptions give exactly k totals |
| Discounts.RedemptionAt | tests/modules/cart/domain/entities/test_discount.py:129-150 | the i-th total is apply_to on the discount as the first i redemptions left it |
| Discounts.RedemptionsApplyWhileUsesRemain | tests/modules/cart/domain/entities/test_discount.py:138-146 | while uses remain, the other gates pass and the reduction can be computed, the discount is valid and every one of those redemptions gives the same discounted total as the first |
| Discounts.RedemptionsNeverExceedCap | tests/modules/cart/domain/entities/test_discount.py:129-150 | the usage count never passes the cap, however many redemptions there are |
| Discounts.ExhaustedDiscountPassesThrough | tests/modules/cart/domain/entities/test_discount.py:129-150 | once the uses are spent, every further redemption returns the order unchanged |
| Discounts.RedemptionsCountUses | tests/modules/cart/domain/entities/test_discount.py:129-150 | while uses remain, the other gates pass and the reduction can be computed, each redemption counts exactly one use |
| Discounts.DiscountUsageLimit | tests/modules/cart/domain/entities/test_discount.py:129-150 | with a limit of 2, three redemptions of 100.00 give 90.00, 90.00 and then 100.00 |
| Discounts.PercentageDiscountCalculation | tests/modules/cart/domain/entities/test_discount.py:8-18 | 10 percent off 100.00 gives 90.00 |
| Discounts.FixedDiscountCalculation | tests/modules/cart/domain/entities/test_discount.py:20-30 | 15.00 off 100.00 gives 85.00 |
| Discounts.DiscountCannotResultInNegativePrice | tests/modules/cart/domain/entities/test_discount.py:32-42 | 75.00 off 50.00 gives 0.00 |
| Discounts.DiscountWithMinimumPurchase | tests/modules/cart/domain/entities/test_discount.py:44-62 | with a minimum of 100.00, 20 percent leaves 50.00 unchanged and takes 200.00 to 160.00 |
| Discounts.DiscountWithMaximumAmount | tests/modules/cart/domain/entities/test_discount.py:64-82 | 30 percent capped at 50.00 takes 100.00 to 70.00 and 500.00 to 450.00 |
| Discounts.DiscountValidityPeriod | tests/modules/cart/domain/entities/test_discount.py:84-127 | a current discount is valid and takes 100.00 to 90.00; an expired one and a future one are invalid and leave 100.00 |
| Discounts.DefaultMinimumIsInBrl | ecommerce/modules/cart/domain/entities/discount.py:27 | the default minimum of 0.00 BRL makes a fresh discount raise on an order in any other currency |
| Discounts.Discount.constructor | ecommerce/modules/cart/domain/entities/discount.py:19-31 | the new object holds exactly the given field values |
| Discounts.Discount.Use | ecommerce/modules/cart/domain/services/discount_service.py:45 | the object's fields become what Used gives for its old fields |
| MemoryDiscountRepository.IsIndexed | ecommerce/modules/cart/infrastructure/db/repositories/memory_discount_repository.py:65 | a code is indexed exactly when it is truthy: neither None nor the empty string |
| MemoryDiscountRepository.InMemoryDiscountRepository.constructor | ecommerce/modules/cart/infrastructure/db/repositories/memory_discount_repository.py:14-17 | the store starts empty, with an empty code index |
| MemoryDiscountRepository.InMemoryDiscountRepository.GetById | ecommerce/modules/cart/infrastructure/db/repositories/memory_discount_repository.py:19-29 | the stored object itself under that id, or None exactly when the id is absent |
| MemoryDiscountRepository.InMemoryDiscountRepository.GetByCode | ecommerce/modules/cart/infrastructure/db/repositories/memory_discount_repository.py:31-44 | None for an unindexed code; otherwise whatever is stored under the indexed id, which may be nothing |
| MemoryDiscountRepository.InMemoryDiscountRepository.Save | ecommerce/modules/cart/infrastructure/db/repositories/memory_discount_repository.py:46-68 | a fresh copy with equal fields is stored under the discount's id and returned; a non-empty code is pointed at that id; no other entry or key changes |
| MemoryDiscountRepository.InMemoryDiscountRepository.Delete | ecommerce/modules/cart/infrastructure/db/repositories/memory_discount_repository.py:70-85 | an absent id changes nothing; otherwise the entry goes, and so does the key of its code, whatever id that key names |
| MemoryDiscountRepository.CallerChangesDoNotReachStore | ecommerce/modules/cart/infrastructure/db/repositories/memory_discount_repository.py:56-62 | using the object after saving it leaves the stored copy as it was saved |
| MemoryDiscountRepository.LookupAliasesStore | ecommerce/modules/cart/infrastructure/db/repositories/memory_discount_repository.py:19-29 | using the object get_by_id returns changes the stored entry at once, before any save |
| MemoryDiscountRepository.DeleteDropsAnotherDiscountsCodeKey | ecommerce/modules/cart/infrastructure/db/repositories/memory_discount_repository.py:77-85 | after two discounts are saved with one code, deleting the first leaves the second stored but no longer findable by that code |
| MemoryDiscountRepository.SaveKeepsStaleCodeKey | ecommerce/modules/cart/infrastructure/db/repositories/memory_discount_repository.py:62-66 | re-saving a discount under a new code leaves the old code still finding it |
| DiscountServices.DiscountService.constructor | ecommerce/modules/cart/domain/services/discount_service.py:16-18 | the service holds the given repository |
| DiscountServices.DiscountService.ApplyDiscountToCart | ecommerce/modules/cart/domain/services/discount_service.py:20-48 | an unknown id gives not found; a validity error propagates; an invalid discount gives invalid; otherwise the result is apply_to's. On success the object the lookup handed out is now the used discount (its count one higher, nothing else changed), the id maps to a fresh copy of it, saved once, and every other id keeps its object. On any failure nothing changes |
| DiscountServices.DiscountService.ValidateCouponCode | ecommerce/modules/cart/domain/services/discount_service.py:50-71 | None for an unknown code or an invalid discount; the stored discount itself when valid; a validity error propagates |
| DiscountServices.DiscountService.CreatePercentageDiscount | ecommerce/modules/cart/domain/services/discount_service.py:73-112 | it refuses, saving nothing, exactly when the percentage is at most 0 or above 100; otherwise a percentage discount with the given fields over the entity's defaults (a zero maximum) is saved, and the stored copy is returned; a negative usage limit is accepted |
| DiscountServices.DiscountService.CreateFixedAmountDiscount | ecommerce/modules/cart/domain/services/discount_service.py:114-153 | it refuses, saving nothing, exactly when the amount is not positive; otherwise a fixed-amount discount carrying the amount's number is saved, and the stored copy is returned; a negative usage limit is accepted |
| DiscountServices.CreatedFixedAmountIsPositive | ecommerce/modules/cart/domain/services/discount_service.py:140-151 | a fixed-amount discount the service accepts has a positive value, and it is well formed exactly when its usage limit is not negative |
| DiscountServices.CreatedPercentageIsWellFormed | ecommerce/modules/cart/domain/services/discount_service.py:99-110 | a percentage the service accepts, 100 included, gives a discount that is well formed exactly when its usage limit is not negative |
| DiscountServices.NegativeUsageLimitIsAccepted | ecommerce/modules/cart/domain/services/discount_service.py:99-110 | a percentage discount created with a usage limit of -1 is not well formed and is never valid, for any order at any time |
| DiscountServices.UsageLimitError | ecommerce/modules/cart/domain/services/discount_service.py:99-100 | the missing check: a usage limit is refused exactly when it is given and negative |
| DiscountServices.PercentageDiscount | ecommerce/modules/cart/domain/services/discount_service.py:102-110 | the discount the service builds: a percentage with the given value, code, description, minimum, expiry and usage limit, starting now, with no uses and no cap |
| DiscountServices.FixedAmountDiscount | ecommerce/modules/cart/domain/services/discount_service.py:143-151 | the discount the service builds: a fixed amount whose value is the amount's number, with the given code, description, minimum, expiry and usage limit, starting now, with no uses and no cap |
| DiscountServices.CheckedPercentageDiscount | ecommerce/modules/cart/domain/services/discount_service.py:99-110 | the percentage check plus the usage-limit check: it accepts exactly the arguments whose discount is well formed, and then builds the same discount as the service |
| DiscountServices.CheckedFixedAmountDiscount | ecommerce/modules/cart/domain/services/discount_service.py:140-151 | the amount check plus the usage-limit check: it accepts exactly the arguments whose discount is well formed, and then builds the same discount as the service |
| UseCases.CreateFixedDiscountUseCase.constructor | ecommerce/modules/cart/application/use_cases/create_fixed_discount.py:13-20 | the use case holds the given service |
| UseCases.CreateFixedDiscountUseCase.Execute | ecommerce/modules/cart/application/use_cases/create_fixed_discount.py:22-69 | an amount not above zero is refused first, then an empty code; an amount that rounds to zero cents is refused by the service; otherwise a fixed discount with the rounded amount and the rounded minimum is saved under a fresh object; every refusal leaves the store unchanged; the currency defaults to BRL and the minimum to 0 |
| UseCases.ExecuteWithDefaults | ecommerce/modules/cart/application/use_cases/create_fixed_discount.py:27-30 | called with only an amount, a code and a description, the use case saves a discount whose minimum is 0.00 BRL, with no expiry and no usage limit |
| UseCases.SubCentAmountIsRefusedByService | ecommerce/modules/cart/application/use_cases/create_fixed_discount.py:51-59 | 0.004 passes the use case's own guard but rounds to zero cents, which is not positive |
| Carts.Cart.constructor | ecommerce/modules/cart/domain/entities/cart.py:11-21 | a new cart has no user, no items, no discounts and no session, and each timestamp is its own clock reading |
| Carts.Cart.AddItem | ecommerce/modules/cart/domain/entities/cart.py:23-25 | the item is appended at the end, and no other field changes, `updated_at` included |
| Carts.AddingTwiceKeepsBoth | ecommerce/modules/cart/domain/entities/cart.py:23-25 | adding one item twice gives two entries after the existing ones |

## Findings

| source | as written | input that shows it | evidently intended | confidence | as-written member | corrected member |
|---|---|---|---|---|---|---|
| ecommerce/modules/cart/domain/services/discount_service.py:99-110 | `create_percentage_discount` and `create_fixed_amount_discount` check only the percentage or the amount; the usage limit is not checked | `max_usage_count=-1`: the discount is saved with a count of 0 above its limit of -1, breaking "usage count never exceeds the limit" from creation, and it is never valid | refuse a negative usage limit, so that every created discount keeps that invariant | medium, not executed | DiscountServices.NegativeUsageLimitIsAccepted | DiscountServices.CheckedPercentageDiscount |

The service methods (`CreatePercentageDiscount`, `CreateFixedAmountDiscount`) model the code as written, so they accept a negative limit. `UsageLimitError` with `CheckedPercentageDiscount` and `CheckedFixedAmountDiscount` is the corrected guard. Its accepted discounts are exactly the well-formed ones.

## Left out

- Money's amount is an exact rational number in cents. The model omits Decimal's 28-digit context, NaN, Infinity, binary floats passed through `str()`, and amounts given as strings.
- A negative amount that rounds to zero cents renders as `-0.00` in Python, because Decimal keeps the sign of zero. The model has one zero and renders it as `0.00`.
- `float` conversions, `__repr__`, `__hash__` and `to_dict` are not modelled; none of them affects valuation.
- The `datetime.now` and `uuid4` defaults are not modelled. The clock reading and the ids are parameters, and a time is an integer.
- Discounts.IsValid, Discounts.ApplyTo and Discounts.Used: `discount.py` defines no `is_valid`, `apply_to` or `use`, and no `value` or `maximum_discount_amount` field. They are reconstructed from the entity's tests and from the service's calls. The code as written would also fail in three ways:
  - the Discount class cannot be defined, because the non-default `type` follows the defaulted `id` (discount.py:23-24);
  - every `Discount(..., value=...)` call raises, because the class has no `value` field (discount_service.py:102-110, test_discount.py:12);
  - `discount_service.py`'s import of `DiscountType` fails, because `entities/__init__.py` does not export it.
- Discounts.IsValid: a minimum order value of None, which the service passes by default, is read as "no minimum". The existing code would raise on it.
- Discounts.Reduction: a maximum of zero, the default, is read as unbounded, and only a set, non-zero maximum caps a percentage. The test at lines 8-18 needs this reading: a zero cap there would leave 100.00 instead of 90.00. A negative maximum would still cap, and `WellFormed` excludes it.
- Discounts.Reduction: the fixed-amount test passes a Money as `value`, while the service stores the amount's number. The model keeps the number and reads it in the order's currency, so a fixed discount never raises on a currency mismatch.
- Discounts.DiscountUsageLimit: the entity's test expects `apply_to` alone to run out after two calls; the service counts uses with a separate `use()`. The model states the limit over apply-then-use, not over `apply_to` alone.
- Discounts.Discount: every field other than the usage counter is a constant, because nothing in the modelled code reassigns one.
- MemoryDiscountRepository: the repository Protocol in `discount_repository.py` is used only as the store's shape. Its `save` is declared to return None, while the in-memory store returns the saved copy. It also declares a `list` that the in-memory store does not have.
- MemoryDiscountRepository.InMemoryDiscountRepository.GetByCode: ids are UUIDs, which are always truthy, so the `if discount_id:` test reduces to "the code is in the index".
- Cart items are known only by their identity, because the model leaves out the fields of `cart_item.py`.
- The command-line interface, the SQL repository and its ORM models, and import wiring are not part of this model.
- The method calls are async but are awaited one after another, so they are modelled as sequential calls. Concurrent callers are not modelled.
