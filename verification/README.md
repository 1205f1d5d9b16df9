# Pricing and settlement of the OnRe program, verified

The OnRe program sells an interest-bearing token on Solana. An *offer* holds ten slots of *pricing vectors*; the vector that started last sets the price, which grows linearly in steps. A *trade* takes a fee, converts the rest at the price, and settles it on a token ledger by burning, minting or transferring. This project models those parts in Dafny and proves what they promise for every input, every run of instructions and every reachable state.

| file | content |
|---|---|
| `Machine.dfy` | 16/64/128-bit words, checked arithmetic, results |
| `FixedPoint.dfy` | rounded multiplication, `pow_fixed` as a loop, its error bound, growth bound and monotonicity |
| `Apy.dfy` | `calculate_apy_from_apr`: exact domain, monotone, never below the rate, accurate to half a unit |
| `Pricing.dfy` | the step price: exact success condition, sandwich, step boundaries |
| `Schedule.dfy` | vector lookups, and when ten slots may stand for an unbounded log |
| `VectorStore.dfy` | add, clean, delete as functions of the slots |
| `Eviction.dfy`, `Capacity.dfy` | what each instruction keeps, and when the slots are full |
| `Offer.dfy` | the offer as a class over an array, changed in place, each method a step of a run |
| `Nav.dfy` | NAV, next price change, NAV adjustment, telescoping |
| `Runs.dfy` | whole runs next to the log that never evicts |
| `Settlement.dfy` | fees, payouts, redemptions, splitting, round trips, runs at rising prices |
| `Ledger.dfy`, `TokenLedger.dfy` | balances and supplies; the settlement calls as methods |
| `Instructions.dfy` | the current price, whole trades and redemptions, the permissionless route, the yield and TVL queries |
| `Decimal.dfy` | `u64_to_dec9` and reading it back |

Errors are results. A `checked_*` call that returns nothing is the error its caller names (all arithmetic errors are called `Overflow`); an unchecked operation that leaves its word aborts, because the release profile turns overflow checks on, and is the error `Panic`. A failing instruction is rolled back, so an error leaves the state as it was. The clock is a parameter and never goes back.

Loops and in-place updates of the program are methods (`PowFixed`, `CleanOldVectors`, `AddOfferVector`, `DeleteAllOfferVectors`, `ExecuteTokenOperations`, `U64ToDec9` and so on). Each is proved equal to a function, and the theorems are about that function.

## Where code and comments disagree

The model follows the code.

- Growth is linear in the end of the step (`offer_utils.rs:195-223`); comments call it compound.
- A rate of 1_000_000 is 100%, as `get_apy.rs:9-11` says and the factor `APR_SCALE` confirms; several comments say 1%.
- Fees round up (`token_utils.rs:182-189`); `redemption_utils.rs:51` and the fuzz replica `invariants.rs:150` round down.
- `get_nav` documents `NoActiveVector` for the case that no vector is active. It also returns it for an active vector whose base time lies ahead, which an explicit `start_time` allows; the fuzz replica returns the base price there. `Runs.PricedFromBaseTimeOn` says exactly when, and `Runs.ActiveWithoutPrice` gives a run that gets there.
- `delete_offer_vector` documents `VectorNotFound` for a zero start; the code answers `StartTimeInPast`.
- `configure_max_supply` documents that all minting respects the cap. Redemptions mint without one (`fulfill_redemption_request.rs:274`). `Ledger.CapHolds` proves the cap for a whole run exactly when every redemption fits in the room left, `Ledger.RedemptionExceedsCapIff` says when a single redemption goes over, and `Ledger.RedemptionExceedsCap` gives one that does.
- `make_offer` documents a fee of up to 10000 basis points; the code refuses more than 1000 (`constants.rs:44`). `update_offer_fee` does accept up to 10000.

## Model

| member | source | states |
|---|---|---|
| `FixedPoint.RoundedProduct` | programs/onreapp/src/instructions/market_info/get_apy.rs:241-252 | the rounded product is the nearest multiple, halves up, and fails exactly for a zero divisor or beyond 128 bits |
| `FixedPoint.PowFixed` | programs/onreapp/src/instructions/market_info/get_apy.rs:272-284 | the squaring loop computes `PowFrom`, whose properties follow |
| `FixedPoint.PowFixedBounds` | programs/onreapp/src/instructions/market_info/get_apy.rs:241-284 | for base >= scale and n >= 1: result * (2s*s)^(n-1) lies between base^n (2s-1)^(n-1) and base^n (2s+1)^(n-1), that is n - 1 roundings of relative size 1/(2s); and result >= scale + n (base - scale) |
| `FixedPoint.PowFromInvariant` | programs/onreapp/src/instructions/market_info/get_apy.rs:274-282 | any property that one rounded product hands on from exponents m1, m2 to m1 + m2 holds of the loop's result, as m + k * exp never changes |
| `FixedPoint.PowFromMonotone` | programs/onreapp/src/instructions/market_info/get_apy.rs:272-284 | smaller inputs never overflow where larger ones do not, and never give more |
| `Apy.CalculateApyFromApr` | programs/onreapp/src/instructions/market_info/get_apy.rs:189-225 | the program's steps compute `Apy.Apy` |
| `Apy.ApyDomain` | programs/onreapp/src/instructions/market_info/get_apy.rs:189-284 | the yield is defined for a rate if and only if it is at most 5_876_581 (587.6581%), and is then at most 339_282_307; any failure is `Overflow` |
| `Apy.ApyMonotone` | programs/onreapp/src/instructions/market_info/get_apy.rs:189-284 | success is downward closed in the rate and the yield never falls as the rate rises |
| `Apy.ApyNotBelowApr` | programs/onreapp/src/instructions/market_info/get_apy.rs:189-225 | compounding never pays less than the simple rate, rounding included |
| `Apy.ApyAccuracy` | programs/onreapp/src/instructions/market_info/get_apy.rs:159-225 | the yield is the exact 10^6 ((1 + apr/365)^365 - 1) to within half a unit of its last place and a millionth of that |
| `Apy.LargestRateFits` | programs/onreapp/src/instructions/market_info/get_apy.rs:189-284 | the value at the largest rate |
| `Apy.NextRateOverflows` | programs/onreapp/src/instructions/market_info/get_apy.rs:189-284 | the next rate overflows |
| `Pricing.VectorPriceExact` | programs/onreapp/src/instructions/offer/offer_utils.rs:195-223 | the vector price is the floor of exact linear growth and fails only if that floor exceeds 64 bits: no 128-bit step is ever the limit |
| `Pricing.StepPriceExact` | programs/onreapp/src/instructions/offer/offer_utils.rs:271-294 | when a step price exists, if and only if, and its exact value; NoActiveVector exactly before the base time |
| `Pricing.StepPriceSandwich` | programs/onreapp/src/instructions/offer/offer_utils.rs:225-294 | from the base time on the price never falls, starts at or above the base price, and lies between linear growth at t and at t + D |
| `Schedule.LookupsAgree` | programs/onreapp/src/instructions/offer/offer_utils.rs:168-177 | slots that refine a log give the same active, previous and next vector at every time from the clock on |
| `Schedule.LatestIs` | programs/onreapp/src/instructions/offer/offer_utils.rs:168-177 | with distinct starts the active lookup is unambiguous |
| `Schedule.LatestUpTo` | programs/onreapp/src/instructions/market_info/get_nav_adjustment.rs:77-87 | the vector found has the latest start within the limit; none only if none has started |
| `Schedule.FindNextVectorAfter` | programs/onreapp/src/instructions/market_info/get_nav.rs:148-155 | the vector found has the earliest start after the time; none only if none is later |
| `Schedule.FindVectorIndex` | programs/onreapp/src/instructions/offer/offer_utils.rs:308-313 | the first slot with that start, or none has it |
| `VectorStore.CleaningKeeps` | programs/onreapp/src/instructions/offer/add_offer_vector.rs:239-280 | cleaning invents nothing, keeps slots well formed and keeps every vector still to start |
| `VectorStore.CleanedExact` | programs/onreapp/src/instructions/offer/add_offer_vector.rs:239-280 | slot by slot: a vector is removed if and only if two later ones have started, counting the new one; every other slot is untouched |
| `VectorStore.CleaningShadows` | programs/onreapp/src/instructions/offer/add_offer_vector.rs:252-277 | whatever started vector is missing after cleaning, two later started ones remain |
| `Eviction.ValidationAgrees` | programs/onreapp/src/instructions/offer/add_offer_vector.rs:187-225 | validation against the slots equals validation against the unbounded log |
| `Eviction.AddStores` | programs/onreapp/src/instructions/offer/add_offer_vector.rs:116-154 | a successful add puts exactly the vector its arguments describe into the first slot empty after cleaning, and changes nothing else |
| `Eviction.AddRefines` | programs/onreapp/src/instructions/offer/add_offer_vector.rs:116-172 | a successful add keeps the slots a refinement of the log with the vector appended |
| `Eviction.DeleteExact` | programs/onreapp/src/instructions/offer/delete_offer_vector.rs:90-119 | a delete succeeds if and only if that start is stored and lies ahead; it empties that slot alone; and which error otherwise |
| `Eviction.DeleteRefines` | programs/onreapp/src/instructions/offer/delete_offer_vector.rs:90-119 | a successful delete keeps the slots a refinement of the log without that start |
| `Capacity.CleanedCounts` | programs/onreapp/src/instructions/offer/add_offer_vector.rs:239-280 | cleaning leaves min(2, p) of the p started vectors, or min(1, p) when the new one starts now, and every future one |
| `Capacity.CapacityLaw` | programs/onreapp/src/instructions/offer/add_offer_vector.rs:146-154 | with valid inputs an add fails for space if and only if it starts later than now and min(2, p) + f = 10 |
| `Capacity.AddSucceedsIff` | programs/onreapp/src/instructions/offer/add_offer_vector.rs:116-225 | the full success condition of an add, in terms of its arguments, the clock and the stored starts |
| `Capacity.AddFailsWith` | programs/onreapp/src/instructions/offer/add_offer_vector.rs:116-225 | which error an add that fails reports, in the same terms |
| `Capacity.FullMeansNothingEvicted` | programs/onreapp/src/instructions/offer/add_offer_vector.rs:146-151 | an add that fails for space has evicted nothing, even before rollback |
| `Capacity.AtMostTwoStarted` | programs/onreapp/src/instructions/offer/add_offer_vector.rs:227-280 | after every successful add at most two stored vectors have started |
| `Offers.Offer.constructor` | programs/onreapp/src/instructions/offer/make_offer.rs:129-163 | a new offer stores mints, fee and flags, has ten empty slots and is where every run begins |
| `Offers.Offer.MakeOffer` | programs/onreapp/src/instructions/offer/make_offer.rs:129-163 | an offer is made exactly for a fee of at most 10%, else `InvalidFee`; it is the new offer above |
| `Offers.Offer.UpdateOfferFee` | programs/onreapp/src/instructions/offer/update_offer_fee.rs:96-109 | the fee changes exactly when the new one is at most 100%; so no valid offer ever charges more, which is what the fee results assume |
| `Offers.Offer.CleanOldVectors` | programs/onreapp/src/instructions/offer/add_offer_vector.rs:239-280 | the in-place loop turns the slots into exactly `CleanedSlots` |
| `Offers.Offer.AddOfferVector` | programs/onreapp/src/instructions/offer/add_offer_vector.rs:116-172 | keeps the offer valid and is one step of the runs in `Runs`; on success the vector the arguments describe is logged, on failure nothing changes |
| `Offers.Offer.DeleteOfferVector` | programs/onreapp/src/instructions/offer/delete_offer_vector.rs:90-119 | keeps the offer valid and is one step of the runs in `Runs`; removes the start from slots and log, or changes nothing |
| `Offers.Offer.DeleteAllOfferVectors` | programs/onreapp/src/instructions/offer/delete_all_offer_vectors.rs:87-112 | every slot is empty afterwards, the count is the number of occupied slots before, and it is one step of the runs in `Runs` |
| `Nav.GetNavExact` | programs/onreapp/src/instructions/market_info/get_nav.rs:82-134 | when `get_nav` answers, if and only if, and the exact price and next change |
| `Nav.NavConstantUntilNextChange` | programs/onreapp/src/instructions/market_info/get_nav.rs:97-116 | at every time before the reported next change, active vector, price and next change are the same |
| `Nav.WhatHappensAtNextChange` | programs/onreapp/src/instructions/market_info/get_nav.rs:97-116 | the next change lies ahead; there another vector takes over or the same one enters its next step |
| `Nav.PriceAtStepBoundary` | programs/onreapp/src/instructions/offer/offer_utils.rs:271-294 | at a step boundary the price does not fall, and rises when base_price * apr * D >= 10^6 * 31536000 |
| `Nav.SignedDifferenceExact` | programs/onreapp/src/instructions/market_info/get_nav_adjustment.rs:137-142 | the cast difference is the true one if and only if it is below 2^63 in size |
| `Nav.GetNavAdjustmentExact` | programs/onreapp/src/instructions/market_info/get_nav_adjustment.rs:109-168 | when an adjustment is reported, if and only if, and what it is at any time: the exact price of the active vector at its own start less the previous vector's there and then, as far as 64 signed bits can tell |
| `Nav.AdjustmentConstantInWindow` | programs/onreapp/src/instructions/market_info/get_nav_adjustment.rs:109-135 | the adjustment does not change while the same vector is active |
| `Nav.AdjustmentIsJump` | programs/onreapp/src/instructions/market_info/get_nav_adjustment.rs:109-168 | at every time in a vector's window, where the adjustment is reported between prices below 2^63, it is the price at the vector's start less the previous vector's price then; the first is the full price |
| `Nav.AdjustmentsTelescope` | programs/onreapp/src/instructions/market_info/get_nav_adjustment.rs:109-148 | from any vector j on, as long as adjustments are reported between prices below 2^63: the price is the price just before j plus all adjustments since plus the growth inside the windows; behind a vector without adjustment the sum starts afresh |
| `Runs.RunConsistent` | programs/onreapp/src/instructions/offer/add_offer_vector.rs:116-280 | after every run of add, delete, delete-all and clock ticks the slots are well formed and refine a sorted log |
| `Runs.EvictionInvisible` | programs/onreapp/src/instructions/offer/add_offer_vector.rs:239-280 | after every run, at every time from the clock on, slots and log have the same active vector, NAV, next change and adjustment |
| `Runs.AddOutcomesAgree` | programs/onreapp/src/instructions/offer/add_offer_vector.rs:116-225 | an add not turned away for space succeeds on the slots exactly when on the log, with the same error otherwise |
| `Runs.DeleteOutcomesAgree` | programs/onreapp/src/instructions/offer/delete_offer_vector.rs:90-119 | a delete succeeds on the slots exactly when on the log, with the same error otherwise |
| `Runs.LiveNavTelescopes` | programs/onreapp/src/instructions/market_info/get_nav_adjustment.rs:109-148 | the live price telescopes over the schedule, evicted vectors included, from any vector j on whose adjustment and all later ones are reported between prices below 2^63 |
| `Runs.NavNeverAborts` | programs/onreapp/src/instructions/market_info/get_nav.rs:82-116 | in every reachable offer `get_nav` never divides by zero or overflows unchecked, and never answers zero |
| `Runs.AddOverridesTimeline` | programs/onreapp/src/instructions/offer/add_offer_vector.rs:116-172 | an add leaves [now, s) alone, and from s on the active vector is the one with exactly the given base time, price, rate and duration |
| `Runs.DeleteHandsOver` | programs/onreapp/src/instructions/offer/delete_offer_vector.rs:90-119 | a delete hands exactly the times s governed to the vector before it |
| `Runs.PricedFromBaseTimeOn` | programs/onreapp/src/instructions/offer/add_offer_vector.rs:124-144 | a vector whose explicit start precedes its base time is active without a price until the base time, and never has an adjustment |
| `Runs.ActiveWithoutPrice` | programs/onreapp/src/instructions/market_info/get_nav.rs:82-95 | a run after which an active vector has no price |
| `Settlement.FeesExact` | programs/onreapp/src/utils/token_utils.rs:181-200 | up to 100%, which no offer exceeds, the fee is the least amount not below the share, fee + net = amount, and the call never fails |
| `Settlement.FeesAboveHundredPercent` | programs/onreapp/src/utils/token_utils.rs:181-200 | above 100% the call goes through for amount 0, and else if and only if the narrowing cast has cut the fee down to the amount; it then charges less than the share |
| `Settlement.NetIsFloor` | programs/onreapp/src/utils/token_utils.rs:181-200 | the net is the remaining share rounded down |
| `Settlement.PayoutExact` | programs/onreapp/src/utils/token_utils.rs:81-122 | the payout is the unique floor, and exactly when the call fails; the denominator always fits |
| `Settlement.PayoutFailsWith` | programs/onreapp/src/utils/token_utils.rs:81-122 | which error a payout that fails reports; neither scale nor denominator is ever the reason |
| `Settlement.NumeratorDomain` | programs/onreapp/src/utils/token_utils.rs:103-106 | up to 10 output decimals the numerator fits 128 bits for every amount; at 11 the largest amount does not |
| `Settlement.BuyExact` | programs/onreapp/src/instructions/offer/offer_utils.rs:109-153 | when a purchase succeeds, if and only if; its fee is the least not below the share of its basis points, and its payout the floor for the rest |
| `Settlement.OnlyPurchase` | programs/onreapp/src/instructions/offer/offer_utils.rs:109-153 | any net, fee and payout that meet those bounds are the ones the program computes |
| `Settlement.BuySuperadditive` | programs/onreapp/src/instructions/offer/offer_utils.rs:137-152 | two parts of a purchase succeed with the whole, get no more, and net at most one less |
| `Settlement.SplittingNeverPays` | programs/onreapp/src/instructions/offer/offer_utils.rs:109-153 | for any list of amounts: if the whole purchase succeeds so does every piece, together they get no more, and the nets fall short by at most n - 1 |
| `Settlement.RedeemExact` | programs/onreapp/src/instructions/redemption/redemption_utils.rs:59-111 | when a redemption succeeds, if and only if; its fee is the least not below the share of its basis points, and its payout the floor for the rest |
| `Settlement.RedeemFailsWith` | programs/onreapp/src/instructions/redemption/redemption_utils.rs:59-111 | a redemption that fails overflows, or aborts exactly where a power of ten leaves 128 bits |
| `Settlement.OnlyRedemption` | programs/onreapp/src/instructions/redemption/redemption_utils.rs:59-111 | any net, fee and payout that meet those bounds are the ones the program computes |
| `Settlement.RedeemSuperadditive` | programs/onreapp/src/instructions/redemption/redemption_utils.rs:59-111 | two parts of a redemption succeed with the whole, get no more, and net at most one less |
| `Settlement.SplittingRedemptionNeverPays` | programs/onreapp/src/instructions/redemption/redemption_utils.rs:59-111 | the same for any list of redemptions |
| `Settlement.NoRunGains` | programs/onreapp/src/instructions/redemption/redemption_utils.rs:59-111 | no run of purchases and redemptions at one price leaves a holder with more than it began with |
| `Settlement.NoRunBeatsTheMarket` | programs/onreapp/src/instructions/redemption/redemption_utils.rs:59-111 | over any run in which no price falls, exact wealth at the last price is to wealth at the first at most as the two prices are |
| `Settlement.PaymentBoundedByMarket` | programs/onreapp/src/instructions/redemption/redemption_utils.rs:59-111 | so a holder who starts with payment token only ends with at most last price / first price times that |
| `Settlement.RoundTripGain` | programs/onreapp/src/instructions/redemption/redemption_utils.rs:59-111 | buying at p1 and redeeming at p2 returns at most amount * p2 / p1 |
| `Ledger.TransferEffect` | programs/onreapp/src/utils/token_utils.rs:36-60 | a transfer moves the amount and nothing else, also onto itself, and conserves |
| `Ledger.BurnEffect` | programs/onreapp/src/utils/token_utils.rs:269-287 | a burn lowers one balance and the supply by the amount and conserves |
| `Ledger.MintEffect` | programs/onreapp/src/utils/token_utils.rs:225-258 | a mint raises one balance and the supply, respects a cap and conserves |
| `Ledger.ExecuteEffect` | programs/onreapp/src/utils/token_utils.rs:371-467 | the exact change of every balance and supply in all four routings and under any aliasing; conservation; the cap |
| `Ledger.ExecuteSucceedsIff` | programs/onreapp/src/utils/token_utils.rs:371-467 | a trade goes through if and only if no mint takes a transfer fee, the payer covers net + fee and the payout is covered, also when the mints or accounts coincide |
| `Ledger.ExecuteRefusals` | programs/onreapp/src/utils/token_utils.rs:371-467 | exactly when a trade is refused for transfer fees, and exactly when for the cap: measured on the supply before anything is burned |
| `Ledger.RedemptionSucceedsIff` | programs/onreapp/src/instructions/redemption/redemption_utils.rs:183-274 | a redemption of mints without transfer fee goes through if and only if the vault holds net + fee and the payout is covered, also when the mints or accounts coincide |
| `Ledger.MintToSucceedsIff` | programs/onreapp/src/instructions/mint_authority/mint_to.rs:116-141 | a direct mint goes through if and only if the program holds the authority and the new supply fits cap and word |
| `Ledger.MintToEffect` | programs/onreapp/src/instructions/mint_authority/mint_to.rs:116-141 | the boss's balance and the supply rise by exactly the amount, within the cap, and nothing else changes; conservation |
| `Ledger.RoutingIndependent` | programs/onreapp/src/utils/token_utils.rs:382-464 | on every route the payer loses net + fee, the burn vault keeps its balance, the receiver gains the payout, nobody else moves |
| `Ledger.ExecuteRedemptionEffect` | programs/onreapp/src/instructions/redemption/redemption_utils.rs:183-274 | the exact change of every balance and supply by a redemption of mints without transfer fee; conservation |
| `Ledger.RunConserves` | programs/onreapp/src/utils/token_utils.rs:371-467 | where no mint takes a transfer fee, after any run of trades, redemptions, mints, transfers, new accounts and authority changes every supply is the sum of its balances |
| `Ledger.CapHolds` | programs/onreapp/src/instructions/mint_authority/mint_to.rs:116-141 | over any run whose trades and direct mints pass the cap, the supply stays within max(initial, cap) at every point if and only if every redemption fits in the room left when it comes; always, if none pays out that mint |
| `Ledger.RedemptionExceedsCapIff` | programs/onreapp/src/instructions/redemption/fulfill_redemption_request.rs:258-275 | exactly when a redemption takes a supply over a cap it respected |
| `Ledger.RedemptionExceedsCap` | programs/onreapp/src/instructions/state_operations/configure_max_supply.rs:38-61 | a redemption that takes a supply of 10 under a cap of 10 above it |
| `Ledger.CirculatingSupplyExact` | programs/onreapp/src/instructions/market_info/get_circulating_supply.rs:91-103 | where no mint takes a transfer fee, after any run the unchecked subtraction cannot underflow and yields the sum of all balances outside the vault |
| `Ledger.TvlExact` | programs/onreapp/src/instructions/market_info/get_tvl.rs:145-163 | TVL is the floor of supply times price over 10^9 and fails only beyond 64 bits |
| `TokenLedgers.TokenLedger.TransferTokens` | programs/onreapp/src/utils/token_utils.rs:36-60 | the two balance updates amount to `Transfer`, or nothing |
| `TokenLedgers.TokenLedger.BurnTokens` | programs/onreapp/src/utils/token_utils.rs:269-287 | the balance and supply updates amount to `Burn`, or nothing |
| `TokenLedgers.TokenLedger.MintTokensTo` | programs/onreapp/src/utils/token_utils.rs:225-258 | cap check and updates amount to `MintTokens`, or nothing |
| `TokenLedgers.TokenLedger.ExecuteTokenOperations` | programs/onreapp/src/utils/token_utils.rs:371-467 | the calls in order, with rollback, amount to `Execute`, or nothing |
| `TokenLedgers.TokenLedger.ExecuteRedemptionOperations` | programs/onreapp/src/instructions/redemption/redemption_utils.rs:183-274 | the calls in order, with rollback, amount to `ExecuteRedemption`, or nothing |
| `TokenLedgers.TokenLedger.MintToBoss` | programs/onreapp/src/instructions/mint_authority/mint_to.rs:116-141 | amounts to `MintTo`, or nothing |
| `Instructions.GetApyExact` | programs/onreapp/src/instructions/market_info/get_apy.rs:131-157 | the yield query ignores eviction, answers exactly for rates in the domain, with the daily-compounded yield to half a unit and never below the rate; and which error otherwise |
| `Instructions.CurrentPriceExact` | programs/onreapp/src/instructions/offer/offer_utils.rs:129-135 | every instruction trades at the exact price, at this very time, of the vector that started last, and fails exactly when that is undefined |
| `Instructions.TradesAtNav` | programs/onreapp/src/instructions/market_info/get_nav.rs:82-95 | it is the price that `get_nav` shows |
| `Instructions.TvlOfExact` | programs/onreapp/src/instructions/market_info/get_tvl.rs:125-163 | TVL is the floor of circulating supply times that price over 10^9, and exists if and only if the price does and the floor fits |
| `Instructions.TakeOfferIgnoresEviction` | programs/onreapp/src/instructions/offer/take_offer.rs:245-297 | a trade against the slots is the trade against the log that never evicts |
| `Instructions.PriceNeverZero` | programs/onreapp/src/utils/token_utils.rs:87-88 | no reachable offer is refused for a zero price |
| `Instructions.TakeOfferExact` | programs/onreapp/src/instructions/offer/take_offer.rs:245-297 | the payer loses exactly the amount offered, the offer's fee included, the receiver gets the exact floor at the exact current price, everything else is as `SettlementEffect` lists |
| `Instructions.TakeOfferSucceedsIff` | programs/onreapp/src/instructions/offer/take_offer.rs:245-297 | a trade goes through if and only if there is a price, the arithmetic stays within its limits and the ledger covers it |
| `Instructions.FulfillRedemptionIgnoresEviction` | programs/onreapp/src/instructions/redemption/fulfill_redemption_request.rs:237-275 | a redemption against the slots is the redemption against the log that never evicts |
| `Instructions.FulfillRedemptionExact` | programs/onreapp/src/instructions/redemption/fulfill_redemption_request.rs:237-275 | for mints without transfer fee the vault loses exactly the requested amount, the fee included, the receiver gets the exact floor at the exact current price, everything else is as `SettlementEffect` lists |
| `Instructions.FulfillRedemptionSucceedsIff` | programs/onreapp/src/instructions/redemption/fulfill_redemption_request.rs:237-275 | a redemption goes through if and only if there is a price, the arithmetic stays within its limits and the ledger covers it |
| `Instructions.TradeIsHolderStep` | programs/onreapp/src/instructions/offer/take_offer.rs:245-297 | on the ledger, a trade is the purchase step that `NoRunGains` and `NoRunBeatsTheMarket` reason about |
| `Instructions.RedemptionIsHolderStep` | programs/onreapp/src/instructions/redemption/fulfill_redemption_request.rs:237-275 | on the ledger, locking an amount and having it redeemed is the redemption step they reason about |
| `Instructions.NoRunBeatsTheVector` | programs/onreapp/src/instructions/offer/offer_utils.rs:271-294 | while one vector prices a run of purchases and redemptions, a holder gains at most the growth of that vector, bounded by linear growth one step past the last trade |
| `Instructions.IntermediaryIsTransparent` | programs/onreapp/src/instructions/offer/take_offer_permissionless.rs:311-357 | the intermediary ends with what it had; the effect is a direct trade of the user's own accounts |
| `Instructions.RoutesAgree` | programs/onreapp/src/instructions/offer/take_offer_permissionless.rs:259-357 | the permissionless route succeeds exactly when the offer allows it and the direct one would succeed, and then ends in the same ledger; without leave it is refused |
| `Decimal.U64ToDec9` | programs/onreapp/src/utils/token_utils.rs:139-152 | the popping loop computes `Dec9` |
| `Decimal.TrimKeepsValue` | programs/onreapp/src/utils/token_utils.rs:147-149 | dropping trailing zeros keeps the value and stops before the fraction is empty |
| `Decimal.PrintsExactly` | programs/onreapp/src/utils/token_utils.rs:124-152 | the string reads back as exactly n / 10^9, has a point exactly when there is a fraction, no trailing zero in the fraction and no leading zero but that of a zero integer part |
| `Decimal.PrintsInjectively` | programs/onreapp/src/utils/token_utils.rs:139-152 | different amounts never print alike |

## Left out

- Signers, owners, PDA derivation, bumps, rent, events, logs and the kill switch, which stops both routes of a trade alike; the only authority modelled is whether the program holds a mint's authority.
- The parsing behind `has_transfer_fee`: a mint carries a flag, on which trades fail.
- RedemptionSucceedsIff: is stated, like `ExecuteRedemptionEffect`, `RunConserves`, `CirculatingSupplyExact`, `FulfillRedemptionExact`, `FulfillRedemptionSucceedsIff` and `RedemptionIsHolderStep`, for mints without transfer fee, because what the token program withholds from a transfer of other mints is not part of this model.
- Approval messages and `ed25519_parser.rs`: straight-line byte slicing. An offer that needs approval asks for it on both routes of a trade.
- The bookkeeping of redemption requests (`requested_redemptions`, `executed_redemptions`, request ids); locking and returning tokens are plain `Move` steps.
- Minting by a boss that holds a mint's authority itself happens outside the program and is no step of a run.
- Whole trades and redemptions in `Instructions.dfy` are functions on values; their updates in place are those of the `TokenLedger` methods.
- `mint_to` on a mint without any authority aborts in an account constraint; the model reports `NoMintAuthority`.
- Setters of the redemption fee and the admin lists: single assignments.
- Everything under `scripts/` and the generated types.
