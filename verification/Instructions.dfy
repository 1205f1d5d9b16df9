/** Whole instructions: price, fees, payout and settlement together. */
module Instructions {
  import opened Machine
  import opened FixedPoint
  import opened Pricing
  import opened Schedule
  import opened Settlement
  import opened Ledger
  import opened Nav
  import opened Runs
  import Apy

  /** The accounts and settings of one trade; `ops` supplies the mints and accounts, its
      amounts are overwritten. */
  datatype Terms = Terms(ops: TokenOps, basisPoints: u16, inDecimals: u8, outDecimals: u8)

  /** The current price as `process_offer_core` and `process_redemption_core` compute it. */
  function CurrentPrice(vs: seq<OfferVector>, now: u64): Result<u64> {
    var v :- FindActiveVectorAt(vs, now);
    CalculateStepPriceAt(v, now)
  }

  function Filled(ops: TokenOps, t: Trade): TokenOps {
    ops.(net := t.net, fee := t.fee, out := t.out)
  }

  /** `take_offer` */
  function TakeOffer(vs: seq<OfferVector>, now: u64, s: State, terms: Terms, amount: u64): Result<State> {
    var price :- CurrentPrice(vs, now);
    var trade :- Buy(amount, terms.basisPoints, price, terms.inDecimals, terms.outDecimals);
    Execute(s, Filled(terms.ops, trade))
  }

  /** The accounts that `take_offer_permissionless` adds: the user's own, around the intermediary's. */
  datatype Route = Route(userIn: Id, userOut: Id)

  /** `execute_token_operations` through an intermediary, which pays and receives for the user. */
  function ExecuteThrough(s: State, p: TokenOps, route: Route, amount: u64): Result<State> {
    var s1 :- Transfer(s, p.inMint, route.userIn, p.payer, amount);
    var s2 :- Execute(s1, p);
    Transfer(s2, p.outMint, p.receiver, route.userOut, p.out)
  }

  /** `take_offer_permissionless`, which the offer must allow. */
  function TakeOfferPermissionless(vs: seq<OfferVector>, permissionless: bool, now: u64,
                                   s: State, terms: Terms, route: Route, amount: u64): Result<State>
  {
    if !permissionless then
      Err(PermissionlessNotAllowed)
    else
      var price :- CurrentPrice(vs, now);
      var trade :- Buy(amount, terms.basisPoints, price, terms.inDecimals, terms.outDecimals);
      ExecuteThrough(s, Filled(terms.ops, trade), route, amount)
  }

  /** `fulfill_redemption_request`: the price of the offer behind it, the payout, the settlement. */
  function FulfillRedemption(vs: seq<OfferVector>, now: u64, s: State, terms: Terms, amount: u64): Result<State> {
    var price :- CurrentPrice(vs, now);
    var trade :- Redeem(amount, terms.basisPoints, price, terms.inDecimals, terms.outDecimals);
    ExecuteRedemption(s, Filled(terms.ops, trade))
  }

  /** `get_apy` */
  function GetApy(vs: seq<OfferVector>, now: u64): Result<u64> {
    var v :- FindActiveVectorAt(vs, now);
    Apy.Apy(v.apr)
  }

  lemma ApyAnswered(vs: seq<OfferVector>, now: u64, den: nat, n: nat)
    requires den == 365_000_000 && n == 365
    ensures GetApy(vs, now).Ok? <==>
              FindActiveVectorAt(vs, now).Ok? && FindActiveVectorAt(vs, now).value.apr <= Apy.MAX_APR
    ensures GetApy(vs, now).Ok? ==>
              var apr, apy := FindActiveVectorAt(vs, now).value.apr, GetApy(vs, now).value;
              apr <= apy && Apy.NearYield(apy, Pow(den, n), Pow(den + apr, n))
    ensures GetApy(vs, now).Err? ==>
              GetApy(vs, now) == Err(if FindActiveVectorAt(vs, now).Err? then NoActiveVector else Overflow)
  {
    var active := FindActiveVectorAt(vs, now);
    if active.Ok? {
      Apy.ApyDomain(active.value.apr);
      Apy.ApyNotBelowApr(active.value.apr);
      Apy.ApyAccuracy(active.value.apr, den, n);
    }
  }

  /** In every reachable world the yield query answers as the log would, exactly when a vector
      is active with a rate up to 587.6581%. The answer is that rate compounded daily for a
      year, (1 + apr / 365)^365 - 1 at scale 10^6, to the accuracy of `Apy.ApyAccuracy`, and
      never below the rate. */
  lemma GetApyExact(w: World, now: u64, den: nat, n: nat)
    requires Consistent(w) && w.now <= now && den == 365_000_000 && n == 365
    ensures GetApy(w.slots, now) == GetApy(w.log, now)
    ensures GetApy(w.slots, now).Ok? <==>
              FindActiveVectorAt(w.log, now).Ok? && FindActiveVectorAt(w.log, now).value.apr <= Apy.MAX_APR
    ensures GetApy(w.slots, now).Ok? ==>
              var apr, apy := FindActiveVectorAt(w.log, now).value.apr, GetApy(w.slots, now).value;
              apr <= apy && Apy.NearYield(apy, Pow(den, n), Pow(den + apr, n))
    ensures GetApy(w.slots, now).Err? ==>
              GetApy(w.slots, now) == Err(if FindActiveVectorAt(w.log, now).Err? then NoActiveVector else Overflow)
  {
    assert FindActiveVectorAt(w.slots, now) == FindActiveVectorAt(w.log, now) by {
      QueriesAgree(w, now);
    }
    ApyAnswered(w.log, now, den, n);
  }

  // ---------------------------------------------------------------- the current price

  /** The price every instruction trades at: that of the vector that started last, at this
      very time, and defined exactly when it is. */
  lemma CurrentPriceExact(vs: seq<OfferVector>, now: u64)
    ensures CurrentPrice(vs, now).Ok? <==>
              LatestUpTo(vs, now).Some? && PriceDefined(LatestUpTo(vs, now).value, now)
    ensures CurrentPrice(vs, now).Ok? ==>
              var v := LatestUpTo(vs, now).value;
              CurrentPrice(vs, now).value == LinearPrice(v, StepEnd(v, now))
    ensures WellFormed(vs) ==>
              (CurrentPrice(vs, now) == Err(NoActiveVector) <==>
                 LatestUpTo(vs, now).None? || now < LatestUpTo(vs, now).value.baseTime)
  {
    if LatestUpTo(vs, now).Some? {
      assert WellFormed(vs) ==> SlotOk(LatestUpTo(vs, now).value);
      StepPriceExact(LatestUpTo(vs, now).value, now);
    }
  }

  /** It is the price that `get_nav` shows. */
  lemma TradesAtNav(vs: seq<OfferVector>, now: u64)
    ensures GetNav(vs, now).Ok? ==> CurrentPrice(vs, now) == Ok(GetNav(vs, now).value.price)
  {
    NavPrice(vs, now);
  }

  /** A vector has started and `price` is the exact price of the last one that has. */
  ghost predicate IsPrice(vs: seq<OfferVector>, now: u64, price: nat) {
    && LatestUpTo(vs, now).Some?
    && var v := LatestUpTo(vs, now).value;
    PriceDefined(v, now) && price == LinearPrice(v, StepEnd(v, now))
  }

  /** `get_tvl` */
  function GetTvlOf(vs: seq<OfferVector>, now: u64, s: State, mint: Id, vault: Option<Id>): Result<u64>
    requires mint < |s.mints|
  {
    var price :- CurrentPrice(vs, now);
    GetTvl(s, mint, vault, price)
  }

  /** TVL is the floor of circulating supply times the current price over 10^9, and exists
      exactly when there is a price and that floor fits 64 bits. */
  lemma TvlOfExact(vs: seq<OfferVector>, now: u64, s: State, mint: Id, vault: Option<Id>, tvl: u64)
    requires mint < |s.mints| && GetCirculatingSupply(s, mint, vault).Ok?
    ensures GetTvlOf(vs, now, s, mint, vault) == Ok(tvl) <==>
              exists price: u64 ::
                && IsPrice(vs, now, price)
                && tvl * 1_000_000_000 <= GetCirculatingSupply(s, mint, vault).value * price
                   < (tvl + 1) * 1_000_000_000
  {
    CurrentPriceExact(vs, now);
    if CurrentPrice(vs, now).Ok? {
      var price := CurrentPrice(vs, now).value;
      assert IsPrice(vs, now, price);
      TvlExact(s, mint, vault, price);
    }
  }

  // ---------------------------------------------------------------- taking an offer

  /** In every reachable world a trade settles as it would against the log that never evicts. */
  lemma TakeOfferIgnoresEviction(w: World, now: u64, s: State, terms: Terms, amount: u64)
    requires Consistent(w) && w.now <= now
    ensures CurrentPrice(w.slots, now) == CurrentPrice(w.log, now)
    ensures TakeOffer(w.slots, now, s, terms, amount) == TakeOffer(w.log, now, s, terms, amount)
  {
    QueriesAgree(w, now);
  }

  /** No reachable offer is refused for a zero price. */
  lemma PriceNeverZero(w: World, now: u64, amount: u64, basisPoints: u16, inDecimals: u8, outDecimals: u8)
    requires Consistent(w)
    ensures CurrentPrice(w.slots, now).Ok? ==>
              && CurrentPrice(w.slots, now).value > 0
              && Buy(amount, basisPoints, CurrentPrice(w.slots, now).value, inDecimals, outDecimals)
                 != Err(ZeroPriceNotAllowed)
  {
    if CurrentPrice(w.slots, now).Ok? {
      var v := LatestUpTo(w.slots, now).value;
      assert SlotOk(v);
      StepPriceExact(v, now);
      LinearPriceMonotone(v, StepEnd(v, now), StepEnd(v, now));
    }
  }

  /** `trade` is what `amount` buys at the current price. */
  ghost predicate IsTrade(vs: seq<OfferVector>, now: u64, terms: Terms, amount: u64, price: u64, trade: Trade) {
    && IsPrice(vs, now, price)
    && IsPurchase(trade, amount, terms.basisPoints, price, terms.inDecimals, terms.outDecimals)
    && PurchaseWithin(trade, terms.inDecimals, terms.outDecimals)
  }

  /** Price and trade are settled by arithmetic alone. */
  lemma TradeIs(vs: seq<OfferVector>, now: u64, s: State, terms: Terms, amount: u64, price: u64, trade: Trade)
    requires terms.basisPoints <= MAX_BASIS_POINTS && IsTrade(vs, now, terms, amount, price, trade)
    ensures TakeOffer(vs, now, s, terms, amount)
         == Execute(s, terms.ops.(net := trade.net, fee := trade.fee, out := trade.out))
  {
    CurrentPriceExact(vs, now);
    OnlyPurchase(trade, amount, terms.basisPoints, price, terms.inDecimals, terms.outDecimals);
  }

  /** The current price and the trade an instruction has made. */
  lemma TradeMade(vs: seq<OfferVector>, now: u64, s: State, terms: Terms, amount: u64)
    returns (price: u64, trade: Trade)
    requires terms.basisPoints <= MAX_BASIS_POINTS && TakeOffer(vs, now, s, terms, amount).Ok?
    ensures IsTrade(vs, now, terms, amount, price, trade)
  {
    price := CurrentPrice(vs, now).value;
    trade := Buy(amount, terms.basisPoints, price, terms.inDecimals, terms.outDecimals).value;
    CurrentPriceExact(vs, now);
    BuyExact(amount, terms.basisPoints, price, terms.inDecimals, terms.outDecimals);
  }

  /** A trade that goes through costs the payer exactly the amount it offered, the offer's fee
      included, and pays the receiver exactly the floor of net times the price scale at the
      current price; nothing else moves but what `SettlementEffect` lists. */
  lemma TakeOfferExact(vs: seq<OfferVector>, now: u64, s: State, terms: Terms, amount: u64)
    requires terms.basisPoints <= MAX_BASIS_POINTS
    ensures var t := TakeOffer(vs, now, s, terms, amount);
            t.Ok? ==>
              exists price, trade ::
                && IsTrade(vs, now, terms, amount, price, trade)
                && SettlementEffect(s, terms.ops.(net := trade.net, fee := trade.fee, out := trade.out),
                                    terms.ops.payer, t.value)
                && (Conserved(s) ==> Conserved(t.value))
  {
    if TakeOffer(vs, now, s, terms, amount).Ok? {
      var price, trade := TradeMade(vs, now, s, terms, amount);
      TradeIs(vs, now, s, terms, amount, price, trade);
      ExecuteEffect(s, terms.ops.(net := trade.net, fee := trade.fee, out := trade.out));
    }
  }

  /** And it goes through exactly when there is a price, the trade stays within the limits of
      the arithmetic, and the ledger covers it. */
  lemma TakeOfferSucceedsIff(vs: seq<OfferVector>, now: u64, s: State, terms: Terms, amount: u64)
    requires terms.basisPoints <= MAX_BASIS_POINTS && Conserved(s)
    requires Holds(s, terms.ops.payer, terms.ops.inMint) && Holds(s, terms.ops.boss, terms.ops.inMint)
    requires Holds(s, terms.ops.burnVault, terms.ops.inMint)
    requires Holds(s, terms.ops.outVault, terms.ops.outMint) && Holds(s, terms.ops.receiver, terms.ops.outMint)
    ensures TakeOffer(vs, now, s, terms, amount).Ok? <==>
              exists price, trade ::
                && IsTrade(vs, now, terms, amount, price, trade)
                && TradeCovered(s, terms.ops.(net := trade.net, fee := trade.fee, out := trade.out))
  {
    forall price, trade | IsTrade(vs, now, terms, amount, price, trade)
      ensures TakeOffer(vs, now, s, terms, amount).Ok?
         <==> TradeCovered(s, terms.ops.(net := trade.net, fee := trade.fee, out := trade.out))
    {
      TradeIs(vs, now, s, terms, amount, price, trade);
      ExecuteSucceedsIff(s, terms.ops.(net := trade.net, fee := trade.fee, out := trade.out));
    }
    if TakeOffer(vs, now, s, terms, amount).Ok? {
      var price, trade := TradeMade(vs, now, s, terms, amount);
    }
  }

  // ---------------------------------------------------------------- fulfilling a redemption

  lemma FulfillRedemptionIgnoresEviction(w: World, now: u64, s: State, terms: Terms, amount: u64)
    requires Consistent(w) && w.now <= now
    ensures FulfillRedemption(w.slots, now, s, terms, amount) == FulfillRedemption(w.log, now, s, terms, amount)
  {
    QueriesAgree(w, now);
  }

  /** `trade` is what a redemption of `amount` pays at the current price. */
  ghost predicate IsPayback(vs: seq<OfferVector>, now: u64, terms: Terms, amount: u64, price: u64, trade: Trade) {
    && IsPrice(vs, now, price)
    && IsRedemption(trade, amount, terms.basisPoints, price, terms.inDecimals, terms.outDecimals)
    && RedemptionWithin(trade, price, terms.inDecimals, terms.outDecimals)
  }

  lemma PaybackIs(vs: seq<OfferVector>, now: u64, s: State, terms: Terms, amount: u64, price: u64, trade: Trade)
    requires terms.basisPoints <= MAX_BASIS_POINTS && IsPayback(vs, now, terms, amount, price, trade)
    ensures FulfillRedemption(vs, now, s, terms, amount)
         == ExecuteRedemption(s, terms.ops.(net := trade.net, fee := trade.fee, out := trade.out))
  {
    CurrentPriceExact(vs, now);
    OnlyRedemption(trade, amount, terms.basisPoints, price, terms.inDecimals, terms.outDecimals);
  }

  lemma PaybackMade(vs: seq<OfferVector>, now: u64, s: State, terms: Terms, amount: u64)
    returns (price: u64, trade: Trade)
    requires terms.basisPoints <= MAX_BASIS_POINTS && FulfillRedemption(vs, now, s, terms, amount).Ok?
    ensures IsPayback(vs, now, terms, amount, price, trade)
  {
    price := CurrentPrice(vs, now).value;
    trade := Redeem(amount, terms.basisPoints, price, terms.inDecimals, terms.outDecimals).value;
    CurrentPriceExact(vs, now);
    RedeemExact(amount, terms.basisPoints, price, terms.inDecimals, terms.outDecimals);
  }

  /** A redemption that goes through takes exactly the requested amount out of the vault, the fee
      included, and pays the redeemer exactly the floor of net times the current price; nothing
      else moves but what `SettlementEffect` lists. */
  lemma FulfillRedemptionExact(vs: seq<OfferVector>, now: u64, s: State, terms: Terms, amount: u64)
    requires terms.basisPoints <= MAX_BASIS_POINTS && FeeFree(s, terms.ops.inMint) && FeeFree(s, terms.ops.outMint)
    ensures var t := FulfillRedemption(vs, now, s, terms, amount);
            t.Ok? ==>
              exists price, trade ::
                && IsPayback(vs, now, terms, amount, price, trade)
                && SettlementEffect(s, terms.ops.(net := trade.net, fee := trade.fee, out := trade.out),
                                    terms.ops.burnVault, t.value)
                && (Conserved(s) ==> Conserved(t.value))
  {
    if FulfillRedemption(vs, now, s, terms, amount).Ok? {
      var price, trade := PaybackMade(vs, now, s, terms, amount);
      PaybackIs(vs, now, s, terms, amount, price, trade);
      ExecuteRedemptionEffect(s, terms.ops.(net := trade.net, fee := trade.fee, out := trade.out));
    }
  }

  /** And it goes through exactly when there is a price, the payout stays within the limits of
      the arithmetic, and the ledger covers it. */
  lemma FulfillRedemptionSucceedsIff(vs: seq<OfferVector>, now: u64, s: State, terms: Terms, amount: u64)
    requires terms.basisPoints <= MAX_BASIS_POINTS && Conserved(s)
    requires FeeFree(s, terms.ops.inMint) && FeeFree(s, terms.ops.outMint)
    requires Holds(s, terms.ops.boss, terms.ops.inMint) && Holds(s, terms.ops.burnVault, terms.ops.inMint)
    requires Holds(s, terms.ops.outVault, terms.ops.outMint) && Holds(s, terms.ops.receiver, terms.ops.outMint)
    ensures FulfillRedemption(vs, now, s, terms, amount).Ok? <==>
              exists price, trade ::
                && IsPayback(vs, now, terms, amount, price, trade)
                && RedemptionCovered(s, terms.ops.(net := trade.net, fee := trade.fee, out := trade.out))
  {
    forall price, trade | IsPayback(vs, now, terms, amount, price, trade)
      ensures FulfillRedemption(vs, now, s, terms, amount).Ok?
         <==> RedemptionCovered(s, terms.ops.(net := trade.net, fee := trade.fee, out := trade.out))
    {
      PaybackIs(vs, now, s, terms, amount, price, trade);
      RedemptionSucceedsIff(s, terms.ops.(net := trade.net, fee := trade.fee, out := trade.out));
    }
    if FulfillRedemption(vs, now, s, terms, amount).Ok? {
      var price, trade := PaybackMade(vs, now, s, terms, amount);
    }
  }

  // ---------------------------------------------------------------- what a holder sees

  /** The balances of one holder's two accounts. */
  function HolderAt(s: State, payment: Id, issued: Id): Holder
    requires payment < |s.accounts| && issued < |s.accounts|
  {
    Holder(s.accounts[payment].amount, s.accounts[issued].amount)
  }

  /** For accounts of its own, a trade that settles is one purchase step of its holder. */
  lemma TradeIsHolderStep(vs: seq<OfferVector>, now: u64, s: State, terms: Terms, amount: u64, t: State)
    requires terms.basisPoints <= MAX_BASIS_POINTS && TakeOffer(vs, now, s, terms, amount) == Ok(t)
    requires terms.ops.payer !in {terms.ops.boss, terms.ops.outVault, terms.ops.receiver}
    requires terms.ops.receiver !in {terms.ops.boss, terms.ops.outVault}
    ensures terms.ops.payer < |s.accounts| == |t.accounts| && terms.ops.receiver < |s.accounts|
    ensures amount <= s.accounts[terms.ops.payer].amount
    ensures exists price: u64 ::
              && IsPrice(vs, now, price)
              && HolderAt(t, terms.ops.payer, terms.ops.receiver)
                 == HolderStep(HolderAt(s, terms.ops.payer, terms.ops.receiver), BuyOp(amount, terms.basisPoints),
                               price, terms.inDecimals, terms.outDecimals)
  {
    var price, trade := TradeMade(vs, now, s, terms, amount);
    var p := terms.ops.(net := trade.net, fee := trade.fee, out := trade.out);
    TradeIs(vs, now, s, terms, amount, price, trade);
    OnlyPurchase(trade, amount, terms.basisPoints, price, terms.inDecimals, terms.outDecimals);
    assert Holds(s, p.payer, p.inMint) && Holds(s, p.receiver, p.outMint) && SettlementEffect(s, p, p.payer, t) by {
      ExecuteEffect(s, p);
      ReceiverHoldsPayout(s, p, t);
    }
  }

  /** Likewise locking an amount in the redemption vault and having the request fulfilled is one
      redemption step. */
  lemma RedemptionIsHolderStep(vs: seq<OfferVector>, now: u64, s: State, terms: Terms, wallet: Id, amount: u64,
                               s1: State, t: State)
    requires terms.basisPoints <= MAX_BASIS_POINTS && FeeFree(s1, terms.ops.inMint) && FeeFree(s1, terms.ops.outMint)
    requires Transfer(s, terms.ops.inMint, wallet, terms.ops.burnVault, amount) == Ok(s1)
    requires FulfillRedemption(vs, now, s1, terms, amount) == Ok(t)
    requires wallet !in {terms.ops.boss, terms.ops.burnVault, terms.ops.outVault, terms.ops.receiver}
    requires terms.ops.receiver !in {terms.ops.boss, terms.ops.burnVault, terms.ops.outVault}
    requires terms.ops.receiver < |s.accounts|
    ensures wallet < |s.accounts| == |t.accounts|
    ensures amount <= s.accounts[wallet].amount
    ensures exists price: u64 ::
              && IsPrice(vs, now, price)
              && HolderAt(t, terms.ops.receiver, wallet)
                 == HolderStep(HolderAt(s, terms.ops.receiver, wallet), RedeemOp(amount, terms.basisPoints),
                               price, terms.outDecimals, terms.inDecimals)
  {
    var price, trade := PaybackMade(vs, now, s1, terms, amount);
    var p := terms.ops.(net := trade.net, fee := trade.fee, out := trade.out);
    PaybackIs(vs, now, s1, terms, amount, price, trade);
    OnlyRedemption(trade, amount, terms.basisPoints, price, terms.inDecimals, terms.outDecimals);
    TransferEffect(s, p.inMint, wallet, p.burnVault, amount);
    ExecuteRedemptionEffect(s1, p);
  }

  // ---------------------------------------------------------------- trading against a live vector

  /** The operations happen at these times, in order, at the prices of one vector. */
  ghost predicate QuotedBy(v: OfferVector, ops: seq<Quoted>, times: seq<u64>) {
    && |times| == |ops|
    && (forall i, j :: 0 <= i <= j < |times| ==> times[i] <= times[j])
    && (forall i :: 0 <= i < |ops| ==>
          ops[i].op.fee <= MAX_BASIS_POINTS && CalculateStepPriceAt(v, times[i]) == Ok(ops[i].price))
  }

  /** As long as one vector prices a run of purchases and redemptions, a holder who starts with
      payment token only cannot end with more than the vector's own growth pays: from the price
      of the first trade to linear growth one step past the last. */
  lemma NoRunBeatsTheVector(v: OfferVector, h: Holder, ops: seq<Quoted>, times: seq<u64>, pd: u8, id: u8)
    requires ops != [] && QuotedBy(v, ops, times) && h.issued == 0
    ensures v.baseTime <= times[0] && v.baseTime <= times[|ops| - 1]
    ensures var end := MarketRun(h, ops, pd, id).payment;
            && end * ops[0].price <= h.payment * ops[|ops| - 1].price
            && ops[|ops| - 1].price <= LinearPrice(v, times[|ops| - 1] - v.baseTime + v.priceFixDuration)
  {
    forall i | 0 <= i < |ops|
      ensures v.baseTime <= times[i]
    {
      StepPriceExact(v, times[i]);
    }
    forall i, j | 0 <= i <= j < |ops|
      ensures ops[i].price <= ops[j].price
    {
      StepPriceSandwich(v, times[i], times[j]);
    }
    StepPriceSandwich(v, times[0], times[|ops| - 1]);
    PaymentBoundedByMarket(h, ops, pd, id);
  }

  // ---------------------------------------------------------------- the permissionless route

  lemma PassThrough(s: State, s1: State, s2: State, t: State, p: TokenOps, route: Route)
    requires Moved(s, s1, route.userIn, p.payer, p.net + p.fee)
    requires SettlementEffect(s1, p, p.payer, s2)
    requires Moved(s2, t, p.receiver, route.userOut, p.out)
    ensures SettlementEffect(s, p.(payer := route.userIn, receiver := route.userOut), route.userIn, t)
  {
    var burned, minted := Controls(s, p.inMint), Controls(s, p.outMint);
    var p' := p.(payer := route.userIn, receiver := route.userOut);
    forall i | 0 <= i < |s.accounts|
      ensures t.accounts[i].amount
           == s.accounts[i].amount + InChange(p', route.userIn, burned, i) + OutChange(p', minted, i)
    {
      assert s2.accounts[i].amount
          == s1.accounts[i].amount + InChange(p, p.payer, burned, i) + OutChange(p, minted, i);
      ThroughIn(p, route, burned, i);
      ThroughOut(p, route, minted, i);
    }
  }

  lemma ThroughIn(p: TokenOps, route: Route, burned: bool, i: Id)
    ensures InChange(p.(payer := route.userIn, receiver := route.userOut), route.userIn, burned, i)
         == InChange(p, p.payer, burned, i) - At(i == route.userIn, p.net + p.fee) + At(i == p.payer, p.net + p.fee)
  {
  }

  lemma ThroughOut(p: TokenOps, route: Route, minted: bool, i: Id)
    ensures OutChange(p.(payer := route.userIn, receiver := route.userOut), minted, i)
         == OutChange(p, minted, i) - At(i == p.receiver, p.out) + At(i == route.userOut, p.out)
  {
  }

  /** The intermediary ends with what it had: the effect is that of a direct trade in which the
      user's own accounts pay and receive. */
  lemma IntermediaryIsTransparent(s: State, p: TokenOps, route: Route, amount: u64, t: State)
    requires p.net + p.fee == amount && ExecuteThrough(s, p, route, amount) == Ok(t)
    ensures SettlementEffect(s, p.(payer := route.userIn, receiver := route.userOut), route.userIn, t)
    ensures Conserved(s) ==> Conserved(t)
  {
    var s1 := Transfer(s, p.inMint, route.userIn, p.payer, amount).value;
    TransferEffect(s, p.inMint, route.userIn, p.payer, amount);
    var s2 := Execute(s1, p).value;
    ExecuteEffect(s1, p);
    TransferEffect(s2, p.outMint, p.receiver, route.userOut, p.out);
    PassThrough(s, s1, s2, t, p, route);
  }

  /** The routes succeed together, for accounts of the right kind, where supplies match balances. */
  lemma RoutesSucceedTogether(s: State, p: TokenOps, route: Route, amount: u64)
    requires Conserved(s) && p.net + p.fee == amount
    requires Holds(s, route.userIn, p.inMint) && Holds(s, p.payer, p.inMint)
    requires Holds(s, p.boss, p.inMint) && Holds(s, p.burnVault, p.inMint)
    requires Holds(s, p.outVault, p.outMint) && Holds(s, p.receiver, p.outMint) && Holds(s, route.userOut, p.outMint)
    ensures ExecuteThrough(s, p, route, amount).Ok?
       <==> Execute(s, p.(payer := route.userIn, receiver := route.userOut)).Ok?
  {
    ExecuteSucceedsIff(s, p.(payer := route.userIn, receiver := route.userOut));
    TransferFails(s, p.inMint, route.userIn, p.payer, amount);
    if amount <= s.accounts[route.userIn].amount {
      var s1 := Transfer(s, p.inMint, route.userIn, p.payer, amount).value;
      TransferEffect(s, p.inMint, route.userIn, p.payer, amount);
      assert Execute(s1, p).Ok? <==> Execute(s, p.(payer := route.userIn, receiver := route.userOut)).Ok? by {
        ExecuteSucceedsIff(s1, p);
      }
      if Execute(s1, p).Ok? {
        LastLegSucceeds(s1, p, route.userOut, Execute(s1, p).value);
      }
    }
  }

  lemma LastLegSucceeds(s: State, p: TokenOps, userOut: Id, t: State)
    requires Conserved(s) && Execute(s, p) == Ok(t) && Holds(s, userOut, p.outMint)
    ensures Transfer(t, p.outMint, p.receiver, userOut, p.out).Ok?
  {
    assert Conserved(t) && SameShape(s, t) by {
      ExecuteEffect(s, p);
    }
    ReceiverHoldsPayout(s, p, t);
    TransferFails(t, p.outMint, p.receiver, userOut, p.out);
  }

  /** So the permissionless instruction succeeds exactly when the offer allows it and the direct
      one would succeed with the user's own accounts, and then ends in the very same ledger. */
  lemma RoutesAgree(vs: seq<OfferVector>, permissionless: bool, now: u64,
                    s: State, terms: Terms, route: Route, amount: u64)
    requires terms.basisPoints <= MAX_BASIS_POINTS && Conserved(s)
    requires Holds(s, route.userIn, terms.ops.inMint) && Holds(s, terms.ops.payer, terms.ops.inMint)
    requires Holds(s, terms.ops.boss, terms.ops.inMint) && Holds(s, terms.ops.burnVault, terms.ops.inMint)
    requires Holds(s, terms.ops.outVault, terms.ops.outMint) && Holds(s, terms.ops.receiver, terms.ops.outMint)
    requires Holds(s, route.userOut, terms.ops.outMint)
    ensures var own := terms.(ops := terms.ops.(payer := route.userIn, receiver := route.userOut));
            var direct := TakeOffer(vs, now, s, own, amount);
            var routed := TakeOfferPermissionless(vs, permissionless, now, s, terms, route, amount);
            && (routed.Ok? <==> permissionless && direct.Ok?)
            && (routed.Ok? ==> routed == direct)
            && (!permissionless ==> routed == Err(PermissionlessNotAllowed))
  {
    var priced := CurrentPrice(vs, now);
    if permissionless && priced.Ok? {
      var bought := Buy(amount, terms.basisPoints, priced.value, terms.inDecimals, terms.outDecimals);
      if bought.Ok? {
        FeesExact(amount, terms.basisPoints);
        SettledAlike(s, Filled(terms.ops, bought.value), route, amount);
      }
    }
  }

  lemma SettledAlike(s: State, p: TokenOps, route: Route, amount: u64)
    requires Conserved(s) && p.net + p.fee == amount
    requires Holds(s, route.userIn, p.inMint) && Holds(s, p.payer, p.inMint)
    requires Holds(s, p.boss, p.inMint) && Holds(s, p.burnVault, p.inMint)
    requires Holds(s, p.outVault, p.outMint) && Holds(s, p.receiver, p.outMint) && Holds(s, route.userOut, p.outMint)
    ensures var direct := Execute(s, p.(payer := route.userIn, receiver := route.userOut));
            var routed := ExecuteThrough(s, p, route, amount);
            && (routed.Ok? <==> direct.Ok?)
            && (routed.Ok? ==> routed == direct)
  {
    RoutesSucceedTogether(s, p, route, amount);
    var own := p.(payer := route.userIn, receiver := route.userOut);
    if Execute(s, own).Ok? {
      var t, u := Execute(s, own).value, ExecuteThrough(s, p, route, amount).value;
      ExecuteEffect(s, own);
      IntermediaryIsTransparent(s, p, route, amount, u);
      EffectDetermines(s, own, route.userIn, t, u);
    }
  }

  lemma EffectDetermines(s: State, p: TokenOps, debited: Id, t: State, u: State)
    requires SettlementEffect(s, p, debited, t) && SettlementEffect(s, p, debited, u)
    ensures t == u
  {
    forall i | 0 <= i < |s.accounts|
      ensures t.accounts[i] == u.accounts[i]
    {
      assert t.accounts[i].amount == u.accounts[i].amount && t.accounts[i].mint == u.accounts[i].mint;
    }
    forall m | 0 <= m < |s.mints|
      ensures t.mints[m] == u.mints[m]
    {
      assert t.mints[m].supply == u.mints[m].supply && t.mints[m].authority == u.mints[m].authority;
    }
    assert t.accounts == u.accounts && t.mints == u.mints;
  }
}
