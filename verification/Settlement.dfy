/** Fees, payouts and redemptions. */
module Settlement {
  import opened Machine
  import opened FixedPoint

  const MAX_BASIS_POINTS: u64 := 10_000
  const PRICE_DECIMALS: nat := 9
  const MAX_TOKEN_DECIMALS: nat := 18

  datatype Fees = Fees(fee: u64, net: u64)

  /** `calculate_fees`. The fee is rounded up, then narrowed to 64 bits by a cast. */
  function CalculateFees(amount: u64, basisPoints: u16): Result<Fees> {
    var scaled :- CheckedMul128(amount, basisPoints, Overflow);
    var adjusted :- CheckedAdd128(scaled, MAX_BASIS_POINTS - 1, Overflow);
    var fee: u64 := (adjusted / MAX_BASIS_POINTS) % 0x1_0000_0000_0000_0000;
    if fee > amount then Err(Overflow) else Ok(Fees(fee, amount - fee))
  }

  function Pow10(n: nat): nat {
    Pow(10, n)
  }

  /** `calculate_token_out_amount`: amount * 10^(outDecimals + 9) / (price * 10^inDecimals). */
  function CalculateTokenOutAmount(amount: u64, price: u64, inDecimals: u8, outDecimals: u8): Result<u64> {
    if price == 0 then
      Err(ZeroPriceNotAllowed)
    else if inDecimals > MAX_TOKEN_DECIMALS || outDecimals > MAX_TOKEN_DECIMALS then
      Err(DecimalsExceedMax)
    else
      var outScale :- Fits128(Pow10(outDecimals + PRICE_DECIMALS));
      var inScale :- Fits128(Pow10(inDecimals));
      var numerator :- CheckedMul128(amount, outScale, Overflow);
      var denominator :- CheckedMul128(price, inScale, Overflow);
      DivideTo64(numerator, denominator, ResultOverflow)
  }

  /** `10_u128.pow(n)` aborts when the power does not fit. */
  function Fits128(n: nat): Result<u128> {
    if n <= U128_MAX then Ok(n) else Err(Panic)
  }

  /** A 128-bit division whose result must fit 64 bits; it aborts on a zero divisor. */
  function DivideTo64(numerator: u128, denominator: u128, e: Error): Result<u64> {
    if denominator == 0 then
      Err(Panic)
    else
      var q := Quotient(numerator, denominator);
      if q > U64_MAX then Err(e) else Ok(q)
  }

  datatype Trade = Trade(net: u64, fee: u64, out: u64)

  /** `process_offer_core` from the price on: what a buyer pays and gets. */
  function Buy(amount: u64, basisPoints: u16, price: u64, inDecimals: u8, outDecimals: u8): Result<Trade> {
    var fees :- CalculateFees(amount, basisPoints);
    var out :- CalculateTokenOutAmount(fees.net, price, inDecimals, outDecimals);
    Ok(Trade(fees.net, fees.fee, out))
  }

  /** `process_redemption_core` from the price on. The payout is a multiplication by the price. */
  function Redeem(amount: u64, basisPoints: u16, price: u64, inDecimals: u8, outDecimals: u8): Result<Trade> {
    var fees :- CalculateFees(amount, basisPoints);
    var priced :- CheckedMul128(fees.net, price, Overflow);
    var outScale :- Fits128(Pow10(outDecimals));
    var numerator :- CheckedMul128(priced, outScale, Overflow);
    var inScale :- Fits128(Pow10(inDecimals));
    var priceScale :- Fits128(Pow10(PRICE_DECIMALS));
    var denominator :- CheckedMul128(inScale, priceScale, Overflow);
    var out :- DivideTo64(numerator, denominator, Overflow);
    Ok(Trade(fees.net, fees.fee, out))
  }

  // ---------------------------------------------------------------- fees

  /** Up to 100% the call never fails, the fee is the least amount not below the exact
      share, and fee and net add up to the amount. */
  lemma FeesExact(amount: u64, basisPoints: u16)
    requires basisPoints <= MAX_BASIS_POINTS
    ensures CalculateFees(amount, basisPoints).Ok?
    ensures var f := CalculateFees(amount, basisPoints).value;
            && f.fee + f.net == amount
            && f.fee * MAX_BASIS_POINTS - MAX_BASIS_POINTS < amount * basisPoints <= f.fee * MAX_BASIS_POINTS
  {
    MulMono(amount, amount, basisPoints, MAX_BASIS_POINTS);
    MulMono(0, amount, 0, basisPoints);
    FeeFits(amount * basisPoints, amount);
  }

  /** The least fee not below the exact share, before it is narrowed to 64 bits. */
  function CeilingFee(amount: u64, basisPoints: u16): nat {
    MulMono(0, amount, 0, basisPoints);
    (amount * basisPoints + 9_999) / 10_000
  }

  /** Above 100%, which no offer can be configured with, the call goes through for amount zero,
      and otherwise exactly when the narrowing cast has cut the fee down to the amount; it then
      charges less than the share. */
  lemma FeesAboveHundredPercent(amount: u64, basisPoints: u16)
    requires basisPoints > MAX_BASIS_POINTS
    ensures CalculateFees(amount, basisPoints).Ok? <==>
              || amount == 0
              || (CeilingFee(amount, basisPoints) > U64_MAX
                  && CeilingFee(amount, basisPoints) % 0x1_0000_0000_0000_0000 <= amount)
    ensures CalculateFees(amount, basisPoints).Ok? ==>
              var f := CalculateFees(amount, basisPoints).value;
              && f.fee + f.net == amount
              && (amount > 0 ==> f.fee * MAX_BASIS_POINTS < amount * basisPoints)
  {
    MulMono(0, amount, 0, basisPoints);
    MulMono(amount, U64_MAX, basisPoints, 0xFFFF);
    MulLe(MAX_BASIS_POINTS + 1, basisPoints, amount);
    NarrowedFee(amount * basisPoints, amount);
  }

  lemma NarrowedFee(scaled: nat, amount: u64)
    requires scaled >= amount * 10_001
    ensures var fee := (scaled + 9_999) / 10_000;
            && (amount > 0 ==> fee > amount)
            && (fee <= U64_MAX ==> fee % 0x1_0000_0000_0000_0000 == fee)
            && (fee % 0x1_0000_0000_0000_0000 <= amount && amount > 0 ==>
                  (fee % 0x1_0000_0000_0000_0000) * 10_000 < scaled)
  {
  }

  lemma FeeFits(scaled: nat, amount: u64)
    requires scaled <= amount * 10_000
    ensures var fee := (scaled + 9_999) / 10_000;
            fee <= amount && fee % 0x1_0000_0000_0000_0000 == fee && fee * 10_000 - 10_000 < scaled <= fee * 10_000
  {
  }

  // ---------------------------------------------------------------- payouts

  lemma {:induction false} Pow10Monotone(m: nat, n: nat)
    requires m <= n
    ensures 1 <= Pow10(m) <= Pow10(n)
    decreases n
  {
    if m < n {
      Pow10Monotone(m, n - 1);
    } else if n > 0 {
      Pow10Monotone(n - 1, n - 1);
    }
  }

  lemma Pow10Values()
    ensures Pow10(9) == 1_000_000_000
    ensures Pow10(18) == 1_000_000_000_000_000_000
    ensures Pow10(19) == 10_000_000_000_000_000_000
    ensures Pow10(20) == 100_000_000_000_000_000_000
    ensures Pow10(27) == 1_000_000_000_000_000_000_000_000_000
  {
    assert Pow(10, 5) == 100_000;
    PowAdd(10, 5, 4);
    PowAdd(10, 9, 9);
    PowAdd(10, 18, 1);
    PowAdd(10, 19, 1);
    PowAdd(10, 18, 9);
  }

  /** The payout is the unique floor, so the buyer never gets more value than the net paid
      in; and the call fails exactly for a zero price, decimals above 18, a numerator beyond
      128 bits or a floor beyond 64 bits. The denominator always fits. */
  lemma PayoutExact(amount: u64, price: u64, inDecimals: u8, outDecimals: u8)
    ensures CalculateTokenOutAmount(amount, price, inDecimals, outDecimals).Ok? <==>
              && price > 0 && inDecimals <= MAX_TOKEN_DECIMALS && outDecimals <= MAX_TOKEN_DECIMALS
              && amount * Pow10(outDecimals + PRICE_DECIMALS) <= U128_MAX
              && amount * Pow10(outDecimals + PRICE_DECIMALS) < (U64_MAX + 1) * (price * Pow10(inDecimals))
    ensures CalculateTokenOutAmount(amount, price, inDecimals, outDecimals).Ok? ==>
              var out := CalculateTokenOutAmount(amount, price, inDecimals, outDecimals).value;
              out * (price * Pow10(inDecimals)) <= amount * Pow10(outDecimals + PRICE_DECIMALS)
              < (out + 1) * (price * Pow10(inDecimals))
  {
    if price > 0 && inDecimals <= MAX_TOKEN_DECIMALS && outDecimals <= MAX_TOKEN_DECIMALS {
      var n, d := amount * Pow10(outDecimals + PRICE_DECIMALS), price * Pow10(inDecimals);
      ScalesFit(price, inDecimals, outDecimals);
      MulMono(0, amount, 0, Pow10(outDecimals + PRICE_DECIMALS));
      if n <= U128_MAX {
        assert CalculateTokenOutAmount(amount, price, inDecimals, outDecimals) == DivideTo64(n, d, ResultOverflow);
        DivisionExact(n, d, ResultOverflow);
      }
    }
  }

  /** Why a payout fails when it does: the scales and the denominator never overflow. */
  lemma PayoutFailsWith(amount: u64, price: u64, inDecimals: u8, outDecimals: u8)
    requires CalculateTokenOutAmount(amount, price, inDecimals, outDecimals).Err?
    ensures CalculateTokenOutAmount(amount, price, inDecimals, outDecimals).error
         == if price == 0 then ZeroPriceNotAllowed
            else if inDecimals > 18 || outDecimals > 18 then DecimalsExceedMax
            else if amount * Pow10(outDecimals + 9) > U128_MAX then Overflow
            else ResultOverflow
  {
    if price > 0 && inDecimals <= MAX_TOKEN_DECIMALS && outDecimals <= MAX_TOKEN_DECIMALS {
      ScalesFit(price, inDecimals, outDecimals);
      MulMono(0, amount, 0, Pow10(outDecimals + PRICE_DECIMALS));
    }
  }

  lemma ScalesFit(price: u64, inDecimals: nat, outDecimals: nat)
    requires price > 0 && inDecimals <= MAX_TOKEN_DECIMALS && outDecimals <= MAX_TOKEN_DECIMALS
    ensures 1 <= Pow10(outDecimals + PRICE_DECIMALS) <= U128_MAX
    ensures 1 <= Pow10(inDecimals) <= U128_MAX
    ensures 1 <= price * Pow10(inDecimals) <= U128_MAX
  {
    Pow10Values();
    Pow10Monotone(inDecimals, 18);
    Pow10Monotone(outDecimals + PRICE_DECIMALS, 27);
    MulMono(1, price, 1, Pow10(inDecimals));
    MulMono(price, U64_MAX, Pow10(inDecimals), 1_000_000_000_000_000_000);
  }

  lemma FloorBelowLimit(n: u128, d: u128, limit: nat)
    requires d > 0
    ensures Quotient(n, d) < limit <==> n < limit * d
  {
    var q := Quotient(n, d);
    if q < limit {
      MulLe(q + 1, limit, d);
    } else {
      MulLe(limit, q, d);
    }
  }

  lemma DivisionExact(n: u128, d: u128, e: Error)
    requires d > 0
    ensures DivideTo64(n, d, e).Ok? <==> n < (U64_MAX + 1) * d
    ensures DivideTo64(n, d, e).Ok? ==> DivideTo64(n, d, e).value * d <= n < (DivideTo64(n, d, e).value + 1) * d
  {
    FloorBelowLimit(n, d, U64_MAX + 1);
    var q := Quotient(n, d);
    assert q * d + d == (q + 1) * d;
  }

  /** Up to 10 output decimals the 128-bit numerator always fits; at 11 it does not for the
      largest amount. */
  lemma NumeratorDomain(amount: u64, outDecimals: nat)
    ensures outDecimals <= 10 ==> amount * Pow10(outDecimals + PRICE_DECIMALS) <= U128_MAX
    ensures U64_MAX * Pow10(11 + PRICE_DECIMALS) > U128_MAX
  {
    Pow10Values();
    if outDecimals <= 10 {
      Pow10Monotone(outDecimals + PRICE_DECIMALS, 19);
      MulMono(amount, U64_MAX, Pow10(outDecimals + PRICE_DECIMALS), 10_000_000_000_000_000_000);
    }
  }

  // ---------------------------------------------------------------- a whole purchase

  /** The fee is the least amount not below the share of `amount`; net and fee make up the amount. */
  ghost predicate TakesFee(t: Trade, amount: u64, bps: u16) {
    && t.fee * 10_000 - 10_000 < amount * bps <= t.fee * 10_000
    && t.net + t.fee == amount
  }

  /** What a purchase of `amount` at `price` comes to: that fee, and for the net the floor of
      net * 10^(out - in + 9) / price. */
  ghost predicate IsPurchase(t: Trade, amount: u64, bps: u16, price: nat, din: u8, dout: u8) {
    && TakesFee(t, amount, bps)
    && t.out * (price * Pow10(din)) <= t.net * Pow10(dout + PRICE_DECIMALS) < (t.out + 1) * (price * Pow10(din))
  }

  /** The limits of the arithmetic on a purchase. */
  ghost predicate PurchaseWithin(t: Trade, din: u8, dout: u8) {
    && din <= MAX_TOKEN_DECIMALS && dout <= MAX_TOKEN_DECIMALS
    && t.net * Pow10(dout + PRICE_DECIMALS) <= U128_MAX
  }

  /** A purchase yields exactly that fee and that floor, and succeeds exactly when price,
      decimals, numerator and floor are within their limits. */
  lemma BuyExact(amount: u64, bps: u16, price: u64, din: u8, dout: u8)
    requires bps <= MAX_BASIS_POINTS
    ensures CalculateFees(amount, bps).Ok?
    ensures var net := CalculateFees(amount, bps).value.net;
            Buy(amount, bps, price, din, dout).Ok? <==>
              && price > 0 && din <= MAX_TOKEN_DECIMALS && dout <= MAX_TOKEN_DECIMALS
              && net * Pow10(dout + PRICE_DECIMALS) <= U128_MAX
              && net * Pow10(dout + PRICE_DECIMALS) < (U64_MAX + 1) * (price * Pow10(din))
    ensures Buy(amount, bps, price, din, dout).Ok? ==>
              var t := Buy(amount, bps, price, din, dout).value;
              IsPurchase(t, amount, bps, price, din, dout) && PurchaseWithin(t, din, dout)
  {
    FeesExact(amount, bps);
    PayoutExact(CalculateFees(amount, bps).value.net, price, din, dout);
  }

  lemma SameFee(t: Trade, u: Trade, amount: u64, bps: u16)
    requires TakesFee(t, amount, bps) && TakesFee(u, amount, bps)
    ensures t.fee == u.fee && t.net == u.net
  {
  }

  lemma SameFloor(p: int, q: int, n: int, d: int)
    requires p * d <= n < (p + 1) * d && q * d <= n < (q + 1) * d
    ensures p == q
  {
    if p < q {
      MulLe(p + 1, q, d);
      assert false;
    } else if q < p {
      MulLe(q + 1, p, d);
      assert false;
    }
  }

  /** So the trade that fee, floor and limits describe is the one the program makes. */
  lemma OnlyPurchase(t: Trade, amount: u64, bps: u16, price: u64, din: u8, dout: u8)
    requires bps <= MAX_BASIS_POINTS
    requires IsPurchase(t, amount, bps, price, din, dout) && PurchaseWithin(t, din, dout)
    ensures Buy(amount, bps, price, din, dout) == Ok(t)
  {
    var d, n := price * Pow10(din), t.net * Pow10(dout + PRICE_DECIMALS);
    BuyExact(amount, bps, price, din, dout);
    FeesExact(amount, bps);
    var fees := CalculateFees(amount, bps).value;
    SameFee(t, Trade(fees.net, fees.fee, 0), amount, bps);
    PositiveDivisor(t.out, n, d);
    MulLe(t.out + 1, U64_MAX + 1, d);
    var u := Buy(amount, bps, price, din, dout).value;
    SameFee(t, u, amount, bps);
    SameFloor(t.out, u.out, n, d);
  }

  lemma PositiveDivisor(q: nat, n: int, d: int)
    requires q * d <= n < (q + 1) * d
    ensures d > 0
  {
    assert (q + 1) * d == q * d + d;
  }

  // ---------------------------------------------------------------- splitting a trade

  /** Equivalently to the rounded-up fee, the net is the exact remaining share rounded down. */
  lemma NetIsFloor(amount: u64, basisPoints: u16)
    requires basisPoints <= MAX_BASIS_POINTS
    ensures CalculateFees(amount, basisPoints).Ok?
    ensures var net := CalculateFees(amount, basisPoints).value.net;
            net * 10_000 <= amount * (10_000 - basisPoints) < net * 10_000 + 10_000
  {
    FeesExact(amount, basisPoints);
    assert amount * (10_000 - basisPoints) == amount * 10_000 - amount * basisPoints;
  }

  /** The net of a sum is the sum of the nets or one more. */
  lemma NetSuperadditive(a: u64, b: u64, basisPoints: u16)
    requires basisPoints <= MAX_BASIS_POINTS && a + b <= U64_MAX
    ensures CalculateFees(a, basisPoints).Ok? && CalculateFees(b, basisPoints).Ok?
    ensures CalculateFees(a + b, basisPoints).Ok?
    ensures var na, nb := CalculateFees(a, basisPoints).value.net, CalculateFees(b, basisPoints).value.net;
            na + nb <= CalculateFees(a + b, basisPoints).value.net <= na + nb + 1
  {
    NetIsFloor(a, basisPoints);
    NetIsFloor(b, basisPoints);
    NetIsFloor(a + b, basisPoints);
    assert (a + b) * (10_000 - basisPoints) == a * (10_000 - basisPoints) + b * (10_000 - basisPoints);
  }

  lemma PayoutDownward(n1: u64, n: u64, price: u64, din: u8, dout: u8)
    requires n1 <= n
    ensures CalculateTokenOutAmount(n, price, din, dout).Ok? ==> CalculateTokenOutAmount(n1, price, din, dout).Ok?
  {
    PayoutExact(n, price, din, dout);
    PayoutExact(n1, price, din, dout);
    MulLe(n1, n, Pow10(dout + PRICE_DECIMALS));
  }

  lemma FloorsAdd(o1: nat, n1: nat, o2: nat, n2: nat, o: nat, n: nat, w: nat, d: nat)
    requires n1 + n2 <= n && o1 * d <= n1 * w && o2 * d <= n2 * w && n * w < (o + 1) * d
    ensures o1 + o2 <= o
  {
    MulLe(n1 + n2, n, w);
    assert (n1 + n2) * w == n1 * w + n2 * w && (o1 + o2) * d == o1 * d + o2 * d;
    if o < o1 + o2 {
      MulLe(o + 1, o1 + o2, d);
      assert false;
    }
  }

  /** Two payouts for parts of a net never exceed the payout for the whole, and succeed with it. */
  lemma PayoutSuperadditive(n1: u64, n2: u64, n: u64, price: u64, din: u8, dout: u8)
    requires n1 + n2 <= n
    ensures var p1, p2 := CalculateTokenOutAmount(n1, price, din, dout), CalculateTokenOutAmount(n2, price, din, dout);
            var p := CalculateTokenOutAmount(n, price, din, dout);
            p.Ok? ==> p1.Ok? && p2.Ok? && p1.value + p2.value <= p.value
  {
    PayoutDownward(n1, n, price, din, dout);
    PayoutDownward(n2, n, price, din, dout);
    if CalculateTokenOutAmount(n, price, din, dout).Ok? {
      var o1 := CalculateTokenOutAmount(n1, price, din, dout).value;
      var o2 := CalculateTokenOutAmount(n2, price, din, dout).value;
      var o := CalculateTokenOutAmount(n, price, din, dout).value;
      assert o1 + o2 <= o by {
        PayoutExact(n, price, din, dout);
        PayoutExact(n1, price, din, dout);
        PayoutExact(n2, price, din, dout);
        FloorsAdd(o1, n1, o2, n2, o, n, Pow10(dout + PRICE_DECIMALS), price * Pow10(din));
      }
    }
  }

  function Sum(xs: seq<nat>): nat {
    if xs == [] then 0 else Sum(xs[..|xs| - 1]) + xs[|xs| - 1]
  }

  /** What the pieces of a split trade net, and bring, in all; a failing piece adds nothing. */
  function TotalNet(quote: u64 -> Result<Trade>, amounts: seq<u64>): nat {
    if amounts == [] then
      0
    else
      var t := quote(amounts[|amounts| - 1]);
      TotalNet(quote, amounts[..|amounts| - 1]) + if t.Ok? then t.value.net else 0
  }

  function TotalOut(quote: u64 -> Result<Trade>, amounts: seq<u64>): nat {
    if amounts == [] then
      0
    else
      var t := quote(amounts[|amounts| - 1]);
      TotalOut(quote, amounts[..|amounts| - 1]) + if t.Ok? then t.value.out else 0
  }

  /** Two parts of a trade succeed with the whole, get no more together, and net at most one less. */
  ghost predicate PartsNeverPay(whole: Result<Trade>, x: Result<Trade>, y: Result<Trade>) {
    whole.Ok? ==>
      && x.Ok? && y.Ok?
      && x.value.out + y.value.out <= whole.value.out
      && x.value.net + y.value.net <= whole.value.net <= x.value.net + y.value.net + 1
  }

  ghost predicate Superadditive(quote: u64 -> Result<Trade>) {
    forall a: u64, b: u64 | a + b <= U64_MAX :: PartsNeverPay(quote(a + b), quote(a), quote(b))
  }

  /** If the whole trade succeeds then so does every one of its n pieces; together they receive
      no more than the whole, and their nets fall short of the whole's net by at most n - 1. */
  ghost predicate SplitNeverPays(quote: u64 -> Result<Trade>, amounts: seq<u64>) {
    amounts != [] && Sum(amounts) <= U64_MAX && quote(Sum(amounts)).Ok? ==>
      && (forall i :: 0 <= i < |amounts| ==> quote(amounts[i]).Ok?)
      && TotalOut(quote, amounts) <= quote(Sum(amounts)).value.out
      && TotalNet(quote, amounts) <= quote(Sum(amounts)).value.net <= TotalNet(quote, amounts) + |amounts| - 1
  }

  lemma {:induction false} FromPartsToLists(quote: u64 -> Result<Trade>, amounts: seq<u64>)
    requires Superadditive(quote)
    ensures SplitNeverPays(quote, amounts)
  {
    if amounts != [] && Sum(amounts) <= U64_MAX && quote(Sum(amounts)).Ok? {
      var init, last := amounts[..|amounts| - 1], amounts[|amounts| - 1];
      if init == [] {
        assert Sum(init) == TotalNet(quote, init) == TotalOut(quote, init) == 0;
      } else {
        var rest: u64 := Sum(init);
        assert PartsNeverPay(quote(rest + last), quote(rest), quote(last));
        FromPartsToLists(quote, init);
        assert forall i :: 0 <= i < |init| ==> amounts[i] == init[i];
      }
    }
  }

  function BuyQuote(bps: u16, price: u64, din: u8, dout: u8): u64 -> Result<Trade> {
    (amount: u64) => Buy(amount, bps, price, din, dout)
  }

  function RedeemQuote(bps: u16, price: u64, din: u8, dout: u8): u64 -> Result<Trade> {
    (amount: u64) => Redeem(amount, bps, price, din, dout)
  }

  lemma BuySuperadditive(a: u64, b: u64, bps: u16, price: u64, din: u8, dout: u8)
    requires bps <= MAX_BASIS_POINTS && a + b <= U64_MAX
    ensures PartsNeverPay(Buy(a + b, bps, price, din, dout),
                          Buy(a, bps, price, din, dout), Buy(b, bps, price, din, dout))
  {
    NetSuperadditive(a, b, bps);
    PayoutSuperadditive(CalculateFees(a, bps).value.net, CalculateFees(b, bps).value.net,
                        CalculateFees(a + b, bps).value.net, price, din, dout);
  }

  /** Splitting a purchase never pays. */
  lemma SplittingNeverPays(amounts: seq<u64>, bps: u16, price: u64, din: u8, dout: u8)
    requires bps <= MAX_BASIS_POINTS
    ensures SplitNeverPays(BuyQuote(bps, price, din, dout), amounts)
  {
    var quote := BuyQuote(bps, price, din, dout);
    assert Superadditive(quote) by {
      forall a: u64, b: u64 | a + b <= U64_MAX
        ensures PartsNeverPay(quote(a + b), quote(a), quote(b))
      {
        BuySuperadditive(a, b, bps, price, din, dout);
      }
    }
    FromPartsToLists(quote, amounts);
  }

  // ---------------------------------------------------------------- buying and redeeming

  /** What a redemption of `amount` at `price` comes to: the fee, and for the net the floor of
      net * price * 10^(out - in - 9). */
  ghost predicate IsRedemption(t: Trade, amount: u64, bps: u16, price: nat, din: u8, dout: u8) {
    && TakesFee(t, amount, bps)
    && t.out * Pow10(din + PRICE_DECIMALS) <= t.net * price * Pow10(dout) < (t.out + 1) * Pow10(din + PRICE_DECIMALS)
  }

  /** The limits of the arithmetic on a redemption. */
  ghost predicate RedemptionWithin(t: Trade, price: nat, din: u8, dout: u8) {
    && Pow10(dout) <= U128_MAX && Pow10(din + PRICE_DECIMALS) <= U128_MAX
    && t.net * price * Pow10(dout) <= U128_MAX
  }

  /** A redemption yields exactly that fee and that floor, and fails exactly when a scale, the
      numerator or the floor outgrows its word. */
  lemma RedeemExact(amount: u64, bps: u16, price: u64, din: u8, dout: u8)
    requires bps <= MAX_BASIS_POINTS
    ensures CalculateFees(amount, bps).Ok?
    ensures var net := CalculateFees(amount, bps).value.net;
            Redeem(amount, bps, price, din, dout).Ok? <==>
              && Pow10(dout) <= U128_MAX && Pow10(din + PRICE_DECIMALS) <= U128_MAX
              && net * price * Pow10(dout) <= U128_MAX
              && net * price * Pow10(dout) < (U64_MAX + 1) * Pow10(din + PRICE_DECIMALS)
    ensures Redeem(amount, bps, price, din, dout).Ok? ==>
              var t := Redeem(amount, bps, price, din, dout).value;
              && t.net == CalculateFees(amount, bps).value.net
              && IsRedemption(t, amount, bps, price, din, dout) && RedemptionWithin(t, price, din, dout)
  {
    FeesExact(amount, bps);
    var net := CalculateFees(amount, bps).value.net;
    MulMono(0, net, 0, price);
    MulMono(net, U64_MAX, price, U64_MAX);
    MulMono(0, net * price, 0, Pow10(dout));
    ScaleSplits(din);
    var n, d := net * price * Pow10(dout), Pow10(din + PRICE_DECIMALS);
    if Pow10(dout) <= U128_MAX && d <= U128_MAX && n <= U128_MAX {
      DivisionExact(n, d, Overflow);
    }
  }

  /** A redemption that fails does so for overflow, or aborts where a power of ten leaves its word. */
  lemma RedeemFailsWith(amount: u64, bps: u16, price: u64, din: u8, dout: u8, fees: Fees)
    requires CalculateFees(amount, bps) == Ok(fees) && Redeem(amount, bps, price, din, dout).Err?
    ensures Redeem(amount, bps, price, din, dout).error
         == if Pow10(dout) > U128_MAX then Panic
            else if fees.net * price * Pow10(dout) > U128_MAX then Overflow
            else if Pow10(din) > U128_MAX then Panic
            else Overflow
  {
    MulMono(0, fees.net, 0, price);
    MulMono(fees.net, U64_MAX, price, U64_MAX);
    MulMono(0, fees.net * price, 0, Pow10(dout));
    ScaleSplits(din);
  }

  /** So the redemption that fee, floor and limits describe is the one the program makes. */
  lemma OnlyRedemption(t: Trade, amount: u64, bps: u16, price: u64, din: u8, dout: u8)
    requires bps <= MAX_BASIS_POINTS
    requires IsRedemption(t, amount, bps, price, din, dout) && RedemptionWithin(t, price, din, dout)
    ensures Redeem(amount, bps, price, din, dout) == Ok(t)
  {
    var d, n := Pow10(din + PRICE_DECIMALS), t.net * price * Pow10(dout);
    RedeemExact(amount, bps, price, din, dout);
    FeesExact(amount, bps);
    var fees := CalculateFees(amount, bps).value;
    SameFee(t, Trade(fees.net, fees.fee, 0), amount, bps);
    PositiveDivisor(t.out, n, d);
    MulLe(t.out + 1, U64_MAX + 1, d);
    var u := Redeem(amount, bps, price, din, dout).value;
    SameFee(t, u, amount, bps);
    SameFloor(t.out, u.out, n, d);
  }

  lemma ScaleSplits(din: u8)
    ensures Pow10(din) * Pow10(PRICE_DECIMALS) == Pow10(din + PRICE_DECIMALS) >= 1
    ensures 1 <= Pow10(din) <= Pow10(din + PRICE_DECIMALS)
    ensures Pow10(PRICE_DECIMALS) <= U128_MAX
  {
    PowAdd(10, din, PRICE_DECIMALS);
    Pow10Monotone(0, din);
    Pow10Monotone(din, din + PRICE_DECIMALS);
    Pow10Values();
  }

  lemma RedeemBounded(amount: u64, bps: u16, price: u64, din: u8, dout: u8)
    requires bps <= MAX_BASIS_POINTS
    ensures Redeem(amount, bps, price, din, dout).Ok? ==>
              var t := Redeem(amount, bps, price, din, dout).value;
              && t.net + t.fee == amount
              && t.out * Pow10(din + PRICE_DECIMALS) <= t.net * (price * Pow10(dout))
  {
    RedeemExact(amount, bps, price, din, dout);
    if Redeem(amount, bps, price, din, dout).Ok? {
      Assoc(Redeem(amount, bps, price, din, dout).value.net, price, Pow10(dout));
    }
  }

  lemma RedeemSuperadditive(a: u64, b: u64, bps: u16, price: u64, din: u8, dout: u8)
    requires bps <= MAX_BASIS_POINTS && a + b <= U64_MAX
    ensures PartsNeverPay(Redeem(a + b, bps, price, din, dout),
                          Redeem(a, bps, price, din, dout), Redeem(b, bps, price, din, dout))
  {
    var whole := Redeem(a + b, bps, price, din, dout);
    if whole.Ok? {
      NetSuperadditive(a, b, bps);
      RedeemExact(a + b, bps, price, din, dout);
      RedeemPart(a, whole.value.net, bps, price, din, dout);
      RedeemPart(b, whole.value.net, bps, price, din, dout);
      var x, y := Redeem(a, bps, price, din, dout).value, Redeem(b, bps, price, din, dout).value;
      assert x.out + y.out <= whole.value.out by {
        RedeemExact(a, bps, price, din, dout);
        RedeemExact(b, bps, price, din, dout);
        Assoc(x.net, price, Pow10(dout));
        Assoc(y.net, price, Pow10(dout));
        Assoc(whole.value.net, price, Pow10(dout));
        MulMono(0, price, 0, Pow10(dout));
        FloorsAdd(x.out, x.net, y.out, y.net, whole.value.out, whole.value.net,
                  price * Pow10(dout), Pow10(din + PRICE_DECIMALS));
      }
      assert x.net == CalculateFees(a, bps).value.net && y.net == CalculateFees(b, bps).value.net;
    }
  }

  /** Where a net redeems, so does any amount with a smaller net. */
  lemma RedeemPart(a: u64, net: u64, bps: u16, price: u64, din: u8, dout: u8)
    requires bps <= MAX_BASIS_POINTS
    requires CalculateFees(a, bps).Ok? ==> CalculateFees(a, bps).value.net <= net
    requires Pow10(dout) <= U128_MAX && Pow10(din + PRICE_DECIMALS) <= U128_MAX
    requires net * price * Pow10(dout) <= U128_MAX
    requires net * price * Pow10(dout) < (U64_MAX + 1) * Pow10(din + PRICE_DECIMALS)
    ensures Redeem(a, bps, price, din, dout).Ok?
    ensures Redeem(a, bps, price, din, dout).value.net == CalculateFees(a, bps).value.net
  {
    RedeemExact(a, bps, price, din, dout);
    MulMono(CalculateFees(a, bps).value.net, net, price, price);
    MulMono(CalculateFees(a, bps).value.net * price, net * price, Pow10(dout), Pow10(dout));
  }

  /** Splitting a redemption never pays either. */
  lemma SplittingRedemptionNeverPays(amounts: seq<u64>, bps: u16, price: u64, din: u8, dout: u8)
    requires bps <= MAX_BASIS_POINTS
    ensures SplitNeverPays(RedeemQuote(bps, price, din, dout), amounts)
  {
    var quote := RedeemQuote(bps, price, din, dout);
    assert Superadditive(quote) by {
      forall a: u64, b: u64 | a + b <= U64_MAX
        ensures PartsNeverPay(quote(a + b), quote(a), quote(b))
      {
        RedeemSuperadditive(a, b, bps, price, din, dout);
      }
    }
    FromPartsToLists(quote, amounts);
  }

  lemma BuyBounded(amount: u64, bps: u16, price: u64, din: u8, dout: u8)
    requires bps <= MAX_BASIS_POINTS && Buy(amount, bps, price, din, dout).Ok?
    ensures var t := Buy(amount, bps, price, din, dout).value;
            && t.net + t.fee == amount
            && t.out * (price * Pow10(din)) <= t.net * Pow10(dout + PRICE_DECIMALS)
  {
    BuyExact(amount, bps, price, din, dout);
  }

  /** One account trading with the program in both directions. Buying turns payment token into
      issued token; redeeming swaps the roles of the two mints. */
  datatype Holder = Holder(payment: nat, issued: nat)

  datatype HolderOp = BuyOp(amount: u64, fee: u16) | RedeemOp(amount: u64, fee: u16)

  function HolderStep(h: Holder, op: HolderOp, price: u64, payDecimals: u8, issueDecimals: u8): Holder {
    match op
    case BuyOp(amount, fee) =>
      if amount > h.payment then h else
        (match Buy(amount, fee, price, payDecimals, issueDecimals)
         case Ok(t) => Holder(h.payment - amount, h.issued + t.out)
         case Err(_) => h)
    case RedeemOp(amount, fee) =>
      if amount > h.issued then h else
        (match Redeem(amount, fee, price, issueDecimals, payDecimals)
         case Ok(t) => Holder(h.payment + t.out, h.issued - amount)
         case Err(_) => h)
  }

  function HolderRun(h: Holder, ops: seq<HolderOp>, price: u64, payDecimals: u8, issueDecimals: u8): Holder {
    if ops == [] then
      h
    else
      HolderStep(HolderRun(h, ops[..|ops| - 1], price, payDecimals, issueDecimals),
                 ops[|ops| - 1], price, payDecimals, issueDecimals)
  }

  /** What a holder owns, counted exactly in a common unit of both tokens at the given price. */
  function Wealth(h: Holder, price: u64, payDecimals: u8, issueDecimals: u8): nat {
    MulMono(0, h.payment, 0, Pow10(issueDecimals + PRICE_DECIMALS));
    MulMono(0, price, 0, Pow10(payDecimals));
    MulMono(0, h.issued, 0, price * Pow10(payDecimals));
    h.payment * Pow10(issueDecimals + PRICE_DECIMALS) + h.issued * (price * Pow10(payDecimals))
  }

  lemma HolderStepNeverGains(h: Holder, op: HolderOp, price: u64, pd: u8, id: u8)
    requires op.fee <= MAX_BASIS_POINTS
    ensures Wealth(HolderStep(h, op, price, pd, id), price, pd, id) <= Wealth(h, price, pd, id)
  {
    var a, b := Pow10(id + PRICE_DECIMALS), price * Pow10(pd);
    var next := HolderStep(h, op, price, pd, id);
    MulMono(0, price, 0, Pow10(pd));
    if next != h {
      if op.BuyOp? {
        BuyBounded(op.amount, op.fee, price, pd, id);
        var t := Buy(op.amount, op.fee, price, pd, id).value;
        MulLe(t.net, op.amount, a);
        Exchange(h.payment, op.amount, a, h.issued, t.out, b);
      } else {
        RedeemBounded(op.amount, op.fee, price, id, pd);
        var t := Redeem(op.amount, op.fee, price, id, pd).value;
        MulLe(t.net, op.amount, b);
        Exchange(h.issued, op.amount, b, h.payment, t.out, a);
      }
    }
  }

  lemma Exchange(x: nat, paid: nat, a: nat, y: nat, got: nat, b: nat)
    requires paid <= x && got * b <= paid * a
    ensures (x - paid) * a + (y + got) * b <= x * a + y * b
  {
    assert (x - paid) * a == x * a - paid * a;
    assert (y + got) * b == y * b + got * b;
  }

  /** No run of purchases and redemptions at one price, with whatever fees up to 100%, leaves
      a holder with more than it began with; so payment token spent never comes back with a gain. */
  lemma {:induction false} NoRunGains(h: Holder, ops: seq<HolderOp>, price: u64, pd: u8, id: u8)
    requires forall op :: op in ops ==> op.fee <= MAX_BASIS_POINTS
    ensures Wealth(HolderRun(h, ops, price, pd, id), price, pd, id) <= Wealth(h, price, pd, id)
    ensures h.issued == 0 ==> HolderRun(h, ops, price, pd, id).payment <= h.payment
    decreases |ops|
  {
    if ops != [] {
      var init, last := ops[..|ops| - 1], ops[|ops| - 1];
      assert last in ops && forall op :: op in init ==> op in ops;
      NoRunGains(h, init, price, pd, id);
      HolderStepNeverGains(HolderRun(h, init, price, pd, id), last, price, pd, id);
      var end := HolderRun(h, ops, price, pd, id);
      if h.issued == 0 {
        PaymentOnly(end, h, price, pd, id);
      }
    }
  }

  lemma PaymentOnly(end: Holder, start: Holder, price: u64, pd: u8, id: u8)
    requires start.issued == 0 && Wealth(end, price, pd, id) <= Wealth(start, price, pd, id)
    ensures end.payment <= start.payment
  {
    Pow10Monotone(0, id + PRICE_DECIMALS);
    MulMono(0, price, 0, Pow10(pd));
    MulMono(0, end.issued, 0, price * Pow10(pd));
    CancelFactor(end.payment, start.payment, Pow10(id + PRICE_DECIMALS));
  }

  // ---------------------------------------------------------------- trading at moving prices

  /** An operation and the price it happens at. */
  datatype Quoted = Quoted(op: HolderOp, price: u64)

  function MarketRun(h: Holder, ops: seq<Quoted>, pd: u8, id: u8): Holder {
    if ops == [] then
      h
    else
      HolderStep(MarketRun(h, ops[..|ops| - 1], pd, id), ops[|ops| - 1].op, ops[|ops| - 1].price, pd, id)
  }

  ghost predicate RisingMarket(ops: seq<Quoted>) {
    && (forall i :: 0 <= i < |ops| ==> ops[i].op.fee <= MAX_BASIS_POINTS)
    && (forall i, j :: 0 <= i <= j < |ops| ==> ops[i].price <= ops[j].price)
  }

  /** Wealth at a higher price is at most wealth at the lower one times their ratio. */
  lemma Revalue(h: Holder, p: u64, q: u64, pd: u8, id: u8)
    requires p <= q
    ensures Wealth(h, q, pd, id) * p <= Wealth(h, p, pd, id) * q
  {
    var x, b := h.payment * Pow10(id + PRICE_DECIMALS), Pow10(pd);
    MulMono(0, h.payment, 0, Pow10(id + PRICE_DECIMALS));
    MulMono(x, x, p, q);
    Assoc(h.issued, q, b);
    Assoc(h.issued, p, b);
    Shuffle(h.issued * q, b, p, 1);
    Shuffle(h.issued * p, b, q, 1);
    Shuffle(h.issued, q, p, 1);
    Shuffle(h.issued, p, q, 1);
    assert Wealth(h, q, pd, id) == x + h.issued * q * b && Wealth(h, p, pd, id) == x + h.issued * p * b;
    Spread(x, h.issued * q * b, p);
    Spread(x, h.issued * p * b, q);
  }

  lemma Spread(x: int, y: int, p: int)
    ensures (x + y) * p == x * p + y * p
  {
  }

  /** From w2 * p <= w1 * q and w1 * first <= start * p to w2 * first <= start * q. */
  lemma ChainRatios(w1: nat, w2: nat, start: nat, first: nat, p: nat, q: nat)
    requires p >= 1 && w2 * p <= w1 * q && w1 * first <= start * p
    ensures w2 * first <= start * q
  {
    MulMono(w2 * p, w1 * q, first, first);
    MulMono(w1 * first, start * p, q, q);
    Shuffle(w2, p, first, 1);
    Shuffle(w1, q, first, 1);
    Shuffle(w1, first, q, 1);
    Shuffle(start, p, q, 1);
    CancelFactor(w2 * first, start * q, p);
  }

  /** No run of purchases and redemptions in a market that never falls gains more than the
      price does: wealth at the last price over wealth at the first price is at most the ratio
      of the two prices. */
  lemma {:induction false} NoRunBeatsTheMarket(h: Holder, ops: seq<Quoted>, pd: u8, id: u8)
    requires ops != [] && RisingMarket(ops)
    ensures var first, last := ops[0].price, ops[|ops| - 1].price;
            Wealth(MarketRun(h, ops, pd, id), last, pd, id) * first <= Wealth(h, first, pd, id) * last
    decreases |ops|
  {
    var init, op := ops[..|ops| - 1], ops[|ops| - 1];
    var first := ops[0].price;
    var before := MarketRun(h, init, pd, id);
    HolderStepNeverGains(before, op.op, op.price, pd, id);
    if init == [] {
      assert before == h;
      MulLe(Wealth(MarketRun(h, ops, pd, id), op.price, pd, id), Wealth(h, first, pd, id), first);
    } else if first == 0 {
      MulMono(0, Wealth(h, first, pd, id), 0, op.price);
    } else {
      NoRunBeatsTheMarket(h, init, pd, id);
      var p := init[|init| - 1].price;
      assert p == ops[|ops| - 2].price && first <= p <= op.price;
      Revalue(before, p, op.price, pd, id);
      ChainRatios(Wealth(before, p, pd, id), Wealth(before, op.price, pd, id), Wealth(h, first, pd, id),
                  first, p, op.price);
      MulLe(Wealth(MarketRun(h, ops, pd, id), op.price, pd, id), Wealth(before, op.price, pd, id), first);
    }
  }

  /** So a holder who starts with payment token only ends with at most what it had, times the
      ratio of the last price to the first. */
  lemma PaymentBoundedByMarket(h: Holder, ops: seq<Quoted>, pd: u8, id: u8)
    requires ops != [] && RisingMarket(ops) && h.issued == 0
    ensures MarketRun(h, ops, pd, id).payment * ops[0].price <= h.payment * ops[|ops| - 1].price
  {
    var first, last, end := ops[0].price, ops[|ops| - 1].price, MarketRun(h, ops, pd, id);
    NoRunBeatsTheMarket(h, ops, pd, id);
    Pow10Monotone(0, id + PRICE_DECIMALS);
    MulMono(0, last, 0, Pow10(pd));
    MulMono(0, end.issued, 0, last * Pow10(pd));
    PaymentShare(end.payment, end.issued * (last * Pow10(pd)), Pow10(id + PRICE_DECIMALS), first, h.payment, last);
  }

  lemma PaymentShare(end: nat, rest: nat, a: nat, first: nat, start: nat, last: nat)
    requires a >= 1 && (end * a + rest) * first <= (start * a) * last
    ensures end * first <= start * last
  {
    MulLe(end * a, end * a + rest, first);
    Shuffle(end, a, first, 1);
    Shuffle(start, a, last, 1);
    CancelFactor(end * first, start * last, a);
  }

  /** Buying at one price and redeeming the proceeds at another returns at most the amount
      paid times the ratio of the prices. */
  lemma RoundTripGain(amount: u64, fee1: u16, fee2: u16, p1: u64, p2: u64, pd: u8, id: u8)
    requires fee1 <= MAX_BASIS_POINTS && fee2 <= MAX_BASIS_POINTS
    ensures var bought := Buy(amount, fee1, p1, pd, id);
            bought.Ok? ==>
              var back := Redeem(bought.value.out, fee2, p2, id, pd);
              back.Ok? ==> back.value.out * p1 <= amount * p2
  {
    var bought := Buy(amount, fee1, p1, pd, id);
    if bought.Ok? {
      var back := Redeem(bought.value.out, fee2, p2, id, pd);
      if back.Ok? {
        BuyBounded(amount, fee1, p1, pd, id);
        RedeemBounded(bought.value.out, fee2, p2, id, pd);
        Pow10Monotone(0, id + PRICE_DECIMALS);
        GainBound(back.value.out, back.value.net, bought.value.out, bought.value.net, amount, p1, p2,
                  Pow10(pd), Pow10(id + PRICE_DECIMALS));
      }
    }
  }

  lemma GainBound(y: nat, net2: nat, out: nat, net1: nat, amount: nat, p1: nat, p2: nat, a: nat, w: nat)
    requires y * w <= net2 * (p2 * a) && net2 <= out && out * (p1 * a) <= net1 * w && net1 <= amount && w >= 1
    ensures y * p1 <= amount * p2
  {
    MulMono(net2, out, p2 * a, p2 * a);
    MulMono(y * w, out * (p2 * a), p1, p1);
    assert (out * (p2 * a)) * p1 == (out * (p1 * a)) * p2 by {
      Shuffle(out, p2 * a, p1, 1);
      Shuffle(p2, a, p1, 1);
      Assoc(out, p2 * a, p1);
      Assoc(out, p1 * a, p2);
      Shuffle(p1, a, p2, 1);
    }
    MulMono(net1, amount, w, w);
    MulMono(out * (p1 * a), amount * w, p2, p2);
    Shuffle(y, w, p1, 1);
    Shuffle(amount, w, p2, 1);
    CancelFactor(y * p1, amount * p2, w);
  }
}
