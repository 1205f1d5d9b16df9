/** The step price of one pricing vector.

    Growth is linear in the end time of the current step, although the program's
    comments speak of compound interest; the rate is scaled by 10^6, 1_000_000 being 100%. */
module Pricing {
  import opened Machine
  import opened FixedPoint

  const SECONDS_IN_YEAR: u128 := 31_536_000
  const APR_SCALE: u128 := 1_000_000
  const YEAR_SCALE: nat := 31_536_000_000_000

  /** One pricing vector of an offer; an empty slot holds EMPTY_VECTOR. */
  datatype OfferVector = OfferVector(
    startTime: u64,
    baseTime: u64,
    basePrice: u64,
    apr: u64,
    priceFixDuration: u64)

  const EMPTY_VECTOR := OfferVector(0, 0, 0, 0, 0)

  /** `calculate_vector_price`: base_price * (1 + apr * elapsed / year), rounded down. */
  function CalculateVectorPrice(apr: u64, basePrice: u64, elapsed: u64): Result<u64> {
    var factorDen: u128 := APR_SCALE * SECONDS_IN_YEAR;
    var yPart :- CheckedMul128(apr, elapsed, Overflow);
    var factorNum :- CheckedAdd128(factorDen, yPart, Overflow);
    var product :- CheckedMul128(basePrice, factorNum, Overflow);
    var price := Quotient(product, factorDen);
    if price > U64_MAX then Err(Overflow) else Ok(price)
  }

  /** `calculate_step_price_at`: the price of v at `time`, snapped to the end of the step. */
  function CalculateStepPriceAt(v: OfferVector, time: u64): Result<u64> {
    if v.baseTime > time then
      Err(NoActiveVector)
    else if v.priceFixDuration == 0 then
      Err(Panic)
    else
      var step := Quotient(time - v.baseTime, v.priceFixDuration);
      var next :- CheckedAdd64(step, 1, Panic);
      var stepEnd :- CheckedMul64(next, v.priceFixDuration, Overflow);
      CalculateVectorPrice(v.apr, v.basePrice, stepEnd)
  }

  // ---------------------------------------------------------------- unbounded reference

  /** The largest integer below exact linear growth after e seconds, with no word size. */
  function LinearPrice(v: OfferVector, e: nat): nat {
    QuotientBounds(v.basePrice * (YEAR_SCALE + v.apr * e), YEAR_SCALE);
    (v.basePrice * (YEAR_SCALE + v.apr * e)) / YEAR_SCALE
  }

  /** The end of the step that `time` falls in, counted from the base time. */
  function StepEnd(v: OfferVector, time: nat): nat
    requires v.baseTime <= time && v.priceFixDuration > 0
  {
    QuotientBounds(time - v.baseTime, v.priceFixDuration);
    ((time - v.baseTime) / v.priceFixDuration + 1) * v.priceFixDuration
  }

  lemma StepEndBounds(v: OfferVector, time: nat)
    requires v.baseTime <= time && v.priceFixDuration > 0
    ensures time - v.baseTime < StepEnd(v, time) <= time - v.baseTime + v.priceFixDuration
  {
    QuotientBounds(time - v.baseTime, v.priceFixDuration);
  }

  /** Linear growth lies within one unit above its floor. */
  lemma LinearPriceIsFloor(v: OfferVector, e: nat)
    ensures LinearPrice(v, e) * YEAR_SCALE <= v.basePrice * (YEAR_SCALE + v.apr * e)
    ensures v.basePrice * (YEAR_SCALE + v.apr * e) < (LinearPrice(v, e) + 1) * YEAR_SCALE
  {
    QuotientBounds(v.basePrice * (YEAR_SCALE + v.apr * e), YEAR_SCALE);
  }

  lemma LinearPriceMonotone(v: OfferVector, e1: nat, e2: nat)
    requires e1 <= e2
    ensures v.basePrice <= LinearPrice(v, e1) <= LinearPrice(v, e2)
  {
    LinearPriceIsFloor(v, e1);
    LinearPriceIsFloor(v, e2);
    MulMono(v.apr, v.apr, e1, e2);
    MulMono(v.basePrice, v.basePrice, YEAR_SCALE, YEAR_SCALE + v.apr * e1);
    MulMono(v.basePrice, v.basePrice, YEAR_SCALE + v.apr * e1, YEAR_SCALE + v.apr * e2);
    FloorAbove(v.basePrice, v.basePrice * (YEAR_SCALE + v.apr * e1), YEAR_SCALE, LinearPrice(v, e1));
    FloorAbove(LinearPrice(v, e1), v.basePrice * (YEAR_SCALE + v.apr * e2), YEAR_SCALE, LinearPrice(v, e2));
  }

  /** One whole step raises the price by at least one unit as soon as
      base_price * apr * D >= 10^6 * 31536000. */
  lemma LinearPriceRises(v: OfferVector, e: nat, d: nat)
    requires v.basePrice * v.apr * d >= YEAR_SCALE
    ensures LinearPrice(v, e) < LinearPrice(v, e + d)
  {
    LinearPriceIsFloor(v, e);
    LinearPriceIsFloor(v, e + d);
    var p, q := v.basePrice * (YEAR_SCALE + v.apr * e), v.basePrice * (YEAR_SCALE + v.apr * (e + d));
    assert q == p + v.basePrice * v.apr * d by {
      assert v.apr * (e + d) == v.apr * e + v.apr * d;
      Assoc(v.basePrice, v.apr, d);
    }
    FloorAbove(LinearPrice(v, e) + 1, q, YEAR_SCALE, LinearPrice(v, e + d));
  }

  /** The 128-bit steps never bind: the call fails exactly when the floored value
      itself does not fit 64 bits. */
  lemma VectorPriceExact(v: OfferVector, e: u64)
    ensures CalculateVectorPrice(v.apr, v.basePrice, e)
         == if LinearPrice(v, e) <= U64_MAX then Ok(LinearPrice(v, e)) else Err(Overflow)
  {
    MulMono(v.apr, U64_MAX, e, U64_MAX);
    var num := v.basePrice * (YEAR_SCALE + v.apr * e);
    assert num >= 0 by { MulMono(0, v.basePrice, 0, YEAR_SCALE + v.apr * e); }
    LinearPriceIsFloor(v, e);
    assert APR_SCALE * SECONDS_IN_YEAR == YEAR_SCALE;
    if num <= U128_MAX {
      SameQuotient(num, YEAR_SCALE);
    }
  }

  lemma SameQuotient(a: u128, d: u128)
    requires d > 0
    ensures Quotient(a, d) == a / d
  {
  }

  /** When a price exists at all, and what it then is. */
  ghost predicate PriceDefined(v: OfferVector, time: nat) {
    && v.baseTime <= time
    && v.priceFixDuration > 0
    && StepEnd(v, time) <= U64_MAX
    && LinearPrice(v, StepEnd(v, time)) <= U64_MAX
  }

  /** Exact success condition of the step price, and its exact value. */
  lemma StepPriceExact(v: OfferVector, time: u64)
    ensures CalculateStepPriceAt(v, time).Ok? <==> PriceDefined(v, time)
    ensures PriceDefined(v, time) ==> CalculateStepPriceAt(v, time) == Ok(LinearPrice(v, StepEnd(v, time)))
    ensures v.priceFixDuration > 0 ==>
              (CalculateStepPriceAt(v, time) == Err(NoActiveVector) <==> time < v.baseTime)
  {
    if v.baseTime <= time && v.priceFixDuration > 0 {
      SameQuotient(time - v.baseTime, v.priceFixDuration);
      var step := Quotient(time - v.baseTime, v.priceFixDuration);
      MulMono(step + 1, step + 1, 1, v.priceFixDuration);
      if StepEnd(v, time) <= U64_MAX {
        VectorPriceExact(v, StepEnd(v, time));
      }
    }
  }

  /** A price that exists existed at every earlier time from the base time on, never fell,
      starts at or above the base price, and stays between linear growth now and linear
      growth one step ahead. */
  lemma StepPriceSandwich(v: OfferVector, t1: u64, t2: u64)
    requires v.baseTime <= t1 <= t2 && CalculateStepPriceAt(v, t2).Ok?
    ensures CalculateStepPriceAt(v, t1).Ok?
    ensures v.basePrice <= CalculateStepPriceAt(v, t1).value <= CalculateStepPriceAt(v, t2).value
    ensures LinearPrice(v, t2 - v.baseTime) <= CalculateStepPriceAt(v, t2).value
    ensures CalculateStepPriceAt(v, t2).value <= LinearPrice(v, t2 - v.baseTime + v.priceFixDuration)
  {
    StepPriceExact(v, t1);
    StepPriceExact(v, t2);
    StepEndMonotone(v, t1, t2);
    StepEndBounds(v, t2);
    LinearPriceMonotone(v, StepEnd(v, t1), StepEnd(v, t2));
    LinearPriceMonotone(v, t2 - v.baseTime, StepEnd(v, t2));
    LinearPriceMonotone(v, StepEnd(v, t2), t2 - v.baseTime + v.priceFixDuration);
  }

  lemma StepEndMonotone(v: OfferVector, t1: nat, t2: nat)
    requires v.baseTime <= t1 <= t2 && v.priceFixDuration > 0
    ensures StepEnd(v, t1) <= StepEnd(v, t2)
  {
    var d := v.priceFixDuration;
    QuotientBounds(t1 - v.baseTime, d);
    QuotientBounds(t2 - v.baseTime, d);
    FloorAbove((t1 - v.baseTime) / d, t2 - v.baseTime, d, (t2 - v.baseTime) / d);
    MulLe((t1 - v.baseTime) / d + 1, (t2 - v.baseTime) / d + 1, d);
  }

  /** All times before the end of the current step share that step; the end starts the next. */
  lemma StepConstantUntilEnd(v: OfferVector, now: nat, t: nat)
    requires v.baseTime <= now <= t && v.priceFixDuration > 0
    ensures t < v.baseTime + StepEnd(v, now) ==> StepEnd(v, t) == StepEnd(v, now)
    ensures t == v.baseTime + StepEnd(v, now) ==> StepEnd(v, t) == StepEnd(v, now) + v.priceFixDuration
  {
    var d := v.priceFixDuration;
    var q, q' := (now - v.baseTime) / d, (t - v.baseTime) / d;
    StepEndMonotone(v, now, t);
    QuotientBounds(t - v.baseTime, d);
    if t < v.baseTime + StepEnd(v, now) {
      assert q' * d < (q + 1) * d;
      FloorAbove(q', q * d + d - 1, d, q);
      MulLe(q' + 1, q + 1, d);
    } else if t == v.baseTime + StepEnd(v, now) {
      assert q' * d <= (q + 1) * d < q' * d + d;
      ExactMultiple(q + 1, q', d);
      assert (q + 2) * d == (q + 1) * d + d;
    }
  }

  lemma ExactMultiple(a: nat, b: nat, d: nat)
    requires d > 0 && b * d <= a * d < b * d + d
    ensures a == b
  {
    if b < a {
      MulLe(b + 1, a, d);
      assert false;
    } else if a < b {
      MulLe(a + 1, b, d);
      assert false;
    }
  }
}
