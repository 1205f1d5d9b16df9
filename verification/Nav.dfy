/** The read-only price queries: NAV with its next change, and the NAV adjustment. */
module Nav {
  import opened Machine
  import opened FixedPoint
  import opened Pricing
  import opened Schedule

  datatype NavInfo = NavInfo(price: u64, nextPriceChange: u64)

  /** `get_nav`: the current price and the time of the next possible change. */
  function GetNav(vs: seq<OfferVector>, now: u64): Result<NavInfo> {
    NavFrom(FindActiveVectorAt(vs, now), FindNextVectorAfter(vs, now), now)
  }

  function NavFrom(active: Result<OfferVector>, next: Option<OfferVector>, now: u64): Result<NavInfo> {
    var v :- active;
    var price :- CalculateStepPriceAt(v, now);
    var elapsed := if v.baseTime <= now then now - v.baseTime else 0;
    if v.priceFixDuration == 0 then
      Err(Panic)
    else
      var nextStep := Quotient(elapsed, v.priceFixDuration) + 1;
      var span := nextStep * v.priceFixDuration;
      if nextStep > U64_MAX then
        Err(Panic)
      else if span > U64_MAX || v.baseTime + span > U64_MAX then
        Err(Overflow)
      else
        match next
        case Some(w) => Ok(NavInfo(price, Min(v.baseTime + span, w.startTime)))
        case None => Ok(NavInfo(price, v.baseTime + span))
  }

  /** `d as i64` */
  function AsI64(d: u64): int {
    if d < 0x8000_0000_0000_0000 then d else d - 0x1_0000_0000_0000_0000
  }

  /** The signed difference of two prices, as the program casts and negates it. */
  function SignedDifference(current: u64, previous: u64): Result<int> {
    if current >= previous then
      Ok(AsI64(current - previous))
    else
      var d := AsI64(previous - current);
      if d == -0x8000_0000_0000_0000 then Err(Panic) else Ok(-d)
  }

  /** The adjustment from the price at a vector's start and, if there was a vector before
      it, that vector's price at the same time. */
  function Jump(current: Result<u64>, previous: Option<Result<u64>>): Result<int> {
    var c :- current;
    match previous
    case Some(priced) =>
      var p :- priced;
      SignedDifference(c, p)
    case None => Ok(AsI64(c))
  }

  /** `get_nav_adjustment`: the price jump at the start of the active vector. */
  function GetNavAdjustment(vs: seq<OfferVector>, now: u64): Result<int> {
    var v :- FindActiveVectorAt(vs, now);
    AdjustmentFrom(v, FindPreviousVector(vs, v.startTime))
  }

  function AdjustmentFrom(v: OfferVector, previous: Option<OfferVector>): Result<int> {
    Jump(CalculateStepPriceAt(v, v.startTime),
         match previous
         case Some(p) => Some(CalculateStepPriceAt(p, v.startTime))
         case None => None)
  }

  // ---------------------------------------------------------------- the next price change

  /** The end of the current step as a time, or the next vector's start if that comes first. */
  ghost function NextChange(vs: seq<OfferVector>, v: OfferVector, now: u64): int
    requires v.baseTime <= now && v.priceFixDuration > 0
  {
    var stepEnd := v.baseTime + StepEnd(v, now);
    match FindNextVectorAfter(vs, now)
    case Some(next) => Min(stepEnd, next.startTime)
    case None => stepEnd
  }

  /** When `get_nav` answers, and what. An active vector whose base time lies ahead has no
      price: the call then reports that no vector is active. */
  lemma GetNavExact(vs: seq<OfferVector>, now: u64)
    requires WellFormed(vs)
    ensures GetNav(vs, now).Ok? <==>
              && LatestUpTo(vs, now).Some?
              && var v := LatestUpTo(vs, now).value;
              && PriceDefined(v, now) && v.baseTime + StepEnd(v, now) <= U64_MAX
    ensures GetNav(vs, now).Ok? ==>
              var v := LatestUpTo(vs, now).value;
              GetNav(vs, now).value == NavInfo(LinearPrice(v, StepEnd(v, now)), NextChange(vs, v, now))
    ensures GetNav(vs, now) == Err(NoActiveVector) <==>
              LatestUpTo(vs, now).None? || now < LatestUpTo(vs, now).value.baseTime
  {
    if LatestUpTo(vs, now).Some? {
      var v := LatestUpTo(vs, now).value;
      assert SlotOk(v);
      StepPriceExact(v, now);
      if v.baseTime <= now {
        SameQuotient(now - v.baseTime, v.priceFixDuration);
      }
    }
  }

  /** Where the same vector is active, in the same step, with the same successor, `get_nav`
      gives the same answer. */
  lemma NavDetermined(vs: seq<OfferVector>, now: u64, t: u64, v: OfferVector)
    requires WellFormed(vs) && v.baseTime <= now <= t && v.priceFixDuration > 0
    requires LatestUpTo(vs, now) == LatestUpTo(vs, t) == Some(v)
    requires StepEnd(v, t) == StepEnd(v, now) && FindNextVectorAfter(vs, t) == FindNextVectorAfter(vs, now)
    ensures GetNav(vs, now).Ok? ==> GetNav(vs, t) == GetNav(vs, now)
  {
    if GetNav(vs, now).Ok? {
      GetNavExact(vs, now);
      assert PriceDefined(v, t) && NextChange(vs, v, t) == NextChange(vs, v, now);
      GetNavExact(vs, t);
    }
  }

  lemma StillActive(vs: seq<OfferVector>, now: u64, t: u64)
    requires WellFormed(vs) && now <= t && LatestUpTo(vs, now).Some?
    requires FindNextVectorAfter(vs, now).Some? ==> t < FindNextVectorAfter(vs, now).value.startTime
    ensures LatestUpTo(vs, t) == LatestUpTo(vs, now)
    ensures FindNextVectorAfter(vs, t) == FindNextVectorAfter(vs, now)
  {
    forall w | w in vs && Started(w, t)
      ensures Started(w, now)
    {
      if now < w.startTime {
        NothingStartsBefore(vs, now, w);
      }
    }
    LatestIs(vs, t, LatestUpTo(vs, now).value);
    if FindNextVectorAfter(vs, now).Some? {
      NextIs(vs, t, FindNextVectorAfter(vs, now).value);
    }
  }

  lemma NothingStartsBefore(vs: seq<OfferVector>, now: u64, w: OfferVector)
    requires w in vs && now < w.startTime
    ensures FindNextVectorAfter(vs, now).Some? && FindNextVectorAfter(vs, now).value.startTime <= w.startTime
  {
  }

  lemma PositiveVectorNeverAborts(v: OfferVector, next: Option<OfferVector>, t: u64)
    requires v.baseTime > 0 && v.priceFixDuration > 0
    ensures NavFrom(Ok(v), next, t) != Err(Panic)
    ensures NavFrom(Ok(v), next, t).Err? ==>
              NavFrom(Ok(v), next, t).error == NoActiveVector || NavFrom(Ok(v), next, t).error == Overflow
  {
    if v.baseTime <= t {
      var step := Quotient(t - v.baseTime, v.priceFixDuration);
      assert step + 1 <= U64_MAX;
      if 0 <= (step + 1) * v.priceFixDuration <= U64_MAX {
        VectorPriceExact(v, (step + 1) * v.priceFixDuration);
      }
    }
  }

  /** From now until the reported next change nothing moves: at every time in between
      `get_nav` gives the same price and reports the same next change. */
  lemma NavConstantUntilNextChange(vs: seq<OfferVector>, now: u64, t: u64)
    requires WellFormed(vs) && now <= t
    ensures GetNav(vs, now).Ok? && t < GetNav(vs, now).value.nextPriceChange ==>
              && GetNav(vs, t) == GetNav(vs, now)
              && FindActiveVectorAt(vs, t) == FindActiveVectorAt(vs, now)
  {
    if GetNav(vs, now).Ok? && t < GetNav(vs, now).value.nextPriceChange {
      var v := LatestUpTo(vs, now).value;
      assert v.baseTime <= now && v.priceFixDuration > 0 && t < NextChange(vs, v, now) by {
        GetNavExact(vs, now);
      }
      StillActive(vs, now, t);
      StepConstantUntilEnd(v, now, t);
      NavDetermined(vs, now, t, v);
    }
  }

  /** Entering the next step never lowers a price, and raises it as soon as one step of
      growth is worth a unit. */
  lemma PriceAtStepBoundary(v: OfferVector, now: u64, c: u64)
    requires v.baseTime <= now && v.priceFixDuration > 0 && c == v.baseTime + StepEnd(v, now)
    ensures var before, after := CalculateStepPriceAt(v, now), CalculateStepPriceAt(v, c);
            before.Ok? && after.Ok? ==>
              && before.value <= after.value
              && (v.basePrice * v.apr * v.priceFixDuration >= YEAR_SCALE ==> before.value < after.value)
  {
    StepEndBounds(v, now);
    StepConstantUntilEnd(v, now, c);
    StepPriceExact(v, now);
    StepPriceExact(v, c);
    LinearPriceMonotone(v, StepEnd(v, now), StepEnd(v, c));
    if v.basePrice * v.apr * v.priceFixDuration >= YEAR_SCALE {
      LinearPriceRises(v, StepEnd(v, now), v.priceFixDuration);
    }
  }

  lemma NavPrice(vs: seq<OfferVector>, now: u64)
    ensures GetNav(vs, now).Ok? ==>
              && LatestUpTo(vs, now).Some?
              && CalculateStepPriceAt(LatestUpTo(vs, now).value, now) == Ok(GetNav(vs, now).value.price)
  {
  }

  /** At the reported time either another vector takes over there and then, or the same vector
      enters its next step, which is when `PriceAtStepBoundary` says what its price does. */
  lemma WhatHappensAtNextChange(vs: seq<OfferVector>, now: u64)
    requires WellFormed(vs)
    ensures GetNav(vs, now).Ok? ==>
              var c := GetNav(vs, now).value.nextPriceChange;
              var v := LatestUpTo(vs, now).value;
              && now < c
              && FindActiveVectorAt(vs, c).Ok?
              && var w := FindActiveVectorAt(vs, c).value;
              && (w.startTime == c || (w == v && v.baseTime <= now && v.priceFixDuration > 0
                                       && c == v.baseTime + StepEnd(v, now)))
  {
    if GetNav(vs, now).Ok? {
      var v, c := LatestUpTo(vs, now).value, GetNav(vs, now).value.nextPriceChange;
      assert v.baseTime <= now && v.priceFixDuration > 0 && c == NextChange(vs, v, now) by {
        GetNavExact(vs, now);
      }
      StepEndBounds(v, now);
      var next := FindNextVectorAfter(vs, now);
      if next.Some? && next.value.startTime == c {
        LatestIs(vs, c, next.value);
      } else {
        StillActive(vs, now, c);
      }
    }
  }

  // ---------------------------------------------------------------- adjustments

  /** The reported difference is the true one exactly when it is below 2^63 in size. */
  lemma SignedDifferenceExact(current: u64, previous: u64)
    ensures SignedDifference(current, previous) == Ok(current - previous)
       <==> -0x8000_0000_0000_0000 < current - previous < 0x8000_0000_0000_0000
  {
  }

  /** r is the difference as far as 64 signed bits can tell. */
  ghost predicate WrapsTo(r: int, difference: int) {
    && -0x8000_0000_0000_0000 <= r < 0x8000_0000_0000_0000
    && (r == difference || r == difference - 0x1_0000_0000_0000_0000 || r == difference + 0x1_0000_0000_0000_0000)
  }

  lemma JumpExact(current: Result<u64>, previous: Option<Result<u64>>)
    ensures Jump(current, previous).Ok? <==>
              && current.Ok?
              && (previous.Some? ==>
                    previous.value.Ok? && current.value - previous.value.value != -0x8000_0000_0000_0000)
    ensures Jump(current, previous).Ok? ==>
              WrapsTo(Jump(current, previous).value,
                      current.value - match previous case Some(p) => p.value case None => 0)
  {
  }

  /** The adjustment at any time: the price of the active vector at its own start, less the price
      there and then of the vector before it, if any. It is reported exactly when those prices
      exist and the price does not fall by exactly 2^63. */
  lemma GetNavAdjustmentExact(vs: seq<OfferVector>, t: u64)
    ensures LatestUpTo(vs, t).None? ==> GetNavAdjustment(vs, t) == Err(NoActiveVector)
    ensures LatestUpTo(vs, t).Some? ==>
              var v := LatestUpTo(vs, t).value;
              var s := v.startTime;
              var before := LatestUpTo(vs, s - 1);
              && (GetNavAdjustment(vs, t).Ok? <==>
                    && PriceDefined(v, s)
                    && (before.Some? ==>
                          && PriceDefined(before.value, s)
                          && LinearPrice(v, StepEnd(v, s)) - LinearPrice(before.value, StepEnd(before.value, s))
                             != -0x8000_0000_0000_0000))
              && (GetNavAdjustment(vs, t).Ok? ==>
                    WrapsTo(GetNavAdjustment(vs, t).value,
                            LinearPrice(v, StepEnd(v, s))
                            - if before.Some? then LinearPrice(before.value, StepEnd(before.value, s)) else 0))
  {
    if LatestUpTo(vs, t).Some? {
      var v := LatestUpTo(vs, t).value;
      var before := LatestUpTo(vs, v.startTime - 1);
      StepPriceExact(v, v.startTime);
      if before.Some? {
        StepPriceExact(before.value, v.startTime);
        JumpExact(CalculateStepPriceAt(v, v.startTime), Some(CalculateStepPriceAt(before.value, v.startTime)));
      } else {
        JumpExact(CalculateStepPriceAt(v, v.startTime), None);
      }
    }
  }

  /** So it is the same at every time at which the same vector is active. */
  lemma AdjustmentConstantInWindow(vs: seq<OfferVector>, t: u64)
    requires WellFormed(vs) && LatestUpTo(vs, t).Some?
    ensures GetNavAdjustment(vs, t) == GetNavAdjustment(vs, LatestUpTo(vs, t).value.startTime)
  {
    var v := LatestUpTo(vs, t).value;
    LatestIs(vs, v.startTime, v);
  }

  /** Strictly increasing, non-zero start times. */
  ghost predicate Sorted(log: seq<OfferVector>) {
    && (forall i :: 0 <= i < |log| ==> log[i].startTime != 0)
    && forall i, j :: 0 <= i < j < |log| ==> log[i].startTime < log[j].startTime
  }

  /** t lies between the start of the k-th vector and the next start. */
  ghost predicate InWindow(log: seq<OfferVector>, k: nat, t: int) {
    k < |log| && log[k].startTime <= t && (k + 1 < |log| ==> t < log[k + 1].startTime)
  }

  lemma ActiveInWindow(log: seq<OfferVector>, k: nat, t: int)
    requires Sorted(log) && InWindow(log, k, t)
    ensures LatestUpTo(log, t) == Some(log[k])
  {
    forall i | k < i < |log|
      ensures t < log[i].startTime
    {
      assert i == k + 1 || log[k + 1].startTime < log[i].startTime;
    }
    LatestIs(log, t, log[k]);
  }

  /** The adjustment reported while the k-th vector is active. */
  ghost function AdjustmentAt(log: seq<OfferVector>, k: nat): Result<int>
    requires k < |log|
  {
    GetNavAdjustment(log, log[k].startTime)
  }

  /** The price at time t under the k-th vector, or 0. */
  ghost function PriceUnder(log: seq<OfferVector>, k: nat, t: u64): int
    requires k < |log|
  {
    match CalculateStepPriceAt(log[k], t)
    case Ok(price) => price
    case Err(_) => 0
  }

  /** The k-th adjustment, the price it starts from, and the price just before it, or 0. */
  ghost function Adjustments(log: seq<OfferVector>): nat -> int {
    (k: nat) => if k < |log| && AdjustmentAt(log, k).Ok? then AdjustmentAt(log, k).value else 0
  }

  ghost function StartPrices(log: seq<OfferVector>): nat -> int {
    (k: nat) => if k < |log| then PriceUnder(log, k, log[k].startTime) else 0
  }

  ghost function PricesBefore(log: seq<OfferVector>): nat -> int {
    (k: nat) => if 0 < k < |log| then PriceUnder(log, k - 1, log[k].startTime) else 0
  }

  /** The k-th adjustment is reported, between prices below 2^63. */
  ghost predicate ReportedAt(log: seq<OfferVector>, k: nat) {
    && k < |log| && AdjustmentAt(log, k).Ok?
    && StartPrices(log)(k) < 0x8000_0000_0000_0000
    && PricesBefore(log)(k) < 0x8000_0000_0000_0000
  }

  /** All adjustments from the j-th to the k-th are. */
  ghost predicate Reported(log: seq<OfferVector>, j: nat, k: nat) {
    j <= k < |log| && forall i :: j <= i <= k ==> ReportedAt(log, i)
  }

  /** f(j) + ... + f(k) */
  ghost function SumOf(f: nat -> int, j: nat, k: nat): int
    requires j <= k
    decreases k
  {
    f(k) + if k == j then 0 else SumOf(f, j, k - 1)
  }

  /** Growth inside the windows of the j-th vector and all later ones before the k-th. */
  ghost function GrowthOf(start: nat -> int, before: nat -> int, j: nat, k: nat): int
    requires j <= k
    decreases k
  {
    if k == j then 0 else GrowthOf(start, before, j, k - 1) + before(k) - start(k - 1)
  }

  lemma AdjustmentInWindow(log: seq<OfferVector>, k: nat)
    requires Sorted(log) && k < |log|
    ensures AdjustmentAt(log, k)
         == Jump(CalculateStepPriceAt(log[k], log[k].startTime),
                 if k == 0 then None else Some(CalculateStepPriceAt(log[k - 1], log[k].startTime)))
  {
    var s := log[k].startTime;
    assert FindActiveVectorAt(log, s) == Ok(log[k]) by {
      ActiveInWindow(log, k, s);
    }
    assert FindPreviousVector(log, s) == if k == 0 then None else Some(log[k - 1]) by {
      if k > 0 {
        ActiveInWindow(log, k - 1, s - 1);
      }
    }
  }

  lemma JumpAtStart(log: seq<OfferVector>, k: nat)
    requires Sorted(log) && ReportedAt(log, k)
    ensures AdjustmentAt(log, k) == Ok(StartPrices(log)(k) - PricesBefore(log)(k))
  {
    AdjustmentInWindow(log, k);
    var current := CalculateStepPriceAt(log[k], log[k].startTime);
    var previous := if k == 0 then None else Some(CalculateStepPriceAt(log[k - 1], log[k].startTime));
    assert current.Ok? ==> StartPrices(log)(k) == current.value;
    assert previous.Some? && previous.value.Ok? ==> PricesBefore(log)(k) == previous.value.value;
    JumpExact(current, previous);
  }

  /** At every time in its window, a vector's adjustment is its price at its start less the
      previous vector's price at that start. */
  lemma AdjustmentIsJump(log: seq<OfferVector>, k: nat, t: u64)
    requires Sorted(log) && ReportedAt(log, k) && InWindow(log, k, t)
    ensures GetNavAdjustment(log, t) == Ok(StartPrices(log)(k) - PricesBefore(log)(k))
  {
    ActiveInWindow(log, k, t);
    ActiveInWindow(log, k, log[k].startTime);
    JumpAtStart(log, k);
  }

  lemma {:induction false} JumpsAddUp(adjustment: nat -> int, start: nat -> int, before: nat -> int, j: nat, k: nat)
    requires j <= k && forall i :: j <= i <= k ==> adjustment(i) == start(i) - before(i)
    ensures start(k) == before(j) + SumOf(adjustment, j, k) + GrowthOf(start, before, j, k)
    decreases k
  {
    if k > j {
      JumpsAddUp(adjustment, start, before, j, k - 1);
    }
  }

  /** The price history telescopes from any vector on: the price at any time is the price just
      before the j-th vector took over, plus all adjustments reported since, plus the growth
      inside the windows since, the current one included. From the first vector on, the price
      before is 0. A vector that starts before its base time reports no adjustment; the sum
      starts afresh behind it. */
  lemma AdjustmentsTelescope(log: seq<OfferVector>, j: nat, k: nat, t: u64)
    requires Sorted(log) && Reported(log, j, k) && InWindow(log, k, t)
    ensures GetNav(log, t).Ok? ==>
              GetNav(log, t).value.price
              == PricesBefore(log)(j) + SumOf(Adjustments(log), j, k)
                 + GrowthOf(StartPrices(log), PricesBefore(log), j, k)
                 + (PriceUnder(log, k, t) - StartPrices(log)(k))
  {
    assert StartPrices(log)(k) == PricesBefore(log)(j) + SumOf(Adjustments(log), j, k)
                                  + GrowthOf(StartPrices(log), PricesBefore(log), j, k) by {
      forall i | j <= i <= k
        ensures Adjustments(log)(i) == StartPrices(log)(i) - PricesBefore(log)(i)
      {
        JumpAtStart(log, i);
      }
      JumpsAddUp(Adjustments(log), StartPrices(log), PricesBefore(log), j, k);
    }
    assert GetNav(log, t).Ok? ==> GetNav(log, t).value.price == PriceUnder(log, k, t) by {
      ActiveInWindow(log, k, t);
      NavPrice(log, t);
    }
  }
}
