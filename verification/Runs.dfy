/** Whole runs of the store instructions under an advancing clock, side by side with the
    log that never evicts. */
module Runs {
  import opened Machine
  import opened Pricing
  import opened Schedule
  import opened VectorStore
  import opened Eviction
  import opened Capacity
  import opened Nav

  datatype Op =
    | Tick(to: u64)
    | Add(input: VectorInput)
    | Delete(startTime: u64)
    | DeleteAll

  datatype World = World(slots: seq<OfferVector>, log: seq<OfferVector>, now: u64)

  function EmptySlots(n: nat): (r: seq<OfferVector>)
    ensures |r| == n && forall v :: v in r ==> v == EMPTY_VECTOR
  {
    seq(n, _ => EMPTY_VECTOR)
  }

  /** A failing instruction is rolled back. */
  function Commit(r: Result<seq<OfferVector>>, before: seq<OfferVector>): seq<OfferVector> {
    if r.Ok? then r.value else before
  }

  /** Each side runs its own code on its own data; only an add that the slots turn away for
      space is withheld from the log. The clock never goes back. */
  function Step(w: World, op: Op): World {
    match op
    case Tick(to) => w.(now := Max(w.now, to))
    case Add(input) =>
      var r := AddVector(w.slots, input, w.now);
      if r == Err(TooManyVectors) then w
      else World(Commit(r, w.slots), Commit(LogAdd(w.log, input, w.now), w.log), w.now)
    case Delete(s) =>
      World(Commit(DeleteVector(w.slots, s, w.now), w.slots), Commit(LogDelete(w.log, s, w.now), w.log), w.now)
    case DeleteAll => World(EmptySlots(|w.slots|), [], w.now)
  }

  function Run(ops: seq<Op>): World {
    if ops == [] then World(EmptySlots(MAX_VECTORS), [], 0) else Step(Run(ops[..|ops| - 1]), ops[|ops| - 1])
  }

  ghost predicate Consistent(w: World) {
    |w.slots| == MAX_VECTORS && Refines(w.slots, w.log, w.now) && Sorted(w.log)
  }

  // ---------------------------------------------------------------- the two sides agree on every outcome

  /** An add that is not turned away for space succeeds on the slots exactly when it succeeds
      on the log, and fails with the same error. */
  lemma AddOutcomesAgree(w: World, input: VectorInput)
    requires Consistent(w) && AddVector(w.slots, input, w.now) != Err(TooManyVectors)
    ensures AddVector(w.slots, input, w.now).Ok? <==> LogAdd(w.log, input, w.now).Ok?
    ensures AddVector(w.slots, input, w.now).Err? ==>
              LogAdd(w.log, input, w.now) == Err(AddVector(w.slots, input, w.now).error)
  {
    var v := NewVector(input, w.now);
    ValidationAgrees(w.slots, w.log, w.now, v, w.now);
    if ValidateInputs(w.slots, v, w.now).Ok? && v.startTime > 0 {
      CleaningKeeps(w.slots, v, w.now);
    }
  }

  lemma DeleteOutcomesAgree(w: World, s: u64)
    requires Consistent(w)
    ensures DeleteVector(w.slots, s, w.now).Ok? <==> LogDelete(w.log, s, w.now).Ok?
    ensures DeleteVector(w.slots, s, w.now).Err? ==>
              LogDelete(w.log, s, w.now) == Err(DeleteVector(w.slots, s, w.now).error)
  {
    if s > w.now {
      forall v | v in w.log && v.startTime == s
        ensures v in w.slots
      {
        Kept(w.slots, w.log, w.now, v, s);
      }
      if FindVectorIndex(w.slots, s).Some? {
        assert w.slots[FindVectorIndex(w.slots, s).value] in w.log;
      }
    }
  }

  // ---------------------------------------------------------------- invariant over all runs

  lemma SortedAppend(log: seq<OfferVector>, v: OfferVector)
    requires Sorted(log) && v.startTime != 0
    requires forall w :: w in log ==> w.startTime < v.startTime
    ensures Sorted(log + [v])
  {
    forall i | 0 <= i < |log|
      ensures log[i].startTime < v.startTime
    {
      assert log[i] in log;
    }
  }

  lemma {:induction false} SortedWithout(log: seq<OfferVector>, s: u64)
    requires Sorted(log)
    ensures Sorted(Without(log, s))
  {
    if log != [] {
      var init, v := log[..|log| - 1], log[|log| - 1];
      SortedWithout(init, s);
      if v.startTime != s {
        forall w | w in Without(init, s)
          ensures w.startTime < v.startTime
        {
          var i :| 0 <= i < |init| && init[i] == w;
          assert log[i].startTime < log[|log| - 1].startTime;
        }
        SortedAppend(Without(init, s), v);
      }
    }
  }

  lemma LogEndsBefore(log: seq<OfferVector>, input: VectorInput, now: u64)
    requires LogAdd(log, input, now).Ok? && forall w :: w in log ==> w.startTime != 0
    ensures NewVector(input, now).startTime != 0
    ensures forall w :: w in log ==> w.startTime < NewVector(input, now).startTime
  {
  }

  lemma AddConsistent(w: World, input: VectorInput)
    requires Consistent(w) && AddVector(w.slots, input, w.now).Ok?
    ensures Consistent(World(AddVector(w.slots, input, w.now).value, w.log + [NewVector(input, w.now)], w.now))
    ensures LogAdd(w.log, input, w.now) == Ok(w.log + [NewVector(input, w.now)])
  {
    AddRefines(w.slots, w.log, w.now, input, w.now);
    LogEndsBefore(w.log, input, w.now);
    SortedAppend(w.log, NewVector(input, w.now));
  }

  lemma DeleteConsistent(w: World, s: u64)
    requires Consistent(w) && DeleteVector(w.slots, s, w.now).Ok?
    ensures Consistent(World(DeleteVector(w.slots, s, w.now).value, Without(w.log, s), w.now))
    ensures LogDelete(w.log, s, w.now) == Ok(Without(w.log, s))
  {
    DeleteRefines(w.slots, w.log, w.now, s, w.now);
    SortedWithout(w.log, s);
  }

  lemma StepKeepsConsistent(w: World, op: Op)
    requires Consistent(w)
    ensures Consistent(Step(w, op))
  {
    match op
    case Tick(to) =>
      TickRefines(w.slots, w.log, w.now, Max(w.now, to));
    case Add(input) =>
      var r := AddVector(w.slots, input, w.now);
      if r.Ok? {
        AddConsistent(w, input);
      } else if r != Err(TooManyVectors) {
        AddOutcomesAgree(w, input);
        assert Step(w, op) == w;
      }
    case Delete(s) =>
      if DeleteVector(w.slots, s, w.now).Ok? {
        DeleteConsistent(w, s);
      } else {
        DeleteOutcomesAgree(w, s);
        assert Step(w, op) == w;
      }
    case DeleteAll =>
  }

  lemma {:induction false} RunConsistent(ops: seq<Op>)
    ensures Consistent(Run(ops))
  {
    if ops != [] {
      RunConsistent(ops[..|ops| - 1]);
      StepKeepsConsistent(Run(ops[..|ops| - 1]), ops[|ops| - 1]);
    }
  }

  lemma QueriesAgree(w: World, t: u64)
    requires Consistent(w) && w.now <= t
    ensures FindActiveVectorAt(w.slots, t) == FindActiveVectorAt(w.log, t)
    ensures GetNav(w.slots, t) == GetNav(w.log, t)
    ensures GetNavAdjustment(w.slots, t) == GetNavAdjustment(w.log, t)
  {
    LookupsAgree(w.slots, w.log, w.now, t);
  }

  /** Eviction is invisible. After any run, at any time from the clock on, the ten slots and
      the log that forgot nothing have the same active vector, the same NAV, the same next
      price change and the same NAV adjustment. */
  lemma EvictionInvisible(ops: seq<Op>, t: u64)
    requires Run(ops).now <= t
    ensures var w := Run(ops);
            && FindActiveVectorAt(w.slots, t) == FindActiveVectorAt(w.log, t)
            && GetNav(w.slots, t) == GetNav(w.log, t)
            && GetNavAdjustment(w.slots, t) == GetNavAdjustment(w.log, t)
  {
    RunConsistent(ops);
    QueriesAgree(Run(ops), t);
  }

  /** So the price a live offer reports telescopes over its schedule, evicted vectors included,
      from any vector on whose later adjustments are all reported. */
  lemma LiveNavTelescopes(w: World, j: nat, k: nat, t: u64)
    requires Consistent(w) && w.now <= t
    requires Reported(w.log, j, k) && InWindow(w.log, k, t)
    ensures GetNav(w.slots, t).Ok? ==>
              GetNav(w.slots, t).value.price
              == PricesBefore(w.log)(j) + SumOf(Adjustments(w.log), j, k)
                 + GrowthOf(StartPrices(w.log), PricesBefore(w.log), j, k)
                 + (PriceUnder(w.log, k, t) - StartPrices(w.log)(k))
  {
    QueriesAgree(w, t);
    AdjustmentsTelescope(w.log, j, k, t);
  }

  /** No reachable offer makes `get_nav` divide by zero or overflow an unchecked operation:
      it answers, or reports NoActiveVector or Overflow; and a price it answers is never zero. */
  lemma NavNeverAborts(w: World, t: u64)
    requires Consistent(w)
    ensures var r := GetNav(w.slots, t);
            && (r.Err? ==> r.error == NoActiveVector || r.error == Overflow)
            && (r.Ok? ==> 0 < r.value.price && t < r.value.nextPriceChange)
  {
    var active := LatestUpTo(w.slots, t);
    if active.Some? {
      assert SlotOk(active.value);
      PositiveVectorNeverAborts(active.value, FindNextVectorAfter(w.slots, t), t);
    }
    if GetNav(w.slots, t).Ok? {
      WhatHappensAtNextChange(w.slots, t);
      NavPrice(w.slots, t);
      StepPriceSandwich(active.value, t, t);
    }
  }

  // ---------------------------------------------------------------- the timeline

  /** A successful add with start s leaves the active vector of every time in [now, s) alone;
      at every time from s on the active vector is the one the arguments describe. */
  lemma AddOverridesTimeline(w: World, input: VectorInput, t: u64)
    requires Consistent(w) && w.now <= t && AddVector(w.slots, input, w.now).Ok?
    ensures var s := match input.startTime case Some(x) => x case None => Max(w.now, input.baseTime);
            LatestUpTo(AddVector(w.slots, input, w.now).value, t)
            == if t < s then
                 LatestUpTo(w.slots, t)
               else
                 Some(OfferVector(s, input.baseTime, input.basePrice, input.apr, input.priceFixDuration))
  {
    var v, after := NewVector(input, w.now), AddVector(w.slots, input, w.now).value;
    AddConsistent(w, input);
    assert LatestUpTo(w.log + [v], t) == if t < v.startTime then LatestUpTo(w.log, t) else Some(v) by {
      LogEndsBefore(w.log, input, w.now);
      LatestOfAppended(w.log, v, t);
    }
    ActiveAgrees(w.slots, w.log, w.now, t);
    ActiveAgrees(after, w.log + [v], w.now, t);
  }

  /** An explicit start may precede the base time. The new vector is then active but has no
      price before its base time, and no adjustment ever. Without an explicit start neither
      can happen, as the start is then not before the base time. */
  lemma PricedFromBaseTimeOn(w: World, input: VectorInput, t: u64)
    requires Consistent(w) && w.now <= t && AddVector(w.slots, input, w.now).Ok?
    requires (match input.startTime case Some(x) => x case None => Max(w.now, input.baseTime)) <= t
    ensures var s := match input.startTime case Some(x) => x case None => Max(w.now, input.baseTime);
            var after := AddVector(w.slots, input, w.now).value;
            && FindActiveVectorAt(after, t)
               == Ok(OfferVector(s, input.baseTime, input.basePrice, input.apr, input.priceFixDuration))
            && (GetNav(after, t) == Err(NoActiveVector) <==> t < input.baseTime)
            && (s < input.baseTime ==> GetNavAdjustment(after, t) == Err(NoActiveVector))
            && (input.startTime.None? ==> input.baseTime <= t)
  {
    AddConsistent(w, input);
    AddOverridesTimeline(w, input, t);
    GetNavExact(AddVector(w.slots, input, w.now).value, t);
  }

  /** A new offer accepts any valid first vector. */
  lemma FirstAddSucceeds(input: VectorInput)
    requires StartTimeOf(input, 0) > 0
    requires input.baseTime > 0 && input.basePrice > 0 && input.priceFixDuration > 0
    ensures AddVector(Run([]).slots, input, 0).Ok?
    ensures Run([Add(input)]).slots == AddVector(Run([]).slots, input, 0).value && Run([Add(input)]).now == 0
  {
    RunConsistent([]);
    var w := Run([]);
    assert StartedBy(w.slots, 0) == {} && StartingAfter(w.slots, 0) == {};
    AddSucceedsIff(w.slots, input, 0);
    assert [Add(input)][..0] == [];
  }

  /** It does happen: one add with start 1 and base time 5 leaves time 1 with an active vector
      and no price. */
  lemma ActiveWithoutPrice()
    ensures exists ops, t ::
              && Run(ops).now <= t
              && FindActiveVectorAt(Run(ops).slots, t).Ok?
              && GetNav(Run(ops).slots, t) == Err(NoActiveVector)
  {
    var input := VectorInput(Some(1), 5, 7, 0, 3);
    FirstAddSucceeds(input);
    RunConsistent([]);
    PricedFromBaseTimeOn(Run([]), input, 1);
    assert FindActiveVectorAt(Run([Add(input)]).slots, 1).Ok?;
  }

  lemma LatestOfAppended(log: seq<OfferVector>, v: OfferVector, t: int)
    requires WellFormed(log + [v]) && v.startTime != 0
    requires forall w :: w in log ==> w.startTime < v.startTime
    ensures LatestUpTo(log + [v], t) == if t < v.startTime then LatestUpTo(log, t) else Some(v)
  {
    assert (log + [v])[..|log|] == log;
  }

  /** A successful delete of a future start s hands exactly the times s governed to the vector
      before it and changes no other time. */
  lemma DeleteHandsOver(w: World, s: u64, t: u64)
    requires Consistent(w) && DeleteVector(w.slots, s, w.now).Ok?
    ensures var before := LatestUpTo(w.slots, t);
            LatestUpTo(DeleteVector(w.slots, s, w.now).value, t)
            == if before.Some? && before.value.startTime == s then FindPreviousVector(w.slots, s) else before
  {
    var i := FindVectorIndex(w.slots, s).value;
    var after := w.slots[i := EMPTY_VECTOR];
    DeleteKeeps(w.slots, i);
    var before := LatestUpTo(w.slots, t);
    var heir := if before.Some? && before.value.startTime == s then FindPreviousVector(w.slots, s) else before;
    if heir.Some? {
      LatestIs(after, t, heir.value);
    }
  }
}
