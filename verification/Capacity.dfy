/** When an offer runs out of slots. */
module Capacity {
  import opened Machine
  import opened Pricing
  import opened Schedule
  import opened VectorStore
  import opened Eviction

  /** Start times of the stored vectors that have started by `now`. */
  ghost function StartedBy(vs: seq<OfferVector>, now: int): set<u64> {
    set v | v in vs && Started(v, now) :: v.startTime
  }

  /** Start times of the stored vectors still to come. */
  ghost function StartingAfter(vs: seq<OfferVector>, now: int): set<u64> {
    set v | v in vs && v.startTime != 0 && v.startTime > now :: v.startTime
  }

  ghost function Starts(vs: seq<OfferVector>): set<u64> {
    set v | v in vs && v.startTime != 0 :: v.startTime
  }

  lemma LastIsNew(vs: seq<OfferVector>)
    requires vs != [] && DistinctStarts(vs) && vs[|vs| - 1].startTime != 0
    ensures vs[|vs| - 1].startTime !in Starts(vs[..|vs| - 1])
  {
    var init, v := vs[..|vs| - 1], vs[|vs| - 1];
    forall w | w in init && w.startTime != 0
      ensures w.startTime != v.startTime
    {
      var i :| 0 <= i < |init| && init[i] == w;
      assert vs[i].startTime != vs[|vs| - 1].startTime;
    }
  }

  /** Distinct start times count the occupied slots. */
  lemma {:induction false} StartsCountSlots(vs: seq<OfferVector>)
    requires DistinctStarts(vs)
    ensures |Starts(vs)| == NonEmptyCount(vs)
  {
    if vs != [] {
      var init, v := vs[..|vs| - 1], vs[|vs| - 1];
      assert vs == init + [v];
      StartsCountSlots(init);
      if v.startTime != 0 {
        LastIsNew(vs);
        assert Starts(vs) == Starts(init) + {v.startTime};
      } else {
        assert Starts(vs) == Starts(init);
      }
    }
  }

  lemma {:induction false} AllOccupied(vs: seq<OfferVector>)
    ensures NonEmptyCount(vs) <= |vs|
    ensures NonEmptyCount(vs) == |vs| <==> FindVectorIndex(vs, 0).None?
  {
    if vs != [] {
      AllOccupied(vs[..|vs| - 1]);
    }
  }

  lemma SplitStarts(vs: seq<OfferVector>, now: int)
    ensures |Starts(vs)| == |StartedBy(vs, now)| + |StartingAfter(vs, now)|
  {
    assert Starts(vs) == StartedBy(vs, now) + StartingAfter(vs, now);
    assert StartedBy(vs, now) !! StartingAfter(vs, now);
  }

  lemma AtMostOne<T>(s: set<T>, x: T)
    requires forall y :: y in s ==> y == x
    ensures |s| == if x in s then 1 else 0
  {
    assert s == if x in s then {x} else {};
  }

  lemma AtMostTwo<T>(s: set<T>, x: T, y: T)
    requires x != y && forall z :: z in s ==> z == x || z == y
    ensures |s| == (if x in s then 1 else 0) + (if y in s then 1 else 0)
  {
    assert s == (if x in s then {x} else {}) + (if y in s then {y} else {});
  }

  /** What cleaning leaves of the started vectors: the latest two, or only the latest one
      when the new vector itself starts now. Future vectors all stay. */
  lemma CleanedCounts(slots: seq<OfferVector>, v: OfferVector, now: u64)
    requires WellFormed(slots) && ValidateInputs(slots, v, now).Ok? && v.startTime > 0
    ensures CleanedSlots(slots, v, now).Ok?
    ensures var cleaned := CleanedSlots(slots, v, now).value;
            && StartingAfter(cleaned, now) == StartingAfter(slots, now)
            && |StartedBy(cleaned, now)|
               == Min(if v.startTime == now then 1 else 2, |StartedBy(slots, now)|)
  {
    CleaningKeeps(slots, v, now);
    var cleaned := CleanedSlots(slots, v, now).value;
    var active := ActiveForCleaning(slots, v, now);
    if active.Err? {
      assert StartedBy(slots, now) == {};
    } else {
      StartedAfterCleaning(slots, v, now, active.value.startTime);
    }
  }

  /** The started vectors that cleaning keeps are the one before `active` and, if stored, `active`. */
  lemma StartedAfterCleaning(slots: seq<OfferVector>, v: OfferVector, now: u64, active: u64)
    requires WellFormed(slots) && ValidateInputs(slots, v, now).Ok? && v.startTime > 0
    requires ActiveForCleaning(slots, v, now).Ok? && active == ActiveForCleaning(slots, v, now).value.startTime
    ensures |StartedBy(CleanedSlots(slots, v, now).value, now)|
         == Min(if v.startTime == now then 1 else 2, |StartedBy(slots, now)|)
  {
    CleaningKeeps(slots, v, now);
    var kept, all := StartedBy(CleanedSlots(slots, v, now).value, now), StartedBy(slots, now);
    var previous := FindActiveVectorAt(slots, active - 1);
    assert kept <= all;
    KeptAreTwo(slots, v, now, active);
    AtMostTwo(kept, active, StartOrZero(previous));
    assert active in kept <==> v.startTime != now by {
      if v.startTime != now {
        Survives(slots, v, now, ActiveForCleaning(slots, v, now).value);
      }
    }
    if previous.Ok? {
      Survives(slots, v, now, previous.value);
      assert StartOrZero(previous) in kept;
    } else {
      assert forall w :: w in slots && Started(w, now) ==> w.startTime == active;
      AtMostOne(all, active);
    }
    SubsetSize(kept, all);
  }

  lemma KeptAreTwo(slots: seq<OfferVector>, v: OfferVector, now: u64, active: u64)
    requires ValidateInputs(slots, v, now).Ok? && v.startTime > 0
    requires ActiveForCleaning(slots, v, now).Ok? && active == ActiveForCleaning(slots, v, now).value.startTime
    ensures CleanedSlots(slots, v, now).Ok?
    ensures forall s :: s in StartedBy(CleanedSlots(slots, v, now).value, now) ==>
              s == active || s == StartOrZero(FindActiveVectorAt(slots, active - 1))
  {
    var p := StartOrZero(FindActiveVectorAt(slots, active - 1));
    EvictKeeps(slots, active, p);
    assert CleanedSlots(slots, v, now) == Ok(Evict(slots, active, p));
    forall w | w in Evict(slots, active, p) && Started(w, now)
      ensures w.startTime == active || w.startTime == p
    {
      StaleIsGone(slots, active, p, w);
    }
  }

  lemma StaleIsGone(slots: seq<OfferVector>, active: u64, previous: u64, w: OfferVector)
    requires w in Evict(slots, active, previous)
    ensures !IsStale(w, active, previous)
  {
  }

  lemma SubsetSize<T>(a: set<T>, b: set<T>)
    requires a <= b
    ensures |a| <= |b|
  {
    assert b == a + (b - a);
  }

  lemma FullIff(vs: seq<OfferVector>, now: int)
    requires DistinctStarts(vs)
    ensures FindVectorIndex(vs, 0).None? <==> |StartedBy(vs, now)| + |StartingAfter(vs, now)| == |vs|
  {
    StartsCountSlots(vs);
    AllOccupied(vs);
    SplitStarts(vs, now);
  }

  /** The exact capacity law. With p stored vectors started by now and f still to come, an
      add with valid inputs fails for space exactly when the new vector starts later than
      now and min(2, p) + f == 10. */
  lemma CapacityLaw(slots: seq<OfferVector>, input: VectorInput, now: u64)
    requires WellFormed(slots) && |slots| == MAX_VECTORS
    requires var v := NewVector(input, now); ValidateInputs(slots, v, now).Ok? && v.startTime > 0
    ensures AddVector(slots, input, now).Ok? || AddVector(slots, input, now) == Err(TooManyVectors)
    ensures AddVector(slots, input, now).Err? <==>
              && (match input.startTime case Some(s) => s case None => Max(now, input.baseTime)) > now
              && Min(2, |StartedBy(slots, now)|) + |StartingAfter(slots, now)| == 10
  {
    var v := NewVector(input, now);
    assert v.startTime == now ==> |StartingAfter(slots, now)| == 0 by {
      if v.startTime == now {
        assert StartingAfter(slots, now) == {};
      }
    }
    assert CleanedSlots(slots, v, now).Ok? by {
      CleanedCounts(slots, v, now);
    }
    var cleaned := CleanedSlots(slots, v, now).value;
    assert FindVectorIndex(cleaned, 0).None? <==>
             Min(if v.startTime == now then 1 else 2, |StartedBy(slots, now)|)
             + |StartingAfter(slots, now)| == MAX_VECTORS by {
      CleaningKeeps(slots, v, now);
      CleanedCounts(slots, v, now);
      FullIff(cleaned, now);
    }
  }

  /** All a caller needs to check: an add succeeds exactly for a start that is neither past nor
      zero and later than every stored one, positive base time, price and duration, and room. */
  lemma AddSucceedsIff(slots: seq<OfferVector>, input: VectorInput, now: u64)
    requires WellFormed(slots) && |slots| == MAX_VECTORS
    ensures AddVector(slots, input, now).Ok? <==>
              var s := match input.startTime case Some(x) => x case None => Max(now, input.baseTime);
              && now <= s && s > 0
              && input.baseTime > 0 && input.basePrice > 0 && input.priceFixDuration > 0
              && (forall w :: w in slots ==> w.startTime < s)
              && (s == now || Min(2, |StartedBy(slots, now)|) + |StartingAfter(slots, now)| != 10)
  {
    var v := NewVector(input, now);
    if ValidateInputs(slots, v, now).Ok? && v.startTime > 0 {
      CapacityLaw(slots, input, now);
    }
  }

  /** And why it fails when it does, in the order of the checks. A start of zero is only
      possible at time zero. */
  lemma AddFailsWith(slots: seq<OfferVector>, input: VectorInput, now: u64)
    requires WellFormed(slots) && |slots| == MAX_VECTORS && AddVector(slots, input, now).Err?
    ensures var s := match input.startTime case Some(x) => x case None => Max(now, input.baseTime);
            AddVector(slots, input, now).error
            == if s < now then StartTimeInPast
               else if input.baseTime == 0 || input.basePrice == 0 || input.priceFixDuration == 0 then ZeroValue
               else if s > 0 && s in Starts(slots) then DuplicateStartTime
               else if exists w :: w in slots && w.startTime > s then InvalidTimeRange
               else if s == 0 then Panic
               else TooManyVectors
  {
    var v := NewVector(input, now);
    if ValidateInputs(slots, v, now).Ok? && v.startTime > 0 {
      CapacityLaw(slots, input, now);
    }
  }

  /** An add that fails for space has evicted nothing: the slots are untouched even before
      the failing transaction is rolled back. */
  lemma FullMeansNothingEvicted(slots: seq<OfferVector>, input: VectorInput, now: u64)
    requires WellFormed(slots) && |slots| == MAX_VECTORS && AddVector(slots, input, now) == Err(TooManyVectors)
    ensures CleanedSlots(slots, NewVector(input, now), now) == Ok(slots)
  {
    var v := NewVector(input, now);
    assert v.startTime > 0;
    CleaningKeeps(slots, v, now);
    var cleaned := CleanedSlots(slots, v, now).value;
    forall i | 0 <= i < |slots|
      ensures cleaned[i] == slots[i]
    {
      assert cleaned[i] in cleaned && cleaned[i].startTime != 0;
    }
    assert cleaned == slots;
  }

  /** After every successful add at most two stored vectors have started. */
  lemma AtMostTwoStarted(slots: seq<OfferVector>, input: VectorInput, now: u64)
    requires WellFormed(slots) && |slots| == MAX_VECTORS && AddVector(slots, input, now).Ok?
    ensures |StartedBy(AddVector(slots, input, now).value, now)| <= 2
  {
    var v := NewVector(input, now);
    var cleaned, i := AddVectorShape(slots, input, now);
    CleaningKeeps(slots, v, now);
    CleanedCounts(slots, v, now);
    InsertKeeps(cleaned, i, v);
    var r := cleaned[i := v];
    var more := if v.startTime == now then {v.startTime} else {};
    assert StartedBy(r, now) <= StartedBy(cleaned, now) + more;
    SubsetSize(StartedBy(r, now), StartedBy(cleaned, now) + more);
  }
}
