/** The instructions that change an offer's ten vector slots, as functions of the slots. */
module VectorStore {
  import opened Machine
  import opened Pricing
  import opened Schedule

  const MAX_VECTORS: nat := 10

  /** The arguments of `add_offer_vector`. */
  datatype VectorInput = VectorInput(
    startTime: Option<u64>,
    baseTime: u64,
    basePrice: u64,
    apr: u64,
    priceFixDuration: u64)

  function StartTimeOf(input: VectorInput, now: u64): u64 {
    match input.startTime
    case Some(s) => s
    case None => Max(now, input.baseTime)
  }

  function NewVector(input: VectorInput, now: u64): OfferVector {
    OfferVector(StartTimeOf(input, now), input.baseTime, input.basePrice, input.apr, input.priceFixDuration)
  }

  /** `validate_inputs`, its checks in the program's order. */
  function ValidateInputs(vs: seq<OfferVector>, v: OfferVector, now: u64): Result<()> {
    if v.startTime < now then
      Err(StartTimeInPast)
    else if v.baseTime == 0 || v.basePrice == 0 || v.priceFixDuration == 0 then
      Err(ZeroValue)
    else if exists w | w in vs :: w.startTime != 0 && w.startTime == v.startTime then
      Err(DuplicateStartTime)
    else if exists w | w in vs :: w.startTime != 0 && v.startTime <= w.startTime then
      Err(InvalidTimeRange)
    else
      Ok(())
  }

  /** The slot test of the cleaning loop. */
  predicate IsStale(v: OfferVector, activeStart: u64, previousStart: u64) {
    && v.startTime != 0
    && v.startTime != activeStart
    && v.startTime != previousStart
    && v.startTime < activeStart
  }

  function Evict(slots: seq<OfferVector>, activeStart: u64, previousStart: u64): (r: seq<OfferVector>)
    ensures |r| == |slots|
    ensures forall i :: 0 <= i < |slots| ==>
              r[i] == if IsStale(slots[i], activeStart, previousStart) then EMPTY_VECTOR else slots[i]
  {
    seq(|slots|, i requires 0 <= i < |slots| =>
          if IsStale(slots[i], activeStart, previousStart) then EMPTY_VECTOR else slots[i])
  }

  function ActiveForCleaning(slots: seq<OfferVector>, v: OfferVector, now: u64): Result<OfferVector> {
    if v.startTime == now then Ok(v) else FindActiveVectorAt(slots, now)
  }

  function StartOrZero(r: Result<OfferVector>): u64 {
    match r
    case Ok(v) => v.startTime
    case Err(_) => 0
  }

  /** `clean_old_vectors`. The subtraction aborts for an active start of zero. */
  function CleanedSlots(slots: seq<OfferVector>, v: OfferVector, now: u64): Result<seq<OfferVector>> {
    match ActiveForCleaning(slots, v, now)
    case Err(_) => Ok(slots)
    case Ok(active) =>
      if active.startTime == 0 then
        Err(Panic)
      else
        Ok(Evict(slots, active.startTime, StartOrZero(FindActiveVectorAt(slots, active.startTime - 1))))
  }

  /** `add_offer_vector` */
  function AddVector(slots: seq<OfferVector>, input: VectorInput, now: u64): Result<seq<OfferVector>> {
    var v := NewVector(input, now);
    var _ :- ValidateInputs(slots, v, now);
    var cleaned :- CleanedSlots(slots, v, now);
    match FindVectorIndex(cleaned, 0)
    case None => Err(TooManyVectors)
    case Some(i) => Ok(cleaned[i := v])
  }

  /** `delete_offer_vector` */
  function DeleteVector(slots: seq<OfferVector>, startTime: u64, now: u64): Result<seq<OfferVector>> {
    if startTime <= now then
      Err(StartTimeInPast)
    else
      match FindVectorIndex(slots, startTime)
      case None => Err(VectorNotFound)
      case Some(i) => Ok(slots[i := EMPTY_VECTOR])
  }

  function NonEmptyCount(slots: seq<OfferVector>): nat {
    if slots == [] then 0 else
      NonEmptyCount(slots[..|slots| - 1]) + if slots[|slots| - 1].startTime != 0 then 1 else 0
  }

  // ---------------------------------------------------------------- what cleaning keeps

  lemma EvictKeeps(slots: seq<OfferVector>, activeStart: u64, previousStart: u64)
    ensures forall w :: w in Evict(slots, activeStart, previousStart) && w.startTime != 0 ==> w in slots
    ensures forall w :: w in slots && w.startTime >= activeStart ==> w in Evict(slots, activeStart, previousStart)
  {
    var r := Evict(slots, activeStart, previousStart);
    forall w | w in slots && w.startTime >= activeStart
      ensures w in r
    {
      var i :| 0 <= i < |slots| && slots[i] == w;
      assert r[i] == w;
    }
  }

  lemma EvictWellFormed(slots: seq<OfferVector>, activeStart: u64, previousStart: u64)
    requires WellFormed(slots)
    ensures WellFormed(Evict(slots, activeStart, previousStart))
  {
    var r := Evict(slots, activeStart, previousStart);
    forall i, j | 0 <= i < j < |r| && r[i].startTime != 0
      ensures r[i].startTime != r[j].startTime
    {
      assert slots[i].startTime != slots[j].startTime;
    }
    forall v | v in r
      ensures SlotOk(v)
    {
      var i :| 0 <= i < |r| && r[i] == v;
      assert slots[i] in slots;
    }
  }

  /** Cleaning invents nothing and keeps every vector that starts after `now`. */
  lemma CleaningKeeps(slots: seq<OfferVector>, v: OfferVector, now: u64)
    requires WellFormed(slots) && ValidateInputs(slots, v, now).Ok? && v.startTime > 0
    ensures CleanedSlots(slots, v, now).Ok?
    ensures var r := CleanedSlots(slots, v, now).value;
            && |r| == |slots| && WellFormed(r)
            && (forall w :: w in r && w.startTime != 0 ==> w in slots)
            && (forall w :: w in slots && w.startTime > now ==> w in r)
  {
    var active := ActiveForCleaning(slots, v, now);
    if active.Ok? {
      var previousStart := StartOrZero(FindActiveVectorAt(slots, active.value.startTime - 1));
      EvictKeeps(slots, active.value.startTime, previousStart);
      EvictWellFormed(slots, active.value.startTime, previousStart);
    }
  }

  /** The active vector of the cleaning loop and its predecessor are both later than w. */
  ghost predicate Overtaken(slots: seq<OfferVector>, v: OfferVector, now: u64, w: OfferVector) {
    && ActiveForCleaning(slots, v, now).Ok?
    && var active := ActiveForCleaning(slots, v, now).value.startTime;
    && active > 0
    && FindActiveVectorAt(slots, active - 1).Ok?
    && w.startTime < FindActiveVectorAt(slots, active - 1).value.startTime
  }

  lemma ShadowedIsOvertaken(slots: seq<OfferVector>, v: OfferVector, now: u64, w: OfferVector)
    requires ValidateInputs(slots, v, now).Ok? && v.startTime > 0 && w.startTime != 0
    requires Shadowed(slots + [v], now, w)
    ensures Overtaken(slots, v, now, w)
  {
    var p, a :| p in slots + [v] && a in slots + [v] && w.startTime < p.startTime < a.startTime <= now;
    assert a == v || Started(a, now);
    assert p in slots && Started(p, ActiveForCleaning(slots, v, now).value.startTime - 1);
  }

  lemma OvertakenIff(slots: seq<OfferVector>, v: OfferVector, now: u64, w: OfferVector)
    requires ValidateInputs(slots, v, now).Ok? && v.startTime > 0 && w.startTime != 0
    ensures Overtaken(slots, v, now, w) <==> Shadowed(slots + [v], now, w)
  {
    if Overtaken(slots, v, now, w) {
      var active := ActiveForCleaning(slots, v, now).value;
      var previous := FindActiveVectorAt(slots, active.startTime - 1).value;
      assert previous in slots + [v] && active in slots + [v];
    }
    if Shadowed(slots + [v], now, w) {
      ShadowedIsOvertaken(slots, v, now, w);
    }
  }

  /** Cleaning, slot by slot: a vector goes exactly when two later ones have started, counting
      the new vector; every other slot stays as it is. */
  lemma CleanedExact(slots: seq<OfferVector>, v: OfferVector, now: u64)
    requires ValidateInputs(slots, v, now).Ok? && v.startTime > 0
    ensures CleanedSlots(slots, v, now).Ok?
    ensures var r := CleanedSlots(slots, v, now).value;
            && |r| == |slots|
            && forall i :: 0 <= i < |slots| ==>
                 r[i] == if slots[i].startTime != 0 && Shadowed(slots + [v], now, slots[i])
                         then OfferVector(0, 0, 0, 0, 0)
                         else slots[i]
  {
    var r := CleanedSlots(slots, v, now).value;
    forall i | 0 <= i < |slots|
      ensures r[i] == if slots[i].startTime != 0 && Shadowed(slots + [v], now, slots[i])
                      then EMPTY_VECTOR
                      else slots[i]
    {
      if slots[i].startTime != 0 {
        OvertakenIff(slots, v, now, slots[i]);
        if ActiveForCleaning(slots, v, now).Ok? {
          StaleIffOvertaken(slots, v, now, slots[i]);
        }
      }
    }
  }

  lemma StaleIffOvertaken(slots: seq<OfferVector>, v: OfferVector, now: u64, w: OfferVector)
    requires w in slots && w.startTime != 0
    requires ActiveForCleaning(slots, v, now).Ok? && ActiveForCleaning(slots, v, now).value.startTime > 0
    ensures var active := ActiveForCleaning(slots, v, now).value.startTime;
            IsStale(w, active, StartOrZero(FindActiveVectorAt(slots, active - 1))) <==> Overtaken(slots, v, now, w)
  {
    var active := ActiveForCleaning(slots, v, now).value.startTime;
    if w.startTime < active {
      assert Started(w, active - 1);
    }
  }

  lemma MissingIsShadowed(slots: seq<OfferVector>, v: OfferVector, now: u64, w: OfferVector)
    requires ValidateInputs(slots, v, now).Ok? && v.startTime > 0 && w.startTime != 0
    requires w in slots || Shadowed(slots, now, w)
    ensures CleanedSlots(slots, v, now).Ok?
    ensures w in CleanedSlots(slots, v, now).value || Shadowed(slots + [v], now, w)
  {
    CleanedExact(slots, v, now);
    var r := CleanedSlots(slots, v, now).value;
    if w in slots {
      var i :| 0 <= i < |slots| && slots[i] == w;
      assert r[i] in r;
    } else {
      var p, a :| p in slots && a in slots && w.startTime < p.startTime < a.startTime <= now;
      assert p in slots + [v] && a in slots + [v];
    }
  }

  /** Whatever started vector is missing after cleaning, two later started ones stay. */
  lemma CleaningShadows(slots: seq<OfferVector>, v: OfferVector, now: u64, w: OfferVector)
    requires ValidateInputs(slots, v, now).Ok? && v.startTime > 0
    requires w.startTime != 0 && (w in slots || Shadowed(slots, now, w))
    ensures var r := CleanedSlots(slots, v, now);
            r.Ok? && (w in r.value || Shadowed(r.value + [v], now, w))
  {
    var r := CleanedSlots(slots, v, now).value;
    if w !in r {
      MissingIsShadowed(slots, v, now, w);
      OvertakenIff(slots, v, now, w);
      var active := ActiveForCleaning(slots, v, now).value;
      var previous := FindActiveVectorAt(slots, active.startTime - 1).value;
      Survives(slots, v, now, previous);
      if v.startTime != now {
        Survives(slots, v, now, active);
      }
      assert previous in r + [v] && active in r + [v];
      assert w.startTime < previous.startTime < active.startTime <= now;
    }
  }

  lemma Survives(slots: seq<OfferVector>, v: OfferVector, now: u64, w: OfferVector)
    requires w in slots && ActiveForCleaning(slots, v, now).Ok?
    requires var a := ActiveForCleaning(slots, v, now).value.startTime;
             a > 0 && (w.startTime == a || w.startTime == StartOrZero(FindActiveVectorAt(slots, a - 1)))
    ensures CleanedSlots(slots, v, now).Ok? && w in CleanedSlots(slots, v, now).value
  {
    var i :| 0 <= i < |slots| && slots[i] == w;
    assert CleanedSlots(slots, v, now).value[i] == w;
  }
}
