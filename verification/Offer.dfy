/** The offer account: ten vector slots changed in place. */
module Offers {
  import opened Machine
  import opened Pricing
  import opened Schedule
  import opened VectorStore
  import opened Eviction
  import opened Capacity
  import opened Runs
  import opened Settlement

  /** The largest fee an offer can be made with: 10%. */
  const MAX_ALLOWED_FEE_BPS: u16 := 1_000

  /** What an add makes of slots and log. */
  lemma AddStep(w: World, input: VectorInput)
    requires Consistent(w)
    ensures Consistent(Step(w, Add(input)))
    ensures var r := AddVector(w.slots, input, w.now);
            Step(w, Add(input)) == if r.Ok? then World(r.value, w.log + [NewVector(input, w.now)], w.now) else w
    ensures AddVector(w.slots, input, w.now) == Err(TooManyVectors) ==>
              CleanedSlots(w.slots, NewVector(input, w.now), w.now) == Ok(w.slots)
  {
    StepKeepsConsistent(w, Add(input));
    if AddVector(w.slots, input, w.now) == Err(TooManyVectors) {
      FullMeansNothingEvicted(w.slots, input, w.now);
    } else {
      AddOutcomesAgree(w, input);
      if AddVector(w.slots, input, w.now).Ok? {
        AddConsistent(w, input);
      }
    }
  }

  class Offer {
    const vectors: array<OfferVector>

    const tokenInMint: nat
    const tokenOutMint: nat
    var feeBasisPoints: u16
    var needsApproval: bool
    var allowPermissionless: bool

    /** Every vector ever added and not deleted. The program does not store this. */
    ghost var log: seq<OfferVector>

    /** The latest clock an instruction has seen. */
    ghost var clock: u64

    /** The offer as a state of the runs in `Runs`. */
    ghost function Snapshot(): World
      reads this, vectors
    {
      World(vectors[..], log, clock)
    }

    ghost predicate Valid()
      reads this, vectors
    {
      && vectors.Length == MAX_VECTORS
      && Consistent(Snapshot())
      && feeBasisPoints <= MAX_BASIS_POINTS
    }

    /** A new offer has all slots zero. */
    constructor (tokenIn: nat, tokenOut: nat, fee: u16, approval: bool, permissionless: bool)
      requires fee <= MAX_ALLOWED_FEE_BPS
      ensures Valid() && fresh(vectors)
      ensures Snapshot() == Run([])
      ensures forall v :: v in vectors[..] ==> v == EMPTY_VECTOR
      ensures tokenInMint == tokenIn && tokenOutMint == tokenOut && feeBasisPoints == fee
      ensures needsApproval == approval && allowPermissionless == permissionless
    {
      vectors := new OfferVector[MAX_VECTORS](_ => EMPTY_VECTOR);
      tokenInMint, tokenOutMint, feeBasisPoints := tokenIn, tokenOut, fee;
      needsApproval, allowPermissionless := approval, permissionless;
      log, clock := [], 0;
    }

    /** `make_offer`: a fee of at most 10%. */
    static method MakeOffer(tokenIn: nat, tokenOut: nat, fee: u16, approval: bool, permissionless: bool)
      returns (r: Result<Offer>)
      ensures r == Err(InvalidFee) <==> fee > 1_000
      ensures r.Ok? <==> fee <= 1_000
      ensures r.Ok? ==>
                var o := r.value;
                && fresh(o) && fresh(o.vectors) && o.Valid() && o.Snapshot() == Run([])
                && (forall v :: v in o.vectors[..] ==> v == EMPTY_VECTOR)
                && o.tokenInMint == tokenIn && o.tokenOutMint == tokenOut && o.feeBasisPoints == fee
                && o.needsApproval == approval && o.allowPermissionless == permissionless
    {
      if fee > MAX_ALLOWED_FEE_BPS {
        return Err(InvalidFee);
      }
      var o := new Offer(tokenIn, tokenOut, fee, approval, permissionless);
      return Ok(o);
    }

    /** `update_offer_fee`: up to 100%, so the fee of a valid offer never exceeds the amount. */
    method UpdateOfferFee(fee: u16) returns (r: Result<()>)
      requires Valid()
      modifies this`feeBasisPoints
      ensures Valid()
      ensures r == (if fee <= 10_000 then Ok(()) else Err(InvalidFee))
      ensures feeBasisPoints == if fee <= 10_000 then fee else old(feeBasisPoints)
    {
      if fee > MAX_BASIS_POINTS {
        return Err(InvalidFee);
      }
      feeBasisPoints := fee;
      return Ok(());
    }

    /** `clean_old_vectors` */
    method CleanOldVectors(v: OfferVector, now: u64) returns (r: Result<()>)
      modifies vectors
      ensures match CleanedSlots(old(vectors[..]), v, now)
              case Ok(cleaned) => r == Ok(()) && vectors[..] == cleaned
              case Err(e) => r == Err(e) && vectors[..] == old(vectors[..])
    {
      var activeVector := ActiveForCleaning(vectors[..], v, now);
      if activeVector.Err? {
        return Ok(());
      }
      var activeStart := activeVector.value.startTime;
      if activeStart == 0 {
        return Err(Panic);
      }
      var previousStart := StartOrZero(FindActiveVectorAt(vectors[..], activeStart - 1));
      for i := 0 to vectors.Length
        invariant vectors[i..] == old(vectors[i..])
        invariant vectors[..i] == Evict(old(vectors[..]), activeStart, previousStart)[..i]
      {
        if IsStale(vectors[i], activeStart, previousStart) {
          vectors[i] := EMPTY_VECTOR;
        }
      }
      return Ok(());
    }

    /** `add_offer_vector`. A failing call leaves slots and log as they were. */
    method AddOfferVector(input: VectorInput, now: u64) returns (r: Result<()>)
      requires Valid() && clock <= now
      modifies this`log, this`clock, vectors
      ensures Valid() && clock == now
      ensures Snapshot() == Step(Step(old(Snapshot()), Tick(now)), Add(input))
      ensures r.Ok? ==>
                && AddVector(old(vectors[..]), input, now) == Ok(vectors[..])
                && var s := match input.startTime case Some(x) => x case None => Max(now, input.baseTime);
                log == old(log) + [OfferVector(s, input.baseTime, input.basePrice, input.apr, input.priceFixDuration)]
      ensures r.Err? ==>
                && AddVector(old(vectors[..]), input, now) == Err(r.error)
                && vectors[..] == old(vectors[..]) && log == old(log)
    {
      ghost var slots := vectors[..];
      StepKeepsConsistent(Snapshot(), Tick(now));
      clock := now;
      ghost var before := Snapshot();
      AddStep(before, input);
      var v := NewVector(input, now);
      var validation := ValidateInputs(vectors[..], v, now);
      if validation.Err? {
        return validation;
      }
      var cleaning := CleanOldVectors(v, now);
      if cleaning.Err? {
        return cleaning;
      }
      var slot := FindVectorIndex(vectors[..], 0);
      if slot.None? {
        return Err(TooManyVectors);
      }
      ghost var cleaned := vectors[..];
      vectors[slot.value] := v;
      assert vectors[..] == cleaned[slot.value := v];
      log := log + [v];
      return Ok(());
    }

    /** `delete_offer_vector` */
    method DeleteOfferVector(startTime: u64, now: u64) returns (r: Result<()>)
      requires Valid() && clock <= now
      modifies this`log, this`clock, vectors
      ensures Valid() && clock == now
      ensures Snapshot() == Step(Step(old(Snapshot()), Tick(now)), Delete(startTime))
      ensures r.Ok? ==>
                && DeleteVector(old(vectors[..]), startTime, now) == Ok(vectors[..])
                && log == Without(old(log), startTime)
      ensures r.Err? ==>
                && DeleteVector(old(vectors[..]), startTime, now) == Err(r.error)
                && vectors[..] == old(vectors[..]) && log == old(log)
    {
      ghost var slots := vectors[..];
      StepKeepsConsistent(Snapshot(), Tick(now));
      clock := now;
      ghost var before := Snapshot();
      StepKeepsConsistent(before, Delete(startTime));
      DeleteOutcomesAgree(before, startTime);
      if startTime <= now {
        return Err(StartTimeInPast);
      }
      var slot := FindVectorIndex(vectors[..], startTime);
      if slot.None? {
        return Err(VectorNotFound);
      }
      DeleteConsistent(before, startTime);
      vectors[slot.value] := EMPTY_VECTOR;
      assert vectors[..] == slots[slot.value := EMPTY_VECTOR];
      log := Without(log, startTime);
      return Ok(());
    }

    /** `delete_all_offer_vectors`, returning the number of occupied slots it cleared. */
    method DeleteAllOfferVectors() returns (deletedCount: nat)
      requires Valid()
      modifies this`log, this`clock, vectors
      ensures Valid() && clock == old(clock) && log == []
      ensures Snapshot() == Step(old(Snapshot()), DeleteAll)
      ensures forall v :: v in vectors[..] ==> v == EMPTY_VECTOR
      ensures deletedCount == NonEmptyCount(old(vectors[..]))
    {
      ghost var before := Snapshot();
      StepKeepsConsistent(before, DeleteAll);
      assert forall i :: 0 <= i < MAX_VECTORS ==> vectors[i] in vectors[..] && SlotOk(vectors[i]);
      deletedCount := ClearSlots();
      log := [];
      assert vectors[..] == EmptySlots(MAX_VECTORS);
    }

    /** The loop of `delete_all_offer_vectors`. */
    method ClearSlots() returns (deletedCount: nat)
      requires vectors.Length == MAX_VECTORS
      requires forall i :: 0 <= i < MAX_VECTORS && vectors[i].startTime == 0 ==> vectors[i] == EMPTY_VECTOR
      modifies vectors
      ensures forall j :: 0 <= j < MAX_VECTORS ==> vectors[j] == EMPTY_VECTOR
      ensures deletedCount == NonEmptyCount(old(vectors[..]))
    {
      ghost var slots := vectors[..];
      deletedCount := 0;
      for i := 0 to MAX_VECTORS
        invariant forall j :: i <= j < MAX_VECTORS ==> vectors[j] == slots[j]
        invariant forall j :: 0 <= j < i ==> vectors[j] == EMPTY_VECTOR
        invariant deletedCount == NonEmptyCount(slots[..i])
      {
        assert slots[..i + 1][..i] == slots[..i];
        if vectors[i].startTime != 0 {
          vectors[i] := EMPTY_VECTOR;
          deletedCount := deletedCount + 1;
        }
      }
      assert slots[..MAX_VECTORS] == slots;
    }
  }
}
