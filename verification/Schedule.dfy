/** Lookups over a list of pricing vectors, and when a bounded list may stand for
    an unbounded one. */
module Schedule {
  import opened Machine
  import opened Pricing

  predicate Started(v: OfferVector, limit: int) {
    v.startTime != 0 && v.startTime <= limit
  }

  /** The non-empty vector with the latest start at or before `limit`. */
  function LatestUpTo(vs: seq<OfferVector>, limit: int): (r: Option<OfferVector>)
    ensures r.None? ==> forall v :: v in vs ==> !Started(v, limit)
    ensures r.Some? ==> r.value in vs && Started(r.value, limit)
    ensures r.Some? ==> forall v :: v in vs && Started(v, limit) ==> v.startTime <= r.value.startTime
  {
    if vs == [] then
      None
    else
      var best, v := LatestUpTo(vs[..|vs| - 1], limit), vs[|vs| - 1];
      if Started(v, limit) && (best.None? || best.value.startTime <= v.startTime) then Some(v) else best
  }

  /** `find_active_vector_at` */
  function FindActiveVectorAt(vs: seq<OfferVector>, time: u64): Result<OfferVector> {
    match LatestUpTo(vs, time)
    case Some(v) => Ok(v)
    case None => Err(NoActiveVector)
  }

  /** `find_previous_vector` */
  function FindPreviousVector(vs: seq<OfferVector>, currentStart: u64): Option<OfferVector> {
    LatestUpTo(vs, currentStart - 1)
  }

  /** `find_next_vector_after`: the earliest start strictly after `time`. */
  function FindNextVectorAfter(vs: seq<OfferVector>, time: u64): (r: Option<OfferVector>)
    ensures r.None? ==> forall v :: v in vs ==> v.startTime <= time
    ensures r.Some? ==> r.value in vs && time < r.value.startTime
    ensures r.Some? ==> forall v :: v in vs && time < v.startTime ==> r.value.startTime <= v.startTime
  {
    if vs == [] then
      None
    else
      var best, v := FindNextVectorAfter(vs[..|vs| - 1], time), vs[|vs| - 1];
      if time < v.startTime && (best.None? || v.startTime < best.value.startTime) then Some(v) else best
  }

  /** `find_vector_index_by_start_time`: the first slot with that start time. */
  function FindVectorIndex(vs: seq<OfferVector>, startTime: u64): (r: Option<nat>)
    ensures r.None? ==> forall v :: v in vs ==> v.startTime != startTime
    ensures r.Some? ==> r.value < |vs| && vs[r.value].startTime == startTime
    ensures r.Some? ==> forall i :: 0 <= i < r.value ==> vs[i].startTime != startTime
  {
    if vs == [] then
      None
    else
      match FindVectorIndex(vs[..|vs| - 1], startTime)
      case Some(i) => Some(i)
      case None => if vs[|vs| - 1].startTime == startTime then Some(|vs| - 1) else None
  }

  // ---------------------------------------------------------------- what every reachable list satisfies

  ghost predicate DistinctStarts(vs: seq<OfferVector>) {
    forall i, j :: 0 <= i < j < |vs| && vs[i].startTime != 0 ==> vs[i].startTime != vs[j].startTime
  }

  /** An empty slot is all zero; any other holds a positive base time, price and duration. */
  ghost predicate SlotOk(v: OfferVector) {
    if v.startTime == 0 then
      v == EMPTY_VECTOR
    else
      v.baseTime > 0 && v.basePrice > 0 && v.priceFixDuration > 0
  }

  ghost predicate WellFormed(vs: seq<OfferVector>) {
    DistinctStarts(vs) && forall v :: v in vs ==> SlotOk(v)
  }

  lemma SameStartSameVector(vs: seq<OfferVector>, v: OfferVector, w: OfferVector)
    requires DistinctStarts(vs) && v in vs && w in vs
    requires v.startTime == w.startTime != 0
    ensures v == w
  {
    var i :| 0 <= i < |vs| && vs[i] == v;
    var j :| 0 <= j < |vs| && vs[j] == w;
    if i != j {
      assert false;
    }
  }

  /** With distinct starts the lookup is unambiguous: any latest started vector is the one found. */
  lemma LatestIs(vs: seq<OfferVector>, limit: int, v: OfferVector)
    requires DistinctStarts(vs) && v in vs && Started(v, limit)
    requires forall w :: w in vs && Started(w, limit) ==> w.startTime <= v.startTime
    ensures LatestUpTo(vs, limit) == Some(v)
  {
    SameStartSameVector(vs, v, LatestUpTo(vs, limit).value);
  }

  lemma NextIs(vs: seq<OfferVector>, time: u64, v: OfferVector)
    requires DistinctStarts(vs) && v in vs && time < v.startTime
    requires forall w :: w in vs && time < w.startTime ==> v.startTime <= w.startTime
    ensures FindNextVectorAfter(vs, time) == Some(v)
  {
    SameStartSameVector(vs, v, FindNextVectorAfter(vs, time).value);
  }

  // ---------------------------------------------------------------- a bounded list standing for an unbounded one

  /** v may be dropped for good: two kept vectors, both started by `now`, start after it. */
  ghost predicate Shadowed(slots: seq<OfferVector>, now: int, v: OfferVector) {
    exists p, a :: p in slots && a in slots && v.startTime < p.startTime < a.startTime <= now
  }

  /** `slots` holds the whole log but for empty slots and shadowed vectors. */
  ghost predicate Refines(slots: seq<OfferVector>, log: seq<OfferVector>, now: int) {
    && WellFormed(slots)
    && WellFormed(log)
    && (forall v :: v in log ==> v.startTime != 0)
    && (forall v :: v in slots && v.startTime != 0 ==> v in log)
    && (forall v :: v in log ==> v in slots || Shadowed(slots, now, v))
  }

  /** A logged vector is kept unless a later one starts before `bound`, where `bound` is
      reached by the last started vector. */
  lemma Kept(slots: seq<OfferVector>, log: seq<OfferVector>, now: int, w: OfferVector, bound: int)
    requires w in log ==> w in slots || Shadowed(slots, now, w)
    requires forall v :: v in slots && v.startTime != 0 ==> v in log
    requires forall a :: a in log && a.startTime <= now ==> a.startTime <= bound
    requires forall p :: p in log && p.startTime < bound ==> p.startTime <= w.startTime
    ensures w in log ==> w in slots
  {
  }

  lemma ActiveAgrees(slots: seq<OfferVector>, log: seq<OfferVector>, now: int, t: int)
    requires Refines(slots, log, now) && now <= t
    ensures LatestUpTo(slots, t) == LatestUpTo(log, t)
  {
    var active := LatestUpTo(log, t);
    if active.Some? {
      Kept(slots, log, now, active.value, t);
      LatestIs(slots, t, active.value);
    }
  }

  /** `s` is the start of a vector that is active at some t >= now. */
  lemma PreviousAgrees(slots: seq<OfferVector>, log: seq<OfferVector>, now: int, t: int, s: u64)
    requires Refines(slots, log, now) && now <= t
    requires LatestUpTo(log, t).Some? && s == LatestUpTo(log, t).value.startTime
    ensures FindPreviousVector(slots, s) == FindPreviousVector(log, s)
  {
    var previous := LatestUpTo(log, s - 1);
    assert forall a :: a in log && a.startTime != 0 && a.startTime <= now ==> Started(a, t);
    if previous.Some? {
      assert forall p :: p in log && p.startTime < s ==> Started(p, s - 1);
      Kept(slots, log, now, previous.value, s);
      LatestIs(slots, s - 1, previous.value);
    }
  }

  lemma NextAgrees(slots: seq<OfferVector>, log: seq<OfferVector>, now: int, t: u64)
    requires Refines(slots, log, now) && now <= t
    ensures FindNextVectorAfter(slots, t) == FindNextVectorAfter(log, t)
  {
    var next := FindNextVectorAfter(log, t);
    if next.Some? {
      assert next.value in slots;
      NextIs(slots, t, next.value);
    }
  }

  /** At no time from `now` on can any lookup tell the two apart. */
  lemma LookupsAgree(slots: seq<OfferVector>, log: seq<OfferVector>, now: int, t: u64)
    requires Refines(slots, log, now) && now <= t
    ensures FindActiveVectorAt(slots, t) == FindActiveVectorAt(log, t)
    ensures FindActiveVectorAt(log, t).Ok? ==>
              var s := FindActiveVectorAt(log, t).value.startTime;
              FindPreviousVector(slots, s) == FindPreviousVector(log, s)
    ensures FindNextVectorAfter(slots, t) == FindNextVectorAfter(log, t)
  {
    ActiveAgrees(slots, log, now, t);
    if LatestUpTo(log, t).Some? {
      PreviousAgrees(slots, log, now, t, LatestUpTo(log, t).value.startTime);
    }
    NextAgrees(slots, log, now, t);
  }
}
