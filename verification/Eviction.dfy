/** The ten slots against an unbounded log that forgets nothing: eviction is invisible. */
module Eviction {
  import opened Machine
  import opened Pricing
  import opened Schedule
  import opened VectorStore

  // ---------------------------------------------------------------- the unbounded reference

  /** Adding to a log that never evicts and never fills up. */
  function LogAdd(log: seq<OfferVector>, input: VectorInput, now: u64): Result<seq<OfferVector>> {
    var v := NewVector(input, now);
    var _ :- ValidateInputs(log, v, now);
    if v.startTime == 0 then Err(Panic) else Ok(log + [v])
  }

  function Without(log: seq<OfferVector>, startTime: u64): (r: seq<OfferVector>)
    ensures forall v :: v in r <==> v in log && v.startTime != startTime
    ensures WellFormed(log) ==> WellFormed(r)
  {
    if log == [] then
      []
    else
      var v, rest := log[|log| - 1], Without(log[..|log| - 1], startTime);
      assert log == log[..|log| - 1] + [v];
      if v.startTime == startTime then rest else rest + [v]
  }

  function LogDelete(log: seq<OfferVector>, startTime: u64, now: u64): Result<seq<OfferVector>> {
    if startTime <= now then
      Err(StartTimeInPast)
    else if forall v | v in log :: v.startTime != startTime then
      Err(VectorNotFound)
    else
      Ok(Without(log, startTime))
  }

  // ---------------------------------------------------------------- one step

  /** Input checks see the same latest start in the slots as in the log. */
  lemma ValidationAgrees(slots: seq<OfferVector>, log: seq<OfferVector>, past: int, v: OfferVector, now: u64)
    requires Refines(slots, log, past) && past <= now
    ensures ValidateInputs(slots, v, now) == ValidateInputs(log, v, now)
  {
    if v.startTime >= now {
      forall w | w in log && v.startTime <= w.startTime
        ensures w in slots
      {
        Kept(slots, log, past, w, w.startTime);
      }
    }
  }

  lemma InsertKeeps(slots: seq<OfferVector>, i: nat, v: OfferVector)
    requires i < |slots| && slots[i] == EMPTY_VECTOR
    ensures forall w :: w in slots && w.startTime != 0 ==> w in slots[i := v]
    ensures v in slots[i := v]
    ensures forall w :: w in slots[i := v] ==> w == v || w in slots
  {
    var r := slots[i := v];
    assert r[i] == v;
    forall w | w in slots && w.startTime != 0
      ensures w in r
    {
      var j :| 0 <= j < |slots| && slots[j] == w;
      assert r[j] == w;
    }
  }

  lemma InsertWellFormed(slots: seq<OfferVector>, i: nat, v: OfferVector)
    requires i < |slots| && WellFormed(slots) && SlotOk(v) && v.startTime != 0
    requires forall w :: w in slots && w.startTime != 0 ==> w.startTime < v.startTime
    ensures WellFormed(slots[i := v])
  {
  }

  /** Where the new vector goes: into a slot that cleaning left or made empty. */
  lemma AddVectorShape(slots: seq<OfferVector>, input: VectorInput, now: u64)
    returns (cleaned: seq<OfferVector>, i: nat)
    requires AddVector(slots, input, now).Ok?
    ensures var v := NewVector(input, now);
            && ValidateInputs(slots, v, now).Ok? && v.startTime > 0
            && CleanedSlots(slots, v, now) == Ok(cleaned)
            && i < |cleaned| && cleaned[i].startTime == 0
            && (forall j :: 0 <= j < i ==> cleaned[j].startTime != 0)
            && AddVector(slots, input, now) == Ok(cleaned[i := v])
  {
    var v := NewVector(input, now);
    cleaned := CleanedSlots(slots, v, now).value;
    i := FindVectorIndex(cleaned, 0).value;
  }

  /** What is stored, and where: the vector the arguments describe, in the first slot that is
      empty after cleaning; every other slot is as cleaning left it. */
  lemma AddStores(slots: seq<OfferVector>, input: VectorInput, now: u64)
    requires AddVector(slots, input, now).Ok?
    ensures var s := match input.startTime case Some(x) => x case None => Max(now, input.baseTime);
            var v := OfferVector(s, input.baseTime, input.basePrice, input.apr, input.priceFixDuration);
            && CleanedSlots(slots, v, now).Ok?
            && var cleaned := CleanedSlots(slots, v, now).value;
            exists i ::
              && 0 <= i < |cleaned| && cleaned[i].startTime == 0
              && (forall j :: 0 <= j < i ==> cleaned[j].startTime != 0)
              && AddVector(slots, input, now) == Ok(cleaned[i := v])
  {
    var cleaned, i := AddVectorShape(slots, input, now);
    assert cleaned[i].startTime == 0 && AddVector(slots, input, now) == Ok(cleaned[i := NewVector(input, now)]);
  }

  lemma AddRefines(slots: seq<OfferVector>, log: seq<OfferVector>, past: int, input: VectorInput, now: u64)
    requires Refines(slots, log, past) && past <= now && AddVector(slots, input, now).Ok?
    ensures LogAdd(log, input, now) == Ok(log + [NewVector(input, now)])
    ensures Refines(AddVector(slots, input, now).value, log + [NewVector(input, now)], now)
    ensures |AddVector(slots, input, now).value| == |slots|
  {
    var v := NewVector(input, now);
    var cleaned, i := AddVectorShape(slots, input, now);
    ValidationAgrees(slots, log, past, v, now);
    CleaningKeeps(slots, v, now);
    InsertKeeps(cleaned, i, v);
    var r := cleaned[i := v];
    InsertWellFormed(cleaned, i, v);
    assert log + [v] == (log + [EMPTY_VECTOR])[|log| := v];
    InsertWellFormed(log + [EMPTY_VECTOR], |log|, v);
    forall w | w in log + [v]
      ensures w in r || Shadowed(r, now, w)
    {
      if w in log {
        if w !in slots {
          WitnessMoves(slots, slots, past, now, w);
        }
        CleaningShadows(slots, v, now, w);
        if w !in cleaned {
          WitnessMoves(cleaned + [v], r, now, now, w);
        }
      }
    }
  }

  /** A shadow survives a later clock and any list that keeps the non-empty vectors. */
  lemma WitnessMoves(from: seq<OfferVector>, to: seq<OfferVector>, past: int, now: int, w: OfferVector)
    requires Shadowed(from, past, w) && past <= now
    requires forall x :: x in from && x.startTime != 0 && x.startTime <= past ==> x in to
    ensures Shadowed(to, now, w)
  {
    var p, a :| p in from && a in from && w.startTime < p.startTime < a.startTime <= past;
    assert p in to && a in to;
  }

  /** A delete goes through exactly for a stored start in the future; it empties that slot and
      leaves every other alone. */
  lemma DeleteExact(slots: seq<OfferVector>, s: u64, now: u64)
    requires WellFormed(slots)
    ensures DeleteVector(slots, s, now).Ok? <==> s > now && exists i :: 0 <= i < |slots| && slots[i].startTime == s
    ensures DeleteVector(slots, s, now).Err? ==>
              DeleteVector(slots, s, now) == Err(if s <= now then StartTimeInPast else VectorNotFound)
    ensures DeleteVector(slots, s, now).Ok? ==>
              var r := DeleteVector(slots, s, now).value;
              && |r| == |slots|
              && forall i :: 0 <= i < |slots| ==>
                   r[i] == if slots[i].startTime == s then OfferVector(0, 0, 0, 0, 0) else slots[i]
  {
    if s > now && FindVectorIndex(slots, s).None? {
      assert forall i :: 0 <= i < |slots| ==> slots[i] in slots;
    }
  }

  lemma DeleteRefines(slots: seq<OfferVector>, log: seq<OfferVector>, past: int, s: u64, now: u64)
    requires Refines(slots, log, past) && past <= now && DeleteVector(slots, s, now).Ok?
    ensures LogDelete(log, s, now) == Ok(Without(log, s))
    ensures Refines(DeleteVector(slots, s, now).value, Without(log, s), now)
    ensures |DeleteVector(slots, s, now).value| == |slots|
  {
    var i := FindVectorIndex(slots, s).value;
    var r := slots[i := EMPTY_VECTOR];
    assert slots[i] in log;
    DeleteKeeps(slots, i);
    forall w | w in Without(log, s)
      ensures w in r || Shadowed(r, now, w)
    {
      if w !in slots {
        WitnessMoves(slots, r, past, now, w);
      }
    }
  }

  lemma DeleteKeeps(slots: seq<OfferVector>, i: nat)
    requires i < |slots| && WellFormed(slots)
    ensures WellFormed(slots[i := EMPTY_VECTOR])
    ensures forall w :: w in slots && w.startTime != slots[i].startTime ==> w in slots[i := EMPTY_VECTOR]
    ensures forall w :: w in slots[i := EMPTY_VECTOR] && w.startTime != 0 ==>
              w in slots && w.startTime != slots[i].startTime
  {
    var r := slots[i := EMPTY_VECTOR];
    forall w | w in slots && w.startTime != slots[i].startTime
      ensures w in r
    {
      var j :| 0 <= j < |slots| && slots[j] == w;
      assert r[j] == w;
    }
  }

  lemma TickRefines(slots: seq<OfferVector>, log: seq<OfferVector>, past: int, now: int)
    requires Refines(slots, log, past) && past <= now
    ensures Refines(slots, log, now)
  {
    forall w | w in log && w !in slots
      ensures Shadowed(slots, now, w)
    {
      WitnessMoves(slots, slots, past, now, w);
    }
  }
}
