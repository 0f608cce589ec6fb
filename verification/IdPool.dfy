/** The recycling slot allocator of `id_pool.rs`, updated in place. */
module IdPools {
  import opened Machine
  import opened Model = IdPoolModel

  class IdPool {
    var nextSlot: u32
    var freeSlots: seq<u32>
    var generations: seq<u32>
    const maxSlots: u32

    ghost function State(): Pool
      reads this
    {
      Pool(nextSlot, freeSlots, generations, maxSlots)
    }

    constructor (maxSlots: u32)
      ensures State() == New(maxSlots)
    {
      nextSlot := 0;
      freeSlots := [];
      generations := [];
      this.maxSlots := maxSlots;
    }

    /** A pool equal to the snapshot, if the snapshot passes the checks. */
    static method RestoreFrom(snapshot: Pool) returns (r: Result<IdPool>)
      ensures r.Ok? <==> Restore(snapshot).Ok?
      ensures r.Ok? ==> fresh(r.value) && r.value.State() == snapshot
      ensures r.Err? ==> r.error == Restore(snapshot).error
    {
      if snapshot.nextSlot as nat != |snapshot.generations| {
        return Err(OutOfRange);
      }
      var seen := set s | s in snapshot.freeSlots;
      if |seen| != |snapshot.freeSlots| {
        return Err(DoubleFree);
      }
      if exists s | s in snapshot.freeSlots :: s as nat >= |snapshot.generations| {
        return Err(OutOfRange);
      }
      var pool := new IdPool(snapshot.maxSlots);
      pool.nextSlot := snapshot.nextSlot;
      pool.freeSlots := snapshot.freeSlots;
      pool.generations := snapshot.generations;
      return Ok(pool);
    }

    method TakeSnapshot() returns (snapshot: Pool)
      ensures snapshot == State()
    {
      snapshot := Pool(nextSlot, freeSlots, generations, maxSlots);
    }

    method Alloc() returns (r: Result<(u32, u32)>)
      requires Sound(State())
      modifies this
      ensures (State(), r) == Model.Alloc(old(State()))
    {
      if |freeSlots| > 0 {
        var slot := freeSlots[|freeSlots| - 1];
        freeSlots := freeSlots[..|freeSlots| - 1];
        generations := generations[slot as nat := Bump(generations[slot])];
        return Ok((slot, generations[slot]));
      }
      if nextSlot >= maxSlots {
        return Err(Exhausted);
      }
      var slot := nextSlot;
      nextSlot := nextSlot + 1;
      generations := generations + [0];
      return Ok((slot, 0));
    }

    method Free(slot: u32) returns (r: Result<()>)
      modifies this
      ensures (State(), r) == Model.Free(old(State()), slot)
    {
      if slot as nat >= |generations| {
        return Err(OutOfRange);
      }
      if slot in freeSlots {
        return Err(DoubleFree);
      }
      freeSlots := freeSlots + [slot];
      return Ok(());
    }

    method ReplayAlloc(slot: u32, generation: u32) returns (r: Result<()>)
      modifies this
      ensures (State(), r) == Model.ReplayAlloc(old(State()), slot, generation)
    {
      if slot >= maxSlots {
        return Err(OutOfRange);
      }
      hide Without;
      ghost var before := generations;
      while |generations| <= slot as nat
        invariant nextSlot == old(nextSlot) && freeSlots == old(freeSlots)
        invariant before <= generations
        invariant |before| <= slot as nat ==> |generations| <= slot as nat + 1
        invariant slot as nat < |before| ==> generations == before
        invariant forall i | |before| <= i < |generations| :: generations[i] == 0
        decreases slot as nat - |generations|
      {
        generations := generations + [0];
      }
      assert generations == Covering(before, slot);
      generations := generations[slot as nat := generation];
      freeSlots := Without(freeSlots, slot);
      if slot + 1 > nextSlot {
        nextSlot := slot + 1;
      }
      return Ok(());
    }

    method ReplayFree(slot: u32) returns (r: Result<()>)
      modifies this
      ensures (State(), r) == Model.ReplayFree(old(State()), slot)
    {
      if slot as nat >= |generations| {
        return Err(OutOfRange);
      }
      if slot in freeSlots {
        return Err(DoubleFree);
      }
      freeSlots := freeSlots + [slot];
      return Ok(());
    }
  }
}
