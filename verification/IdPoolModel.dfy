/** The recycling slot allocator of `id_pool.rs` as a value, and what holds over every run of
    allocations and frees. */
module IdPoolModel {
  import opened Machine

  /** How many generations there are before they repeat. */
  const GENERATIONS: nat := 0x1_0000_0000

  datatype PoolError = Exhausted | OutOfRange | DoubleFree

  datatype Result<+A> = Ok(value: A) | Err(error: PoolError)

  datatype Pool = Pool(nextSlot: u32, freeSlots: seq<u32>, generations: seq<u32>, maxSlots: u32)

  // ---------------------------------------------------------------------------
  // Operations
  // ---------------------------------------------------------------------------

  function New(maxSlots: u32): Pool {
    Pool(0, [], [], maxSlots)
  }

  /** `wrapping_add(1)`. */
  function Bump(g: u32): u32 {
    if g == 0xFFFF_FFFF then 0 else g + 1
  }

  function Alloc(p: Pool): (Pool, Result<(u32, u32)>)
    requires Sound(p)
  {
    if p.freeSlots != [] then
      var n := |p.freeSlots| - 1;
      var slot := p.freeSlots[n];
      var g := Bump(p.generations[slot]);
      (p.(freeSlots := p.freeSlots[..n], generations := p.generations[slot as nat := g]), Ok((slot, g)))
    else if p.nextSlot >= p.maxSlots then (p, Err(Exhausted))
    else (p.(nextSlot := p.nextSlot + 1, generations := p.generations + [0]), Ok((p.nextSlot, 0)))
  }

  function Free(p: Pool, slot: u32): (Pool, Result<()>) {
    if slot as nat >= |p.generations| then (p, Err(OutOfRange))
    else if slot in p.freeSlots then (p, Err(DoubleFree))
    else (p.(freeSlots := p.freeSlots + [slot]), Ok(()))
  }

  predicate IsCurrent(p: Pool, slot: u32, generation: u32) {
    slot as nat < |p.generations| && p.generations[slot] == generation
  }

  /** `Vec::retain(|s| s != slot)`. */
  function Without(s: seq<u32>, slot: u32): (r: seq<u32>)
    ensures slot !in r && forall x :: x in r <==> x in s && x != slot
    ensures slot !in s ==> r == s
  {
    if s == [] then []
    else Without(s[..|s| - 1], slot) + if s[|s| - 1] == slot then [] else [s[|s| - 1]]
  }

  function Zeros(n: nat): (r: seq<u32>)
    ensures |r| == n && forall i | 0 <= i < n :: r[i] == 0
  {
    seq(n, _ => 0)
  }

  /** The generations, grown with zeros until they cover `slot`. */
  function Covering(gens: seq<u32>, slot: u32): (r: seq<u32>)
    ensures gens <= r && slot as nat < |r|
  {
    if slot as nat < |gens| then gens else gens + Zeros(slot as nat + 1 - |gens|)
  }

  function ReplayAlloc(p: Pool, slot: u32, generation: u32): (Pool, Result<()>) {
    if slot >= p.maxSlots then (p, Err(OutOfRange))
    else
      (Pool(if slot + 1 > p.nextSlot then slot + 1 else p.nextSlot,
            Without(p.freeSlots, slot),
            Covering(p.generations, slot)[slot as nat := generation],
            p.maxSlots), Ok(()))
  }

  /** `replay_free` is `free`: the generation moves on the next hand-out, not here. */
  function ReplayFree(p: Pool, slot: u32): (Pool, Result<()>) {
    Free(p, slot)
  }

  predicate Distinct(s: seq<u32>) {
    forall i, j | 0 <= i < j < |s| :: s[i] != s[j]
  }

  /** What `restore_from` checks of a snapshot, in its order. */
  ghost function Restore(snapshot: Pool): Result<Pool> {
    if snapshot.nextSlot as nat != |snapshot.generations| then Err(OutOfRange)
    else if |set s | s in snapshot.freeSlots| != |snapshot.freeSlots| then Err(DoubleFree)
    else if exists s :: s in snapshot.freeSlots && s as nat >= |snapshot.generations| then Err(OutOfRange)
    else Ok(snapshot)
  }

  // ---------------------------------------------------------------------------
  // The invariant
  // ---------------------------------------------------------------------------

  /** One generation per slot, and the free list names existing slots, each once. */
  predicate Sound(p: Pool) {
    && p.nextSlot as nat == |p.generations|
    && Distinct(p.freeSlots)
    && forall i | 0 <= i < |p.freeSlots| :: p.freeSlots[i] as nat < |p.generations|
  }

  /** A pool that has only ever been allocated from and freed into. */
  predicate Valid(p: Pool) {
    Sound(p) && p.nextSlot <= p.maxSlots
  }

  ghost predicate Live(p: Pool, slot: u32) {
    slot as nat < |p.generations| && slot !in p.freeSlots
  }

  function ActiveCount(p: Pool): int {
    |p.generations| - |p.freeSlots|
  }

  /** An allocation hands out a slot that was not live, makes it live, and touches no other. */
  lemma AllocHandsOutDeadSlot(p: Pool)
    requires Valid(p)
    ensures var (p', r) := Alloc(p);
            && Valid(p') && p'.maxSlots == p.maxSlots
            && (r.Ok? ==> !Live(p, r.value.0) && IsCurrent(p', r.value.0, r.value.1)
                          && r.value.0 < p.maxSlots && ActiveCount(p') == ActiveCount(p) + 1
                          && forall s :: Live(p', s) <==> Live(p, s) || s == r.value.0)
            && (r.Err? ==> p' == p && r.error == Exhausted)
  {
    var (p', r) := Alloc(p);
    if p.freeSlots != [] {
      var n := |p.freeSlots| - 1;
      assert p.freeSlots == p.freeSlots[..n] + [p.freeSlots[n]];
    }
  }

  /** Freeing succeeds exactly on live slots, and takes that slot alone out of use. */
  lemma FreeTakesLiveSlot(p: Pool, slot: u32)
    requires Valid(p)
    ensures var (p', r) := Free(p, slot);
            && Valid(p') && p'.maxSlots == p.maxSlots && p'.generations == p.generations
            && (r.Ok? <==> Live(p, slot))
            && (r.Ok? ==> ActiveCount(p') == ActiveCount(p) - 1 && forall s :: Live(p', s) <==> Live(p, s) && s != slot)
            && (r.Err? ==> p' == p && r.error == if slot as nat < |p.generations| then DoubleFree else OutOfRange)
  {
  }

  lemma {:induction false} SetOfDistinct(s: seq<u32>)
    ensures |set x | x in s| <= |s|
    ensures |set x | x in s| == |s| <==> Distinct(s)
  {
    if s == [] {
      assert (set x | x in s) == {};
    } else {
      var n := |s| - 1;
      SetOfDistinct(s[..n]);
      var front := set x | x in s[..n];
      assert s == s[..n] + [s[n]];
      assert (set x | x in s) == front + {s[n]};
      if s[n] in s[..n] {
        assert front + {s[n]} == front;
        var i :| 0 <= i < n && s[i] == s[n];
        assert !Distinct(s);
      }
    }
  }

  lemma {:induction false} SmallSet(a: set<u32>, n: nat)
    requires forall x | x in a :: x as nat < n
    ensures |a| <= n
    decreases n
  {
    if n == 0 {
      assert a == {};
    } else if n <= GENERATIONS {
      var top := (n - 1) as u32;
      SmallSet(a - {top}, n - 1);
    } else {
      SmallSet(a, n - 1);
    }
  }

  lemma FreeListFits(s: seq<u32>, n: nat)
    requires Distinct(s) && forall i | 0 <= i < |s| :: s[i] as nat < n
    ensures |s| <= n
  {
    SetOfDistinct(s);
    SmallSet((set x | x in s), n);
  }

  /** The pool is exhausted exactly when all `max_slots` slots are live. */
  lemma ExhaustedWhenFull(p: Pool)
    requires Valid(p)
    ensures Alloc(p).1.Err? <==> ActiveCount(p) == p.maxSlots as int
  {
    FreeListFits(p.freeSlots, |p.generations|);
  }

  // ---------------------------------------------------------------------------
  // Snapshots
  // ---------------------------------------------------------------------------

  /** `restore_from` accepts exactly the snapshots that meet the documented invariants, and gives
      back the pool the snapshot was taken from. It does not compare the slots with the cap. */
  lemma RestoreAcceptsSound(snapshot: Pool)
    ensures Restore(snapshot).Ok? <==> Sound(snapshot)
    ensures Restore(snapshot).Ok? ==> Restore(snapshot).value == snapshot
    ensures Restore(snapshot) == Err(DoubleFree) <==>
              snapshot.nextSlot as nat == |snapshot.generations| && !Distinct(snapshot.freeSlots)
    ensures Restore(snapshot).Err? && Restore(snapshot).error != DoubleFree ==> Restore(snapshot).error == OutOfRange
  {
    SetOfDistinct(snapshot.freeSlots);
    var free := snapshot.freeSlots;
    if i :| 0 <= i < |free| && free[i] as nat >= |snapshot.generations| {
      assert free[i] in free;
    }
  }

  // ---------------------------------------------------------------------------
  // Runs
  // ---------------------------------------------------------------------------

  datatype Cmd = DoAlloc | DoFree(slot: u32)

  datatype Event = Allocated(slot: u32, generation: u32) | Freed(slot: u32)

  /** A run so far: the pool, the records of what succeeded, and the peak of active slots. */
  datatype Trace = Trace(pool: Pool, log: seq<Event>, peak: int)

  function Max(a: int, b: int): int {
    if a < b then b else a
  }

  function Step(tr: Trace, cmd: Cmd): Trace
    requires Sound(tr.pool)
  {
    match cmd
    case DoAlloc =>
      var (p, r) := Alloc(tr.pool);
      Trace(p, if r.Ok? then tr.log + [Allocated(r.value.0, r.value.1)] else tr.log, Max(tr.peak, ActiveCount(p)))
    case DoFree(slot) =>
      var (p, r) := Free(tr.pool, slot);
      Trace(p, if r.Ok? then tr.log + [Freed(slot)] else tr.log, Max(tr.peak, ActiveCount(p)))
  }

  function Run(maxSlots: u32, cmds: seq<Cmd>): (tr: Trace)
    ensures Sound(tr.pool) && tr.pool.maxSlots == maxSlots
  {
    if cmds == [] then Trace(New(maxSlots), [], 0)
    else
      var tr := Run(maxSlots, cmds[..|cmds| - 1]);
      StepIsSound(tr, cmds[|cmds| - 1]);
      Step(tr, cmds[|cmds| - 1])
  }

  lemma StepIsSound(tr: Trace, cmd: Cmd)
    requires Sound(tr.pool)
    ensures Sound(Step(tr, cmd).pool) && Step(tr, cmd).pool.maxSlots == tr.pool.maxSlots
  {
  }

  /** One more than the index of the latest free of `slot` in the log; zero if there is none. */
  function LastFreed(log: seq<Event>, slot: u32): (n: nat)
    ensures n <= |log|
  {
    if log == [] then 0
    else if log[|log| - 1] == Freed(slot) then |log|
    else LastFreed(log[..|log| - 1], slot)
  }

  /** The free list is in the order of the frees, latest last. */
  ghost predicate Ordered(tr: Trace) {
    forall i, j | 0 <= i < j < |tr.pool.freeSlots| ::
      LastFreed(tr.log, tr.pool.freeSlots[i]) < LastFreed(tr.log, tr.pool.freeSlots[j])
  }

  lemma LastFreedAppend(log: seq<Event>, e: Event, slot: u32)
    ensures LastFreed(log + [e], slot) == if e == Freed(slot) then |log| + 1 else LastFreed(log, slot)
  {
    assert (log + [e])[..|log|] == log;
  }

  lemma StepIsOrdered(tr: Trace, cmd: Cmd)
    requires Sound(tr.pool) && Ordered(tr)
    ensures Ordered(Step(tr, cmd))
  {
    hide LastFreed;
    var tr' := Step(tr, cmd);
    var n, n' := |tr.log|, |tr'.log|;
    if n' > n {
      var e := tr'.log[n];
      forall s: u32 ensures LastFreed(tr'.log, s) == if e == Freed(s) then n + 1 else LastFreed(tr.log, s) {
        LastFreedAppend(tr.log, e, s);
      }
    }
  }

  lemma {:induction false} EveryRunIsOrdered(maxSlots: u32, cmds: seq<Cmd>)
    ensures Ordered(Run(maxSlots, cmds))
  {
    hide Step, Ordered;
    if cmds == [] {
      NothingIsOrdered(maxSlots);
    } else {
      EveryRunIsOrdered(maxSlots, cmds[..|cmds| - 1]);
      StepIsOrdered(Run(maxSlots, cmds[..|cmds| - 1]), cmds[|cmds| - 1]);
    }
  }

  lemma NothingIsOrdered(maxSlots: u32)
    ensures Ordered(Trace(New(maxSlots), [], 0))
  {
  }

  /** In every run an allocation hands out the slot freed latest among those that exist and are not
      live, and a new slot, the next one at generation 0, only when there is none. */
  lemma AllocTakesLatestFreed(maxSlots: u32, cmds: seq<Cmd>)
    requires Alloc(Run(maxSlots, cmds).pool).1.Ok?
    ensures var tr := Run(maxSlots, cmds); var (slot, g) := Alloc(tr.pool).1.value;
            && (forall s: u32 | s as nat < |tr.pool.generations| && !Live(tr.pool, s) ::
                  slot as nat < |tr.pool.generations| && (s != slot ==> LastFreed(tr.log, s) < LastFreed(tr.log, slot)))
            && ((forall s: u32 | s as nat < |tr.pool.generations| :: Live(tr.pool, s)) ==>
                  slot as nat == |tr.pool.generations| && g == 0)
  {
    hide Run, LastFreed;
    EveryRunIsOrdered(maxSlots, cmds);
    var p := Run(maxSlots, cmds).pool;
    if p.freeSlots != [] {
      var n := |p.freeSlots| - 1;
      assert p.freeSlots[n] as nat < |p.generations| && !Live(p, p.freeSlots[n]);
      forall s: u32 | s in p.freeSlots && s != p.freeSlots[n]
        ensures LastFreed(Run(maxSlots, cmds).log, s) < LastFreed(Run(maxSlots, cmds).log, p.freeSlots[n])
      {
        var i :| 0 <= i < n && p.freeSlots[i] == s;
      }
    }
  }

  /** How often a log hands out `slot`. */
  function HandOuts(log: seq<Event>, slot: u32): nat {
    if log == [] then 0
    else
      var e := log[|log| - 1];
      HandOuts(log[..|log| - 1], slot) + if e.Allocated? && e.slot == slot then 1 else 0
  }

  lemma HandOutsAppend(log: seq<Event>, e: Event, slot: u32)
    ensures HandOuts(log + [e], slot) == HandOuts(log, slot) + if e.Allocated? && e.slot == slot then 1 else 0
  {
    assert (log + [e])[..|log|] == log;
  }

  /** Number `k` of the hand-outs of a slot carries generation `k` modulo 2^32. */
  ghost predicate Numbered(log: seq<Event>) {
    forall j | 0 <= j < |log| && log[j].Allocated? ::
      log[j].generation as nat == HandOuts(log[..j], log[j].slot) % GENERATIONS
  }

  ghost predicate Consistent(tr: Trace) {
    && Valid(tr.pool)
    && tr.peak == |tr.pool.generations|
    && Numbered(tr.log)
    && (forall s: u32 | s as nat < |tr.pool.generations| ::
          HandOuts(tr.log, s) > 0 && tr.pool.generations[s] as nat == (HandOuts(tr.log, s) - 1) % GENERATIONS)
    && (forall s: u32 | s as nat >= |tr.pool.generations| :: HandOuts(tr.log, s) == 0)
  }

  lemma BumpIsNext(g: u32, n: nat)
    requires n > 0 && g as nat == (n - 1) % GENERATIONS
    ensures Bump(g) as nat == n % GENERATIONS
  {
  }

  lemma NumberedAppend(log: seq<Event>, e: Event)
    requires Numbered(log)
    requires e.Allocated? ==> e.generation as nat == HandOuts(log, e.slot) % GENERATIONS
    ensures Numbered(log + [e])
  {
    var log' := log + [e];
    forall j | 0 <= j < |log'| && log'[j].Allocated?
      ensures log'[j].generation as nat == HandOuts(log'[..j], log'[j].slot) % GENERATIONS
    {
      if j < |log| {
        assert log'[..j] == log[..j];
      } else {
        assert log'[..j] == log;
      }
    }
  }

  lemma AllocIsConsistent(tr: Trace)
    requires Consistent(tr)
    ensures Consistent(Step(tr, DoAlloc))
  {
    hide HandOuts, Numbered;
    var (p, r) := Alloc(tr.pool);
    AllocHandsOutDeadSlot(tr.pool);
    FreeListFits(tr.pool.freeSlots, |tr.pool.generations|);
    if r.Ok? {
      var (slot, g) := r.value;
      if tr.pool.freeSlots != [] {
        BumpIsNext(tr.pool.generations[slot], HandOuts(tr.log, slot));
      }
      var e := Allocated(slot, g);
      NumberedAppend(tr.log, e);
      forall s: u32 ensures HandOuts(tr.log + [e], s) == HandOuts(tr.log, s) + if s == slot then 1 else 0 {
        HandOutsAppend(tr.log, e, s);
      }
    }
  }

  lemma FreeIsConsistent(tr: Trace, slot: u32)
    requires Consistent(tr)
    ensures Consistent(Step(tr, DoFree(slot)))
  {
    hide HandOuts, Numbered;
    FreeTakesLiveSlot(tr.pool, slot);
    FreeListFits(tr.pool.freeSlots, |tr.pool.generations|);
    if Free(tr.pool, slot).1.Ok? {
      var e := Freed(slot);
      NumberedAppend(tr.log, e);
      forall s: u32 ensures HandOuts(tr.log + [e], s) == HandOuts(tr.log, s) {
        HandOutsAppend(tr.log, e, s);
      }
    }
  }

  /** Over every run the pool stays valid, the hand-outs of each slot are numbered by its
      generations, the stored generation is that of the latest hand-out, and as many slots exist
      as were ever active at once. */
  lemma {:induction false} EveryRunIsConsistent(maxSlots: u32, cmds: seq<Cmd>)
    ensures Consistent(Run(maxSlots, cmds))
  {
    hide Numbered, Step;
    if cmds == [] {
      assert Numbered([]) by { EmptyIsNumbered(); }
    } else {
      var front := cmds[..|cmds| - 1];
      EveryRunIsConsistent(maxSlots, front);
      match cmds[|cmds| - 1]
      case DoAlloc => AllocIsConsistent(Run(maxSlots, front));
      case DoFree(slot) => FreeIsConsistent(Run(maxSlots, front), slot);
    }
  }

  lemma EmptyIsNumbered()
    ensures Numbered([])
  {
  }

  lemma {:induction false} HandOutsGrow(log: seq<Event>, i: nat, j: nat, slot: u32)
    requires i <= j <= |log|
    ensures HandOuts(log[..i], slot) <= HandOuts(log[..j], slot)
    ensures i < j && log[i].Allocated? && log[i].slot == slot ==> HandOuts(log[..i], slot) < HandOuts(log[..j], slot)
    decreases j
  {
    if i < j {
      HandOutsGrow(log, i, j - 1, slot);
      assert log[..j] == log[..j - 1] + [log[j - 1]];
      HandOutsAppend(log[..j - 1], log[j - 1], slot);
    }
  }

  /** Two hand-outs of a slot carry the same generation exactly when their numbers differ by a
      multiple of 2^32; so no pair is repeated while the slot is handed out at most 2^32 times. */
  lemma PairsAreUnique(log: seq<Event>, i: nat, j: nat)
    requires Numbered(log) && i < j < |log| && log[i].Allocated? && log[j].Allocated? && log[i].slot == log[j].slot
    ensures log[i].generation == log[j].generation
       <==> (HandOuts(log[..j], log[j].slot) - HandOuts(log[..i], log[i].slot)) % GENERATIONS == 0
    ensures HandOuts(log[..j], log[j].slot) < GENERATIONS ==> log[i].generation != log[j].generation
  {
    HandOutsGrow(log, i, j, log[i].slot);
    SameRemainder(HandOuts(log[..i], log[i].slot), HandOuts(log[..j], log[j].slot));
  }

  lemma SameRemainder(a: nat, b: nat)
    ensures a % GENERATIONS == b % GENERATIONS <==> (b - a) % GENERATIONS == 0
  {
  }

  /** A pair is current exactly from its hand-out until the slot is handed out again: with fewer
      than 2^32 hand-outs of the slot, it is current iff it is the latest one. */
  lemma CurrentIsLatest(tr: Trace, i: nat)
    requires Consistent(tr) && i < |tr.log| && tr.log[i].Allocated?
    requires HandOuts(tr.log, tr.log[i].slot) <= GENERATIONS
    ensures IsCurrent(tr.pool, tr.log[i].slot, tr.log[i].generation)
       <==> HandOuts(tr.log[..i + 1], tr.log[i].slot) == HandOuts(tr.log, tr.log[i].slot)
  {
    hide HandOuts, Consistent;
    var slot := tr.log[i].slot;
    assert tr.log[..|tr.log|] == tr.log;
    assert tr.log[..i + 1] == tr.log[..i] + [tr.log[i]];
    HandOutsAppend(tr.log[..i], tr.log[i], slot);
    HandOutsGrow(tr.log, i, |tr.log|, slot);
    HandOutsGrow(tr.log, i + 1, |tr.log|, slot);
    GenerationsTell(tr, i);
    SmallRemainder(HandOuts(tr.log[..i], slot));
    SmallRemainder(HandOuts(tr.log, slot) - 1);
  }

  lemma GenerationsTell(tr: Trace, i: nat)
    requires Consistent(tr) && i < |tr.log| && tr.log[i].Allocated? && HandOuts(tr.log, tr.log[i].slot) > 0
    ensures var slot := tr.log[i].slot;
            && tr.log[i].generation as nat == HandOuts(tr.log[..i], slot) % GENERATIONS
            && slot as nat < |tr.pool.generations|
            && tr.pool.generations[slot] as nat == (HandOuts(tr.log, slot) - 1) % GENERATIONS
  {
    hide HandOuts;
  }

  lemma SmallRemainder(n: nat)
    requires n < GENERATIONS
    ensures n % GENERATIONS == n
  {
  }

  // ---------------------------------------------------------------------------
  // Replay
  // ---------------------------------------------------------------------------

  function ReplayStep(p: Pool, e: Event): (Pool, Result<()>) {
    match e
    case Allocated(slot, generation) => ReplayAlloc(p, slot, generation)
    case Freed(slot) => ReplayFree(p, slot)
  }

  /** Feed a log to a pool, stopping at the first error. */
  function Replay(p: Pool, log: seq<Event>): Result<Pool> {
    if log == [] then Ok(p)
    else
      match Replay(p, log[..|log| - 1])
      case Err(e) => Err(e)
      case Ok(q) =>
        var (q', r) := ReplayStep(q, log[|log| - 1]);
        if r.Ok? then Ok(q') else Err(r.error)
  }

  lemma {:induction false} WithoutLast(s: seq<u32>, x: u32)
    requires x !in s
    ensures Without(s + [x], x) == s
  {
    assert (s + [x])[..|s|] == s;
  }

  lemma {:induction false} WithoutIsDistinct(s: seq<u32>, x: u32)
    requires Distinct(s)
    ensures Distinct(Without(s, x))
  {
    if s != [] {
      WithoutIsDistinct(s[..|s| - 1], x);
      assert s[|s| - 1] !in s[..|s| - 1];
    }
  }

  /** Replaying an allocation, in whatever order, leaves a sound pool in which that slot is live with
      that generation; replaying it again changes nothing. The other slots keep their generations and
      whether they are live, except that slots skipped over come to exist, live and at generation 0. */
  lemma ReplayAllocIsIdempotent(p: Pool, slot: u32, generation: u32)
    requires Sound(p)
    ensures var (q, r) := ReplayAlloc(p, slot, generation);
            && Sound(q) && ReplayAlloc(q, slot, generation) == (q, r)
            && (r.Ok? <==> slot < p.maxSlots)
            && (r.Err? ==> q == p && r.error == OutOfRange)
            && (r.Ok? ==> IsCurrent(q, slot, generation))
            && (r.Ok? ==> forall s: u32 :: Live(q, s) <==> Live(p, s) || s == slot || Skipped(p, slot, s))
            && (forall s: u32 | s != slot && s as nat < |q.generations| ::
                  q.generations[s] == if s as nat < |p.generations| then p.generations[s] else 0)
  {
    ReplayAllocKeepsSound(p, slot, generation);
    ReplayAllocAgain(p, slot, generation);
    if slot < p.maxSlots {
      forall s: u32 ensures Live(ReplayAlloc(p, slot, generation).0, s) <==> Live(p, s) || s == slot || Skipped(p, slot, s) {
        ReplayAllocLives(p, slot, generation, s);
      }
    }
  }

  lemma ReplayAllocKeepsSound(p: Pool, slot: u32, generation: u32)
    requires Sound(p)
    ensures Sound(ReplayAlloc(p, slot, generation).0)
  {
    hide Without;
    WithoutIsDistinct(p.freeSlots, slot);
    var q := ReplayAlloc(p, slot, generation).0;
    if slot < p.maxSlots {
      forall i | 0 <= i < |q.freeSlots| ensures q.freeSlots[i] as nat < |q.generations| {
        assert q.freeSlots[i] in p.freeSlots;
      }
    }
  }

  lemma ReplayAllocAgain(p: Pool, slot: u32, generation: u32)
    ensures var (q, r) := ReplayAlloc(p, slot, generation); ReplayAlloc(q, slot, generation) == (q, r)
  {
    hide Without;
    if slot < p.maxSlots {
      var q := ReplayAlloc(p, slot, generation).0;
      assert Covering(q.generations, slot) == q.generations;
      assert q.generations[slot as nat := generation] == q.generations;
    }
  }

  lemma ReplayAllocLives(p: Pool, slot: u32, generation: u32, s: u32)
    requires Sound(p) && slot < p.maxSlots
    ensures Live(ReplayAlloc(p, slot, generation).0, s) <==> Live(p, s) || s == slot || Skipped(p, slot, s)
  {
    hide Without;
    if s in p.freeSlots {
      assert s as nat < |p.generations|;
    }
  }

  /** Slot `s` did not exist and is below `slot`. */
  predicate Skipped(p: Pool, slot: u32, s: u32) {
    |p.generations| <= s as nat && s < slot
  }

  /** Replaying an allocation disturbs no other slot exactly when it skips none: when its slot exists
      or is the next one, as in a log replayed in order. */
  lemma ReplayAllocDisturbsNone(p: Pool, slot: u32, generation: u32)
    requires Sound(p) && slot < p.maxSlots
    ensures (forall s: u32 | s != slot :: Live(ReplayAlloc(p, slot, generation).0, s) <==> Live(p, s))
            <==> slot as nat <= |p.generations|
  {
    ReplayAllocIsIdempotent(p, slot, generation);
    if |p.generations| < slot as nat {
      var s := |p.generations| as u32;
      assert Skipped(p, slot, s) && !Live(p, s);
    }
  }

  /** Replaying slot 5 first makes slots 0 to 4 live, and a free of slot 0, which no record handed
      out, is then accepted. */
  lemma ReplayRevivesSkippedSlots()
    ensures var q := ReplayAlloc(New(8), 5, 0).0;
            && (forall s: u32 :: Live(q, s) <==> s <= 5)
            && !Live(New(8), 0) && ReplayFree(q, 0).1.Ok? && ReplayFree(New(8), 0).1.Err?
  {
    ReplayAllocIsIdempotent(New(8), 5, 0);
    var q := ReplayAlloc(New(8), 5, 0).0;
    assert forall s: u32 :: Live(q, s) <==> s == 5 || Skipped(New(8), 5, s);
    assert Live(q, 0);
  }

  /** Replaying the record of an allocation does to the pool what the allocation did. */
  lemma ReplayedAllocIsAlloc(p: Pool)
    requires Valid(p) && Alloc(p).1.Ok?
    ensures var (slot, g) := Alloc(p).1.value; ReplayAlloc(p, slot, g) == (Alloc(p).0, Ok(()))
  {
    var (p', r) := Alloc(p);
    var slot := r.value.0;
    if p.freeSlots != [] {
      var n := |p.freeSlots| - 1;
      assert p.freeSlots == p.freeSlots[..n] + [slot];
      WithoutLast(p.freeSlots[..n], slot);
    } else {
      assert Covering(p.generations, slot)[slot as nat := 0] == p.generations + [0];
    }
  }

  /** Feeding the log of any live run to a fresh pool of the same cap rebuilds the pool exactly,
      the order of the free list included. */
  lemma {:induction false} ReplayRebuilds(maxSlots: u32, cmds: seq<Cmd>)
    ensures Replay(New(maxSlots), Run(maxSlots, cmds).log) == Ok(Run(maxSlots, cmds).pool)
  {
    hide Alloc, Free, ReplayAlloc, Consistent;
    if cmds != [] {
      var front := cmds[..|cmds| - 1];
      var tr := Run(maxSlots, front);
      ReplayRebuilds(maxSlots, front);
      EveryRunIsConsistent(maxSlots, front);
      ConsistentIsValid(tr);
      var log := Run(maxSlots, cmds).log;
      match cmds[|cmds| - 1]
      case DoAlloc =>
        if Alloc(tr.pool).1.Ok? {
          ReplayedAllocIsAlloc(tr.pool);
          assert log[..|log| - 1] == tr.log;
        } else {
          AllocHandsOutDeadSlot(tr.pool);
        }
      case DoFree(slot) =>
        FreeTakesLiveSlot(tr.pool, slot);
        if Free(tr.pool, slot).1.Ok? {
          assert log[..|log| - 1] == tr.log;
        }
    }
  }

  lemma ConsistentIsValid(tr: Trace)
    requires Consistent(tr)
    ensures Valid(tr.pool)
  {
  }
}
