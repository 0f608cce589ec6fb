/** Whole runs of the hierarchical wheel: any interleaving of inserts, advances of any size and
    clears, and the two drivers that use it, one that ticks and one that sleeps. */
module WheelRuns {
  import opened Machine
  import opened WheelModel
  import opened WheelInvariant
  import opened WheelDriver
  import opened WheelCascade

  // ---------------------------------------------------------------------------
  // Arbitrary runs
  // ---------------------------------------------------------------------------

  datatype Op<+T> = Schedule(timer: Timer<T>) | AdvanceTo(now: nat) | ClearAll

  /** `timer` fired when the clock moved from `since` to `at`. */
  datatype Firing<+T> = Firing(timer: Timer<T>, since: nat, at: nat)

  /** `timer` was placed where it can be handed over `rank` times. */
  datatype Grant<+T> = Grant(timer: Timer<T>, rank: nat)

  /** A run so far: the wheel, what was scheduled and fired since the last clear, and since the
      start the timers handed over and the ranks that inserts granted. */
  datatype Trace<+T> = Trace(wheel: Wheel<T>, scheduled: seq<Timer<T>>, fired: seq<Firing<T>>,
                             handed: seq<Timer<T>>, granted: seq<Grant<T>>)

  function Stamp<T>(ts: seq<Timer<T>>, since: nat, at: nat): (fs: seq<Firing<T>>)
    ensures |fs| == |ts| && forall i | 0 <= i < |ts| :: fs[i] == Firing(ts[i], since, at)
  {
    seq(|ts|, i requires 0 <= i < |ts| => Firing(ts[i], since, at))
  }

  function Timers<T>(fs: seq<Firing<T>>): (ts: seq<Timer<T>>)
    ensures |ts| == |fs| && forall i | 0 <= i < |fs| :: ts[i] == fs[i].timer
  {
    seq(|fs|, i requires 0 <= i < |fs| => fs[i].timer)
  }

  ghost function Step<T>(tr: Trace<T>, op: Op<T>): Trace<T>
    requires Shaped(tr.wheel)
  {
    var w := tr.wheel;
    match op
    case Schedule(t) =>
      if t.expireAt as nat <= w.now then tr
      else tr.(wheel := InsertTimer(w, t).0, scheduled := tr.scheduled + [t],
               granted := tr.granted + [Grant(t, HomeRank(w.tick, w.now, t))])
    case AdvanceTo(now) =>
      var (w', ts) := Advance(w, now);
      tr.(wheel := w', fired := tr.fired + Stamp(ts, w.now, now), handed := tr.handed + HandOvers(w, now))
    case ClearAll =>
      tr.(wheel := WheelModel.Clear(w), scheduled := [], fired := [])
  }

  ghost function Run<T>(tick: nat, start: nat, ops: seq<Op<T>>): (tr: Trace<T>)
    requires tick > 0
    ensures Shaped(tr.wheel) && tr.wheel.tick == tick
  {
    if ops == [] then Trace(New(tick, start), [], [], [], [])
    else
      var tr := Run(tick, start, ops[..|ops| - 1]);
      StepShape(tr, ops[|ops| - 1]);
      Step(tr, ops[|ops| - 1])
  }

  lemma StepShape<T>(tr: Trace<T>, op: Op<T>)
    requires Shaped(tr.wheel)
    ensures Shaped(Step(tr, op).wheel) && Step(tr, op).wheel.tick == tr.wheel.tick
  {
    hide Place, HomeRank;
    match op
    case Schedule(t) =>
    case AdvanceTo(now) =>
    case ClearAll =>
      var rings := WheelModel.Clear(tr.wheel).rings;
      assert forall l | 0 <= l < |rings| :: rings[l] == EmptyRing<T>();
  }

  /** A firing kept its promise: not before the deadline, and the clock had not yet been seen
      past the end of the deadline's tick. */
  predicate OnTime<T>(tick: nat, f: Firing<T>)
    requires tick > 0
  {
    f.timer.expireAt as nat <= f.at && Vid(tick, 0, f.since) <= Vid(tick, 0, f.timer.expireAt as nat)
  }

  /** What every run keeps. */
  ghost predicate Good<T>(tr: Trace<T>) {
    && Inv(tr.wheel)
    && (forall f | f in tr.fired :: OnTime(tr.wheel.tick, f))
  }

  lemma FiredWereHeld<T>(w: Wheel<T>, now: nat, t: Timer<T>)
    requires Shaped(w) && t in Advance(w, now).1
    ensures Holds(w, t)
  {
    var ts := DrainedUpTo(w, now, |w.rings|);
    DueMember(ts, now, |ts|, t);
    DrainedWereHeld(w, now, |w.rings|, t);
  }

  lemma AdvanceIsOnTime<T>(w: Wheel<T>, now: nat, f: Firing<T>)
    requires Inv(w) && f in Stamp(Advance(w, now).1, w.now, now)
    ensures OnTime(w.tick, f)
  {
    hide Advance, Inv, Vid, Stamp;
    var t := f.timer;
    InvIsShaped(w);
    FiredWereHeld(w, now, t);
    AdvanceFiresOnlyDue(w, now, t);
    StoredIsNotOverdue(w, t);
  }

  lemma {:induction false} ClearedPotential<T>(w: Wheel<T>, k: nat, p: Choice<T>)
    requires Shaped(w) && k <= |w.rings| && forall l | 0 <= l < |w.rings| :: w.rings[l] == EmptyRing()
    ensures RanksUpTo(w, k, p) == 0
    decreases k
  {
    hide RingRank, Cursor;
    if k > 0 {
      ClearedPotential(w, k - 1, p);
      EmptyRingRank(w.tick, k - 1, Cursor(w.tick, w.now, k - 1), w.rings[k - 1], 64, p);
    }
  }

  lemma StepKeepsGood<T>(tr: Trace<T>, op: Op<T>)
    requires Good(tr)
    ensures Good(Step(tr, op))
  {
    hide Inv, Advance, Place, HomeRank, HandOvers, OnTime, WheelModel.Clear;
    var w := tr.wheel;
    InvIsShaped(w);
    match op
    case Schedule(t) =>
      if w.now < t.expireAt as nat {
        PlaceKeepsInv(w, t);
      }
    case AdvanceTo(now) =>
      AdvanceKeepsInv(w, now);
      forall f | f in Step(tr, op).fired ensures OnTime(w.tick, f) {
        if f !in tr.fired {
          AdvanceIsOnTime(w, now, f);
        }
      }
    case ClearAll =>
      ClearKeepsInv(w);
  }

  lemma InvIsShaped<T>(w: Wheel<T>)
    requires Inv(w)
    ensures Shaped(w)
  {
  }

  lemma ClearIsEmpty<T>(w: Wheel<T>)
    requires Shaped(w)
    ensures var w' := WheelModel.Clear(w);
            Shaped(w') && |w'.rings| == |w.rings| && forall l | 0 <= l < |w'.rings| :: w'.rings[l] == EmptyRing()
  {
    var rings := WheelModel.Clear(w).rings;
    assert forall l | 0 <= l < |rings| :: rings[l] == EmptyRing<T>();
  }

  /** In every reachable state each stored timer is properly placed; over every run nothing
      fires early and nothing is missed by an advance past the end of its tick. */
  lemma {:induction false} EveryRunIsGood<T>(tick: nat, start: nat, ops: seq<Op<T>>)
    requires 0 < tick <= U64_MAX
    ensures Good(Run(tick, start, ops))
  {
    hide Inv, Step;
    if ops == [] {
      NewKeepsInv<T>(tick, start);
    } else {
      EveryRunIsGood(tick, start, ops[..|ops| - 1]);
      StepKeepsGood(Run(tick, start, ops[..|ops| - 1]), ops[|ops| - 1]);
    }
  }

  lemma TimersOfStamp<T>(fs: seq<Firing<T>>, ts: seq<Timer<T>>, since: nat, at: nat)
    ensures Timers(fs + Stamp(ts, since, at)) == Timers(fs) + ts
  {
  }

  lemma StepConserves<T>(tr: Trace<T>, op: Op<T>, f: Timer<T> -> nat)
    requires Shaped(tr.wheel) && Sum(tr.scheduled, f) == Sum(Timers(tr.fired), f) + Weigh(tr.wheel, f)
    ensures var tr' := Step(tr, op); Sum(tr'.scheduled, f) == Sum(Timers(tr'.fired), f) + Weigh(tr'.wheel, f)
  {
    hide Advance, Place, Weigh, HomeRank, HandOvers, WheelModel.Clear, Sum, Timers, Stamp;
    NothingWeighsNothing(f);
    var w := tr.wheel;
    match op
    case Schedule(t) =>
      PlaceAdds(w, t, f);
      SumPush(tr.scheduled, t, f);
    case AdvanceTo(now) =>
      AdvanceConserves(w, now, f);
      TimersOfStamp(tr.fired, Advance(w, now).1, w.now, now);
      SumAppend(Timers(tr.fired), Advance(w, now).1, f);
    case ClearAll =>
      ClearWeighsNothing(w, f);
  }

  lemma NothingWeighsNothing<T>(f: Timer<T> -> nat)
    ensures Sum([], f) == 0 && Timers<T>([]) == []
  {
  }

  /** Exactly once, over every run and under every weighing: what was scheduled is what fired
      plus what is still stored. */
  lemma {:induction false} EveryRunConserves<T>(tick: nat, start: nat, ops: seq<Op<T>>, f: Timer<T> -> nat)
    requires tick > 0
    ensures var tr := Run(tick, start, ops);
            Sum(tr.scheduled, f) == Sum(Timers(tr.fired), f) + Weigh(tr.wheel, f)
  {
    hide Step, Weigh;
    if ops == [] {
      NewWeighsNothing<T>(tick, start, f);
    } else {
      EveryRunConserves(tick, start, ops[..|ops| - 1], f);
      StepConserves(Run(tick, start, ops[..|ops| - 1]), ops[|ops| - 1], f);
    }
  }

  // ---------------------------------------------------------------------------
  // The same with multisets
  // ---------------------------------------------------------------------------

  ghost function RingBag<T>(ring: Ring<T>, k: nat): multiset<Timer<T>>
    requires k <= |ring|
  {
    if k == 0 then multiset{} else RingBag(ring, k - 1) + multiset(ring[k - 1])
  }

  ghost function RingsBag<T>(rings: seq<Ring<T>>, k: nat): multiset<Timer<T>>
    requires k <= |rings|
  {
    if k == 0 then multiset{} else RingsBag(rings, k - 1) + RingBag(rings[k - 1], |rings[k - 1]|)
  }

  /** Everything the wheel stores. */
  ghost function Stored<T>(w: Wheel<T>): multiset<Timer<T>> {
    RingsBag(w.rings, |w.rings|)
  }

  lemma {:induction false} CopiesInSeq<T>(ts: seq<Timer<T>>, x: Timer<T>)
    ensures multiset(ts)[x] == Sum(ts, Pick(Only(x)))
  {
    if ts != [] {
      var n := |ts| - 1;
      CopiesInSeq(ts[..n], x);
      assert ts == ts[..n] + [ts[n]];
    }
  }

  lemma {:induction false} CopiesInRing<T>(ring: Ring<T>, k: nat, x: Timer<T>)
    requires k <= |ring|
    ensures RingBag(ring, k)[x] == RingSum(ring, Pick(Only(x)), k)
  {
    if k > 0 {
      CopiesInRing(ring, k - 1, x);
      CopiesInSeq(ring[k - 1], x);
    }
  }

  lemma {:induction false} CopiesInRings<T>(rings: seq<Ring<T>>, k: nat, x: Timer<T>)
    requires k <= |rings|
    ensures RingsBag(rings, k)[x] == RingsSum(rings, Pick(Only(x)), k)
  {
    if k > 0 {
      CopiesInRings(rings, k - 1, x);
      CopiesInRing(rings[k - 1], |rings[k - 1]|, x);
    }
  }

  lemma SameCopies<T>(tick: nat, start: nat, ops: seq<Op<T>>, x: Timer<T>)
    requires tick > 0
    ensures var tr := Run(tick, start, ops);
            multiset(tr.scheduled)[x] == multiset(Timers(tr.fired))[x] + Stored(tr.wheel)[x]
  {
    hide Run, RingsBag, RingsSum;
    var tr := Run(tick, start, ops);
    EveryRunConserves(tick, start, ops, Pick(Only(x)));
    CopiesInSeq(tr.scheduled, x);
    CopiesInSeq(Timers(tr.fired), x);
    CopiesInRings(tr.wheel.rings, |tr.wheel.rings|, x);
  }

  /** Exactly once: over every run the timers scheduled are those fired and those still stored. */
  lemma EveryRunIsExactlyOnce<T>(tick: nat, start: nat, ops: seq<Op<T>>)
    requires tick > 0
    ensures var tr := Run(tick, start, ops);
            multiset(tr.scheduled) == multiset(Timers(tr.fired)) + Stored(tr.wheel)
  {
    hide Run, Stored;
    var tr := Run(tick, start, ops);
    var a, b := multiset(tr.scheduled), multiset(Timers(tr.fired)) + Stored(tr.wheel);
    forall x | x in a ensures a[x] <= b[x] {
      SameCopies(tick, start, ops, x);
    }
    forall x | x in b ensures b[x] <= a[x] {
      SameCopies(tick, start, ops, x);
    }
    assert a <= b && b <= a;
  }

  lemma {:induction false} InRing<T>(ring: Ring<T>, k: nat, x: Timer<T>) returns (i: nat)
    requires k <= |ring| && x in RingBag(ring, k)
    ensures i < k && x in ring[i]
  {
    if x in ring[k - 1] {
      i := k - 1;
    } else {
      i := InRing(ring, k - 1, x);
    }
  }

  lemma {:induction false} InRings<T>(rings: seq<Ring<T>>, k: nat, x: Timer<T>) returns (l: nat, i: nat)
    requires k <= |rings| && x in RingsBag(rings, k)
    ensures l < k && i < |rings[l]| && x in rings[l][i]
  {
    if x in RingBag(rings[k - 1], |rings[k - 1]|) {
      l := k - 1;
      i := InRing(rings[l], |rings[l]|, x);
    } else {
      l, i := InRings(rings, k - 1, x);
    }
  }

  /** Nothing is missed: over every run, each scheduled timer whose tick has ended by the clock has
      fired, every copy of it. */
  lemma EveryEndedTickHasFired<T>(tick: nat, start: nat, ops: seq<Op<T>>, t: Timer<T>)
    requires 0 < tick <= U64_MAX
    requires Times(Vid(tick, 0, t.expireAt as nat) + 1, tick) <= Run(tick, start, ops).wheel.now
    ensures var tr := Run(tick, start, ops); multiset(Timers(tr.fired))[t] == multiset(tr.scheduled)[t]
  {
    hide Run, RingsBag, Inv, Vid, Times;
    var tr := Run(tick, start, ops);
    EveryRunIsExactlyOnce(tick, start, ops);
    if t in Stored(tr.wheel) {
      EveryRunIsGood(tick, start, ops);
      var l, i := InRings(tr.wheel.rings, |tr.wheel.rings|, t);
      assert Holds(tr.wheel, t);
      StoredIsNotOverdue(tr.wheel, t);
      TickEnded(tick, t.expireAt as nat, tr.wheel.now);
    }
  }

  // ---------------------------------------------------------------------------
  // Hand-overs over whole runs
  // ---------------------------------------------------------------------------

  /** The ranks granted to chosen timers. */
  ghost function Ranks<T>(gs: seq<Grant<T>>, p: Choice<T>): nat {
    if gs == [] then 0 else Ranks(gs[..|gs| - 1], p) + RankIf(p, gs[|gs| - 1].timer, gs[|gs| - 1].rank)
  }

  /** Since `tr`, the hand-overs of chosen timers plus the rank they have left are at most the rank
      they had plus what they were granted. */
  ghost predicate Pays<T>(tr: Trace<T>, tr': Trace<T>, p: Choice<T>)
    requires Shaped(tr.wheel) && Shaped(tr'.wheel)
  {
    Sum(tr'.handed, Pick(p)) + Potential(tr'.wheel, p) + Ranks(tr.granted, p)
      <= Sum(tr.handed, Pick(p)) + Potential(tr.wheel, p) + Ranks(tr'.granted, p)
  }

  lemma StepPays<T>(tr: Trace<T>, op: Op<T>, p: Choice<T>)
    requires Inv(tr.wheel)
    ensures Shaped(Step(tr, op).wheel) && Pays(tr, Step(tr, op), p)
  {
    hide Inv, Advance, Place, HomeRank, RanksUpTo, HandOvers, WheelModel.Clear, Pick, RankIf;
    var w := tr.wheel;
    InvIsShaped(w);
    match op
    case Schedule(t) =>
      if w.now < t.expireAt as nat {
        PlaceRanks(w, t, p);
        var gs := tr.granted + [Grant(t, HomeRank(w.tick, w.now, t))];
        assert gs[..|gs| - 1] == tr.granted;
      }
    case AdvanceTo(now) =>
      AdvancePays(w, now, p);
      SumAppend(tr.handed, HandOvers(w, now), Pick(p));
    case ClearAll =>
      ClearIsEmpty(w);
      ClearedPotential(WheelModel.Clear(w), |w.rings|, p);
  }

  /** Over every run, and every stretch of one, the hand-overs of any choice of timers are paid for
      by the ranks of those timers, whatever else the wheel holds. */
  lemma {:induction false} EveryRunPays<T>(tick: nat, start: nat, pre: seq<Op<T>>, post: seq<Op<T>>, p: Choice<T>)
    requires 0 < tick <= U64_MAX
    ensures Pays(Run(tick, start, pre), Run(tick, start, pre + post), p)
    decreases |post|
  {
    hide Step, Inv, RanksUpTo;
    if post == [] {
      assert pre + post == pre;
    } else {
      var n := |post| - 1;
      EveryRunPays(tick, start, pre, post[..n], p);
      EveryRunIsGood(tick, start, pre + post[..n]);
      assert (pre + post)[..|pre + post| - 1] == pre + post[..n];
      StepPays(Run(tick, start, pre + post[..n]), post[n], p);
    }
  }

  /** Over every run, each timer is handed over, and has rank left, at most as often as the ranks
      granted to it say. */
  lemma EveryTimerPays<T>(tick: nat, start: nat, ops: seq<Op<T>>, x: Timer<T>)
    requires 0 < tick <= U64_MAX
    ensures var tr := Run(tick, start, ops);
            Sum(tr.handed, Pick(Only(x))) + Potential(tr.wheel, Only(x)) <= Ranks(tr.granted, Only(x))
  {
    hide Step, RanksUpTo;
    EveryRunPays(tick, start, [], ops, Only(x));
    assert [] + ops == ops;
    ClearedPotential(New<T>(tick, start), 1, Only(x));
  }

  lemma StepGrants<T>(tr: Trace<T>, op: Op<T>, x: Timer<T>)
    requires Shaped(tr.wheel) && op != Schedule(x)
    ensures Ranks(Step(tr, op).granted, Only(x)) == Ranks(tr.granted, Only(x))
  {
    hide InsertTimer, Advance, HomeRank, HandOvers, WheelModel.Clear;
    if op.Schedule? {
      var g := Grant(op.timer, HomeRank(tr.wheel.tick, tr.wheel.now, op.timer));
      assert (tr.granted + [g])[..|tr.granted|] == tr.granted;
    }
  }

  /** Nothing is granted to a timer that is not inserted. */
  lemma {:induction false} NoGrants<T>(tick: nat, start: nat, pre: seq<Op<T>>, post: seq<Op<T>>, x: Timer<T>)
    requires tick > 0 && forall n | 0 <= n < |post| :: post[n] != Schedule(x)
    ensures Ranks(Run(tick, start, pre + post).granted, Only(x)) == Ranks(Run(tick, start, pre).granted, Only(x))
    decreases |post|
  {
    hide Step, Ranks, Only;
    if post == [] {
      assert pre + post == pre;
    } else {
      var n := |post| - 1;
      NoGrants(tick, start, pre, post[..n], x);
      assert (pre + post)[..|pre + post| - 1] == pre + post[..n];
      StepGrants(Run(tick, start, pre + post[..n]), post[n], x);
    }
  }

  /** A timer found in bucket `i` of level `l` at any point of any run is handed over, from there on,
      at most as often as its rank there says: `l + 1` times unless it is parked. Other copies of it,
      stored or inserted later, would be counted with it. */
  lemma TimerIsHandedOverRarely<T>(tick: nat, start: nat, pre: seq<Op<T>>, post: seq<Op<T>>, l: nat, i: nat, x: Timer<T>)
    requires 0 < tick <= U64_MAX && forall n | 0 <= n < |post| :: post[n] != Schedule(x)
    requires var w := Run(tick, start, pre).wheel;
             l < |w.rings| && i < 64 && x in w.rings[l][i] && Weigh(w, Pick(Only(x))) == 1
    ensures var tr, tr' := Run(tick, start, pre), Run(tick, start, pre + post);
            var v := WindowId(Cursor(tick, tr.wheel.now, l), i);
            var times := Sum(tr'.handed, Pick(Only(x))) - Sum(tr.handed, Pick(Only(x)));
            && times <= Rank(tick, l, v, x)
            && (v == Vid(tick, l, x.expireAt as nat) ==> times <= l + 1)
  {
    hide Run, RanksUpTo, Weigh, Cursor, WindowId, Pick, Only;
    EveryRunPays(tick, start, pre, post, Only(x));
    NoGrants(tick, start, pre, post, x);
    SoleRank(Run(tick, start, pre).wheel, l, i, x);
  }

  // ---------------------------------------------------------------------------
  // 64-bit arithmetic over whole runs
  // ---------------------------------------------------------------------------

  /** Deadlines stay a tick short of the last 64-bit instant and the clock 64 milliseconds short. */
  predicate Bounded<T>(tick: nat, op: Op<T>) {
    match op
    case Schedule(t) => t.expireAt as nat + tick <= U64_MAX
    case AdvanceTo(now) => now + 64 <= U64_MAX
    case ClearAll => true
  }

  ghost function Late<T>(tick: nat): Timer<T> -> nat {
    (t: Timer<T>) => if t.expireAt as nat + tick <= U64_MAX then 0 else 1
  }

  lemma {:induction false} BoundedRun<T>(tick: nat, start: nat, ops: seq<Op<T>>)
    requires 0 < tick <= U64_MAX && start + 64 <= U64_MAX && forall i | 0 <= i < |ops| :: Bounded(tick, ops[i])
    ensures Run(tick, start, ops).wheel.now + 64 <= U64_MAX
    ensures Sum(Run(tick, start, ops).scheduled, Late(tick)) == 0
  {
    hide HomeRank, HandOvers, Place;
    if ops != [] {
      var tr, op := Run(tick, start, ops[..|ops| - 1]), ops[|ops| - 1];
      BoundedRun(tick, start, ops[..|ops| - 1]);
      EveryRunIsGood(tick, start, ops[..|ops| - 1]);
      match op
      case Schedule(t) => SumPush(tr.scheduled, t, Late(tick));
      case AdvanceTo(now) => AdvanceKeepsInv(tr.wheel, now);
      case ClearAll =>
    }
  }

  /** In every bounded run the wheel is always in a state where an insert, an advance to any bounded
      instant and the next expiry stay within 64 bits. */
  lemma EveryBoundedRunFits<T>(tick: nat, start: nat, ops: seq<Op<T>>, now: nat)
    requires 0 < tick <= U64_MAX && start + 64 <= U64_MAX && forall i | 0 <= i < |ops| :: Bounded(tick, ops[i])
    requires now + 64 <= U64_MAX
    ensures var w := Run(tick, start, ops).wheel;
            Quotient(w.now, tick) + 64 <= U64_MAX && ClockSafe(w, now) && ExpiriesFit(w)
  {
    hide Run, Quotient, Times, Vid;
    BoundedRun(tick, start, ops);
    var w := Run(tick, start, ops).wheel;
    WindowEdgeFits(tick, w.now);
    WindowEdgeFits(tick, now);
    EveryRunConserves(tick, start, ops, Late(tick));
    forall l, i, t | 0 <= l < |w.rings| && 0 <= i < |w.rings[l]| && t in w.rings[l][i]
      ensures Times(Vid(tick, 0, t.expireAt as nat) + 1, tick) <= U64_MAX
    {
      WeightlessRings(w.rings, Late(tick), |w.rings|, l, i, t);
      EarlyDeadlineFits(tick, t.expireAt as nat);
    }
  }

  // ---------------------------------------------------------------------------
  // The sleeping driver
  // ---------------------------------------------------------------------------

  lemma {:induction false} DrainedContains<T>(w: Wheel<T>, now: nat, k: nat, l: nat, t: Timer<T>)
    requires Shaped(w) && l < k <= |w.rings| && t in RingDrain(w, now, l).1
    ensures t in DrainedUpTo(w, now, k)
    decreases k
  {
    hide RingDrain;
    if l < k - 1 {
      DrainedContains(w, now, k - 1, l, t);
    }
  }

  /** A wake at the instant the wheel asked for hands something over. */
  lemma WakeHandsOver<T>(w: Wheel<T>)
    requires Shaped(w) && NextExpiry(w).Some? && NextExpiry(w).value > w.now
    ensures |HandOvers(w, NextExpiry(w).value)| > 0
  {
    hide NextExpiryUpTo, DueAt, Cursor, DrainedUpTo, DrainRing;
    var n := NextExpiry(w).value;
    NextExpiryIsSome(w, |w.rings|);
    var l: nat, i: nat :| Busy(w, l, i) && n == BucketDue(w, l, i);
    var c, c' := Cursor(w.tick, w.now, l), Cursor(w.tick, n, l);
    PassedIsDue(w.tick, l, WindowId(c, i), n);
    var t := w.rings[l][i][0];
    assert Reaches(w.rings[l], c, c', i, t);
    DrainRingTimers(w.rings[l], c, c', t);
    DrainedContains(w, n, |w.rings|, l, t);
  }

  /** A run of a driver: what fired and when, the wheel it leaves, and how often it woke. */
  datatype Drive<+T> = Drive(fired: seq<Firing<T>>, wheel: Wheel<T>, wakes: nat)

  /** Wake when the wheel asks for it, and only then, until it asks no more. It always stops. */
  ghost function Sleep<T>(w: Wheel<T>): (r: Drive<T>)
    requires Inv(w)
    ensures Shaped(r.wheel)
    decreases Potential(w, Every())
  {
    hide Inv, Advance, RanksUpTo, NextExpiryUpTo, HandOvers;
    InvIsShaped(w);
    if NextExpiry(w).None? then Drive([], w, 0)
    else
      var n := NextExpiry(w).value;
      WakePays(w);
      var (w', ts) := Advance(w, n);
      var rest := Sleep(w');
      Drive(Stamp(ts, w.now, n) + rest.fired, rest.wheel, 1 + rest.wakes)
  }

  lemma WakePays<T>(w: Wheel<T>)
    requires Inv(w) && NextExpiry(w).Some?
    ensures NextExpiry(w).value > w.now
    ensures Inv(Advance(w, NextExpiry(w).value).0)
    ensures Potential(Advance(w, NextExpiry(w).value).0, Every()) < Potential(w, Every())
  {
    hide Advance, RanksUpTo, NextExpiryUpTo, HandOvers;
    var n := NextExpiry(w).value;
    NextExpiryIsSome(w, |w.rings|);
    var l: nat, i: nat :| Busy(w, l, i) && n == BucketDue(w, l, i);
    BucketDueIsAhead(w, l, i);
    WakeHandsOver(w);
    AdvanceKeepsInv(w, n);
    AdvancePays(w, n, Every());
    EveryIsCounted(HandOvers(w, n));
  }

  lemma {:induction false} EveryIsCounted<T>(ts: seq<Timer<T>>)
    ensures Sum(ts, Pick(Every())) == |ts|
  {
    if ts != [] {
      EveryIsCounted(ts[..|ts| - 1]);
    }
  }

  /** A firing landed in `[deadline, deadline + tick]`. */
  predicate Prompt<T>(tick: nat, f: Firing<T>) {
    f.timer.expireAt as nat <= f.at <= f.timer.expireAt as nat + tick
  }

  lemma WakeIsPrompt<T>(w: Wheel<T>, f: Firing<T>)
    requires Inv(w) && NextExpiry(w).Some?
    requires f in Stamp(Advance(w, NextExpiry(w).value).1, w.now, NextExpiry(w).value)
    ensures Prompt(w.tick, f)
  {
    hide Advance, NextExpiryUpTo, Stamp, Inv;
    InvIsShaped(w);
    var n := NextExpiry(w).value;
    FiredWereHeld(w, n, f.timer);
    AdvanceFiresOnlyDue(w, n, f.timer);
    NextExpiryIsTimely(w, f.timer);
    TickEndIsNear(w.tick, f.timer.expireAt as nat);
  }

  /** The sleeping driver fires everything, each timer once and within a tick of its deadline,
      and wakes at most as often as timers have to be handed over. */
  lemma {:induction false} SleepIsCorrect<T>(w: Wheel<T>, f: Timer<T> -> nat)
    requires Inv(w)
    ensures forall x | x in Sleep(w).fired :: Prompt(w.tick, x)
    ensures Sum(Timers(Sleep(w).fired), f) == Weigh(w, f)
    ensures NextExpiry(Sleep(w).wheel).None? && Sleep(w).wakes <= Potential(w, Every())
    decreases Potential(w, Every())
  {
    hide Advance, RanksUpTo, NextExpiryUpTo, Prompt, HandOvers;
    if NextExpiry(w).None? {
      NoExpiryIsEmpty(w, f, |w.rings|);
    } else {
      var n := NextExpiry(w).value;
      var (w', ts) := Advance(w, n);
      WakePays(w);
      SleepIsCorrect(w', f);
      AdvanceConserves(w, n, f);
      forall x | x in Sleep(w).fired ensures Prompt(w.tick, x) {
        if x in Stamp(ts, w.now, n) {
          WakeIsPrompt(w, x);
        }
      }
      TimersPrepend(ts, w.now, n, Sleep(w').fired);
      SumAppend(ts, Timers(Sleep(w').fired), f);
    }
  }

  lemma TimersPrepend<T>(ts: seq<Timer<T>>, since: nat, at: nat, fs: seq<Firing<T>>)
    ensures Timers(Stamp(ts, since, at) + fs) == ts + Timers(fs)
  {
  }

  lemma {:induction false} NoExpiryIsEmpty<T>(w: Wheel<T>, f: Timer<T> -> nat, k: nat)
    requires Shaped(w) && k <= |w.rings| && NextExpiry(w).None?
    ensures RingsSum(w.rings, f, k) == 0
    decreases k
  {
    hide NextExpiryUpTo, BucketDue;
    if k > 0 {
      NoExpiryIsEmpty(w, f, k - 1);
      var ring := w.rings[k - 1];
      forall i | 0 <= i < 64 ensures |ring[i]| == 0 {
        if |ring[i]| > 0 {
          NextExpiryIsLeast(w, |w.rings|, k - 1, i);
        }
      }
      EmptyRingSum(ring, f, 64);
    }
  }

  // ---------------------------------------------------------------------------
  // Sleeping and ticking agree
  // ---------------------------------------------------------------------------

  /** Wake every tick, `k` times. */
  ghost function TickRun<T>(w: Wheel<T>, k: nat): (seq<(Timer<T>, nat)>, Wheel<T>)
    requires Inv(w)
    decreases k
  {
    hide Inv, Advance;
    InvIsShaped(w);
    if k == 0 then ([], w)
    else
      AdvanceKeepsInv(w, w.now + w.tick);
      var (w', ts) := Advance(w, w.now + w.tick);
      var (rest, end) := TickRun(w', k - 1);
      (Fired(ts, w.now + w.tick) + rest, end)
  }

  /** What a driver observes: which timers, and when. */
  function Fired<T>(ts: seq<Timer<T>>, at: nat): seq<(Timer<T>, nat)> {
    seq(|ts|, i requires 0 <= i < |ts| => (ts[i], at))
  }

  /** Wake only when the wheel asks for it, up to instant `h`, and then once at `h`. */
  ghost function SleepRun<T>(w: Wheel<T>, h: nat): (seq<(Timer<T>, nat)>, Wheel<T>)
    requires Inv(w) && w.now <= h
    decreases h - w.now
  {
    hide Inv, Advance, NextExpiryUpTo;
    InvIsShaped(w);
    if Quiet(w, h) then ([], Advance(w, h).0)
    else
      WakePays(w);
      AdvanceKeepsInv(w, NextExpiry(w).value);
      var n := NextExpiry(w).value;
      var (w', ts) := Advance(w, n);
      var (rest, end) := SleepRun(w', h);
      (Fired(ts, n) + rest, end)
  }

  lemma {:induction false} SumOfMultiples(n: nat, q: nat, tick: nat) returns (r: nat)
    ensures Times(n, Times(q, tick)) == Times(r, tick)
  {
    if n == 0 {
      r := 0;
    } else {
      var before := SumOfMultiples(n - 1, q, tick);
      TimesAdd(before, q, tick);
      r := before + q;
    }
  }

  lemma {:induction false} TickIsMultiple(tick: nat, l: nat) returns (q: nat)
    ensures TickAt(tick, l) == Times(q, tick)
  {
    if l == 0 {
      q := 1;
    } else {
      var below := TickIsMultiple(tick, l - 1);
      q := SumOfMultiples(64, below, tick);
      TimesIsProduct(64, TickAt(tick, l - 1));
    }
  }

  /** Wakes fall on whole ticks. */
  lemma DueIsMultiple(tick: nat, l: nat, v: nat) returns (q: nat)
    ensures DueAt(tick, l, v) == Times(q, tick)
  {
    var unit := TickIsMultiple(tick, l);
    q := SumOfMultiples(v + Lag(l), unit, tick);
  }

  lemma MultiplesApart(a: nat, q: nat, tick: nat)
    requires Times(a, tick) < Times(q, tick)
    ensures Times(a, tick) + tick <= Times(q, tick)
  {
    if q <= a {
      TimesMono(q, a, tick);
    } else {
      TimesMono(a + 1, q, tick);
    }
  }

  lemma DueIsATickAway(tick: nat, l: nat, v: nat, a: nat)
    requires Times(a, tick) < DueAt(tick, l, v)
    ensures Times(a, tick) + tick <= DueAt(tick, l, v)
  {
    hide Times, DueAt;
    var q := DueIsMultiple(tick, l, v);
    MultiplesApart(a, q, tick);
  }

  /** From a whole tick, the next wake is at least a tick away. */
  lemma WakeIsATickAway<T>(w: Wheel<T>, a: nat)
    requires Inv(w) && NextExpiry(w).Some? && w.now == Times(a, w.tick)
    ensures NextExpiry(w).value >= w.now + w.tick
  {
    hide NextExpiryUpTo, DueAt, Times, RingPlaced, TickAt, Cursor, WindowId;
    NextExpiryIsSome(w, |w.rings|);
    var l: nat, i: nat :| Busy(w, l, i) && NextExpiry(w).value == BucketDue(w, l, i);
    BucketDueIsAhead(w, l, i);
    DueIsATickAway(w.tick, l, WindowId(Cursor(w.tick, w.now, l), i), a);
  }

  lemma AheadSkip<T>(ring: Ring<T>, c: nat, c': nat)
    requires |ring| == 64 && c <= c' && WheelDriver.Clear(ring, c, c')
    ensures Ahead(ring, c, 0) == 64 <==> Ahead(ring, c', 0) == 64
    ensures Ahead(ring, c, 0) < 64 ==> c + Ahead(ring, c, 0) == c' + Ahead(ring, c', 0)
  {
    var j, j' := Ahead(ring, c, 0), Ahead(ring, c', 0);
    if j < 64 {
      var i := Slot(c, j);
      SlotWindow(c, j);
      AheadIsNearest(ring, c', i);
      WindowIdUnique(c', WindowId(c, i));
    }
    if j' < 64 {
      var i := Slot(c', j');
      SlotWindow(c', j');
      AheadIsNearest(ring, c, i);
      WindowIdUnique(c', WindowId(c, i));
    }
  }

  lemma {:induction false} NextExpirySkip<T>(w: Wheel<T>, n: nat, k: nat)
    requires Shaped(w) && w.now <= n && Quiet(w, n) && k <= |w.rings|
    ensures NextExpiryUpTo(Later(w, n), k) == NextExpiryUpTo(w, k)
    decreases k
  {
    hide Cursor, DueAt, Quiet;
    if k > 0 {
      NextExpirySkip(w, n, k - 1);
      QuietIsClear(w, n, k - 1);
      CursorMono(w.tick, k - 1, w.now, n);
      AheadSkip(w.rings[k - 1], Cursor(w.tick, w.now, k - 1), Cursor(w.tick, n, k - 1));
    }
  }

  lemma SleepRunSkip<T>(w: Wheel<T>, n: nat, h: nat)
    requires Inv(w) && Inv(Later(w, n)) && w.now <= n <= h && Quiet(w, n)
    ensures SleepRun(w, h) == SleepRun(Later(w, n), h)
  {
    hide Inv, Advance, NextExpiryUpTo;
    InvIsShaped(w);
    InvIsShaped(Later(w, n));
    NextExpirySkip(w, n, |w.rings|);
    SkipLaw(w, n);
    if Quiet(w, h) {
      ExtraWakeIsHarmless(w, n, h);
    } else {
      ExtraWakeIsHarmless(w, n, NextExpiry(w).value);
    }
  }

  /** Starting on a whole tick, a driver that sleeps to `next_expiry_ms` observes the same timers
      at the same instants in the same order as one that wakes every tick, and leaves the same
      wheel. */
  lemma {:induction false} SleepingIsTicking<T>(w: Wheel<T>, k: nat, a: nat)
    requires Inv(w) && w.now == Times(a, w.tick)
    ensures SleepRun(w, w.now + Times(k, w.tick)) == TickRun(w, k)
    decreases k
  {
    hide Inv, Advance, NextExpiryUpTo, Times;
    InvIsShaped(w);
    var h := w.now + Times(k, w.tick);
    if NextExpiry(w).Some? {
      WakeIsATickAway(w, a);
    }
    if k == 0 {
      TimesStep(0, w.tick);
      SkipLaw(w, w.now);
    } else {
      var n := w.now + w.tick;
      TimesStep(k - 1, w.tick);
      TimesStep(a, w.tick);
      AdvanceKeepsInv(w, n);
      SleepingIsTicking(Advance(w, n).0, k - 1, a + 1);
      if Quiet(w, n) {
        SkipLaw(w, n);
        SleepRunSkip(w, n, h);
        assert Fired<T>([], n) + SleepRun(Later(w, n), h).0 == SleepRun(Later(w, n), h).0;
      }
    }
  }

  lemma TimesStep(k: nat, a: nat)
    ensures Times(k + 1, a) == Times(k, a) + a && Times(0, a) == 0
  {
  }
}
