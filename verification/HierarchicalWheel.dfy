/** The hierarchical timing wheel of `hierarchical_wheel.rs`, field by field, over 64-bit
    clocks. Every method is proved to compute the function of module `WheelModel` that
    describes it, and no arithmetic in it leaves 64 bits. */
module HierarchicalWheel {
  import opened Machine
  import opened WheelModel
  import opened WheelInvariant
  import BitMask

  const BOTTOM_LAG: u64 := 1
  const UPPER_LAG: u64 := 0

  function Product(x: u64, y: u64): (r: u64)
    requires Times(x as nat, y as nat) <= U64_MAX
    ensures r as nat == Times(x as nat, y as nat)
  {
    TimesIsProduct(x as nat, y as nat);
    x * y
  }

  function Divide(x: u64, y: u64): (r: u64)
    requires y > 0
    ensures r as nat == Quotient(x as nat, y as nat)
    ensures y >= 64 ==> r < 0x400_0000_0000_0000
  {
    QuotientSmall(x as nat, y as nat);
    QuotientIsDivision(x as nat, y as nat);
    x / y
  }

  /** One ring of the hierarchy. */
  class Level<T> {
    const tickMs: u64
    const buckets: array<seq<Timer<T>>>
    var occupied: nat
    var nextVid: u64
    var len: nat

    /** The mask has exactly the bits of the non-empty buckets, and `len` counts the timers. */
    ghost predicate Valid()
      reads this, buckets
    {
      && tickMs > 0
      && buckets.Length == 64
      && Mirrors(occupied, buckets.Length, buckets[..])
      && len == RingSum(buckets[..], One(), 64)
    }

    constructor (tickMs: u64, nowMs: u64, lag: u64)
      requires tickMs > 0 && lag <= 1
      requires lag == 0 ==> tickMs >= 64
      ensures Valid() && fresh(buckets)
      ensures this.tickMs == tickMs && buckets[..] == EmptyRing()
      ensures nextVid as nat == Quotient(nowMs as nat, tickMs as nat) + (1 - lag as nat)
    {
      this.tickMs := tickMs;
      buckets := new seq<Timer<T>>[64](_ => []);
      occupied := 0;
      nextVid := Divide(nowMs, tickMs) + (1 - lag);
      len := 0;
      new;
      BitMask.ZeroHasNoBit(0, buckets.Length);
      EmptyRingSum(buckets[..], One(), 64);
    }

    function VidOf(atMs: u64): (v: u64)
      requires tickMs > 0
      ensures v as nat == Quotient(atMs as nat, tickMs as nat)
      ensures tickMs >= 64 ==> v < 0x400_0000_0000_0000
    {
      Divide(atMs, tickMs)
    }

    predicate Accepts(vid: u64)
      requires nextVid as int + 64 <= U64_MAX
      reads this
    {
      vid >= nextVid && vid < nextVid + 64
    }

    method Push(vid: u64, timer: Timer<T>)
      requires Valid()
      modifies this, buckets
      ensures Valid() && nextVid == old(nextVid)
      ensures buckets[..] == WheelModel.Push(old(buckets[..]), vid as nat, timer)
    {
      var idx := (vid % 64) as nat;
      ghost var before := buckets[..];
      buckets[idx] := buckets[idx] + [timer];
      occupied := BitMask.With(occupied, idx);
      len := len + 1;
      assert buckets[..] == WheelModel.Push(before, vid as nat, timer);
      PushAdds(before, vid as nat, timer, One());
      BitMask.UpdatesFit(old(occupied), idx, buckets.Length);
      forall i | 0 <= i < 64 ensures BitMask.Has(occupied, i) <==> |buckets[i]| > 0 {
        BitMask.WithSetsOneBit(old(occupied), idx, i);
      }
    }

    ghost function Limit(nowMs: u64, lag: u64): nat
      requires tickMs > 0 && lag <= 1
    {
      Quotient(nowMs as nat, tickMs as nat) + (1 - lag as nat)
    }

    /** Move the cursor to `nowMs`, appending every bucket it passes to `out`. */
    method DrainDue(nowMs: u64, lag: u64, out: seq<Timer<T>>) returns (out': seq<Timer<T>>)
      requires Valid() && lag <= 1
      requires lag == 0 ==> tickMs >= 64
      modifies this, buckets
      ensures Valid()
      ensures nextVid as nat == if Limit(nowMs, lag) <= old(nextVid) as nat then old(nextVid) as nat else Limit(nowMs, lag)
      ensures buckets[..] == DrainRing(old(buckets[..]), old(nextVid) as nat, Limit(nowMs, lag)).0
      ensures out' == out + DrainRing(old(buckets[..]), old(nextVid) as nat, Limit(nowMs, lag)).1
    {
      out' := out;
      var limit := VidOf(nowMs) + (1 - lag);
      if limit <= nextVid {
        return;
      }
      if occupied == 0 {
        NothingToDrain(limit);
        nextVid := limit;
        return;
      }
      var span := if limit - nextVid < 64 then limit - nextVid else 64;
      out' := DrainRange(limit - span, limit, out);
      nextVid := limit;
    }

    lemma NothingToDrain(limit: u64)
      requires Valid() && occupied == 0 && nextVid < limit
      ensures DrainRing(buckets[..], nextVid as nat, limit as nat) == (buckets[..], [])
    {
      ZeroMirrorsEmpty(occupied, buckets.Length, buckets[..]);
      DrainNothing(buckets[..], DrainStart(nextVid as nat, limit as nat), limit as nat);
    }

    method DrainRange(first: u64, limit: u64, out: seq<Timer<T>>) returns (out': seq<Timer<T>>)
      requires Valid() && first <= limit
      modifies this, buckets
      ensures Valid() && nextVid == old(nextVid)
      ensures buckets[..] == DrainFrom(old(buckets[..]), first as nat, limit as nat).0
      ensures out' == out + DrainFrom(old(buckets[..]), first as nat, limit as nat).1
    {
      out' := out;
      ghost var ring := buckets[..];
      var vid := first;
      while vid < limit
        invariant first <= vid <= limit
        invariant Valid() && nextVid == old(nextVid)
        invariant DrainFrom(buckets[..], vid as nat, limit as nat).0 == DrainFrom(ring, first as nat, limit as nat).0
        invariant out' + DrainFrom(buckets[..], vid as nat, limit as nat).1
               == out + DrainFrom(ring, first as nat, limit as nat).1
      {
        ghost var (rest, more) := DrainFrom(buckets[..][(vid % 64) as nat := []], vid as nat + 1, limit as nat);
        ghost var so := out';
        ghost var bucket := buckets[(vid % 64) as nat];
        out' := DrainBucket((vid % 64) as nat, out');
        assert so + (bucket + more) == out' + more;
        vid := vid + 1;
      }
    }

    /** Empty bucket `idx` into `out`, unless the mask says there is nothing in it. */
    method DrainBucket(idx: nat, out: seq<Timer<T>>) returns (out': seq<Timer<T>>)
      requires Valid() && idx < 64
      modifies this, buckets
      ensures Valid() && nextVid == old(nextVid)
      ensures buckets[..] == old(buckets[..])[idx := []]
      ensures out' == out + old(buckets[idx])
    {
      out' := out;
      if !BitMask.Has(occupied, idx) {
        return;
      }
      ghost var before := buckets[..];
      var bucket := buckets[idx];
      RingSumUpdate(before, idx, [], One(), 64);
      SumOne(bucket);
      len := len - |bucket|;
      out' := out' + bucket;
      buckets[idx] := [];
      occupied := BitMask.Without(occupied, idx);
      assert buckets[..] == before[idx := []];
      BitMask.UpdatesFit(old(occupied), idx, buckets.Length);
      forall i | 0 <= i < 64 ensures BitMask.Has(occupied, i) <==> |buckets[i]| > 0 {
        BitMask.WithoutClearsOneBit(old(occupied), idx, i);
      }
    }

    /** When this level next has something to hand over: rotating the mask so that the cursor
        sits on bit 0 makes the nearest non-empty bucket the lowest set bit. */
    method NextDueMs(lag: u64) returns (due: Option<u64>)
      requires Valid() && lag <= 1
      requires DuesFit(buckets[..], nextVid as nat, lag as nat, tickMs as nat)
      ensures var j := Ahead(buckets[..], nextVid as nat, 0);
              if j == 64 then due == None
              else due.Some? && due.value as nat == Times(nextVid as nat + j + lag as nat, tickMs as nat)
    {
      hide Times, Mirrors, RingSum, Ahead, DuesFit, BitMask.RotateRight, BitMask.TrailingZeros;
      ghost var ring := buckets[..];
      MaskTellsNearest(occupied, buckets.Length, ring, nextVid as nat);
      if occupied == 0 {
        return None;
      }
      var rot := (nextVid % 64) as nat;
      NearestFits(ring, nextVid as nat, lag as nat, tickMs as nat);
      var ahead := BitMask.TrailingZeros(BitMask.RotateRight(occupied, buckets.Length, rot));
      FactorBounds(nextVid as nat + ahead + lag as nat, tickMs as nat);
      due := Some(Product(nextVid + ahead as u64 + lag, tickMs));
    }

    method Clear()
      requires Valid()
      modifies this, buckets
      ensures Valid() && nextVid == old(nextVid) && buckets[..] == EmptyRing()
    {
      var i := 0;
      while i < 64
        invariant 0 <= i <= 64
        invariant nextVid == old(nextVid)
        invariant forall k | 0 <= k < i :: buckets[k] == []
      {
        buckets[i] := [];
        i := i + 1;
      }
      occupied := 0;
      len := 0;
      BitMask.ZeroHasNoBit(0, buckets.Length);
      EmptyRingSum(buckets[..], One(), 64);
    }
  }

  /** No two levels share storage. */
  ghost predicate Separate<T>(ls: seq<Level<T>>) {
    forall i, j | 0 <= i < j < |ls| :: ls[i] != ls[j] && ls[i].buckets != ls[j].buckets
  }

  ghost function Arrays<T>(ls: seq<Level<T>>): set<array<seq<Timer<T>>>> {
    set l | l in ls :: l.buckets
  }

  ghost function RingsOf<T>(ls: seq<Level<T>>): (r: seq<Ring<T>>)
    reads Arrays(ls)
    ensures |r| == |ls| && forall i | 0 <= i < |ls| :: r[i] == ls[i].buckets[..]
  {
    if ls == [] then []
    else
      var n := |ls| - 1;
      assert Arrays(ls[..n]) <= Arrays(ls);
      RingsOf(ls[..n]) + [ls[n].buckets[..]]
  }

  /** Level `i` has tick `tick * 64^i` and its cursor is where the clock puts it. */
  ghost predicate Aligned<T>(ls: seq<Level<T>>, tick: nat, now: nat)
    requires tick > 0
    reads ls, Arrays(ls)
  {
    forall i | 0 <= i < |ls| ::
      && ls[i].Valid()
      && ls[i].tickMs as nat == TickAt(tick, i)
      && ls[i].nextVid as nat == Cursor(tick, now, i)
  }

  lemma AlignedAlone<T>(level: Level<T>, tick: nat, now: nat)
    requires tick > 0 && level.Valid() && level.tickMs as nat == tick && level.nextVid as nat == Quotient(now, tick)
    ensures Aligned([level], tick, now)
    ensures RingsOf([level]) == [level.buckets[..]]
  {
    hide Level.Valid;
    assert Cursor(tick, now, 0) == Quotient(now, tick);
  }

  lemma AlignedAppend<T>(ls: seq<Level<T>>, level: Level<T>, tick: nat, now: nat)
    requires tick > 0 && Aligned(ls, tick, now) && level.Valid()
    requires level.tickMs as nat == TickAt(tick, |ls|) && level.nextVid as nat == Cursor(tick, now, |ls|)
    ensures Aligned(ls + [level], tick, now)
    ensures RingsOf(ls + [level]) == RingsOf(ls) + [level.buckets[..]]
  {
    hide Level.Valid, Cursor, TickAt;
    assert (ls + [level])[..|ls|] == ls;
  }

  /** The first `k` levels have moved their cursors from `w.now` to `now`, the others not yet. */
  ghost predicate DrainedTo<T>(ls: seq<Level<T>>, w: Wheel<T>, now: nat, k: nat)
    requires Shaped(w)
    reads ls, Arrays(ls)
  {
    && |ls| == |w.rings|
    && forall j | 0 <= j < |ls| ::
         && ls[j].Valid()
         && ls[j].tickMs as nat == TickAt(w.tick, j)
         && ls[j].nextVid as nat == Cursor(w.tick, if j < k then now else w.now, j)
         && ls[j].buckets[..] == if j < k then RingDrain(w, now, j).0 else w.rings[j]
  }

  method DrainLevel<T>(ls: seq<Level<T>>, li: nat, nowMs: u64, ghost w: Wheel<T>, out: seq<Timer<T>>)
    returns (out': seq<Timer<T>>)
    requires Shaped(w) && Separate(ls) && li < |ls| && w.now <= nowMs as nat
    requires DrainedTo(ls, w, nowMs as nat, li)
    modifies ls[li], ls[li].buckets
    ensures DrainedTo(ls, w, nowMs as nat, li + 1)
    ensures out' == out + RingDrain(w, nowMs as nat, li).1
  {
    hide Level.Valid, Quotient, DrainRing, TickAt;
    CursorMono(w.tick, li, w.now, nowMs as nat);
    var lag := if li == 0 then BOTTOM_LAG else UPPER_LAG;
    if li > 0 {
      TickAtLeast64(w.tick, li);
    }
    out' := ls[li].DrainDue(nowMs, lag, out);
  }

  class HierarchicalTimingWheel<T> {
    const tickMs: u64
    var levels: seq<Level<T>>
    var nowMs: u64
    var len: nat
    var scratch: seq<Timer<T>>

    ghost function State(): Wheel<T>
      reads this, Arrays(levels)
    {
      Wheel(tickMs as nat, nowMs as nat, RingsOf(levels))
    }

    ghost predicate Core()
      reads this, levels, Arrays(levels)
    {
      && tickMs > 0
      && Separate(levels)
      && 1 <= |levels| <= 6
      && Aligned(levels, tickMs as nat, nowMs as nat)
    }

    /** What holds between calls. */
    ghost predicate Valid()
      reads this, levels, Arrays(levels)
    {
      Core() && Inv(State()) && len == Count(State()) && scratch == []
    }

    constructor (tickMs: u64, startMs: u64)
      requires tickMs > 0
      ensures Valid() && |levels| == 1 && fresh(levels[0]) && fresh(levels[0].buckets)
      ensures State() == New(tickMs as nat, startMs as nat)
      ensures this.tickMs == tickMs && nowMs == startMs && levels[0].buckets[..] == EmptyRing()
    {
      hide Level.Valid, Quotient, Inv, Weigh, Aligned, RingsOf;
      this.tickMs := tickMs;
      nowMs := startMs;
      len := 0;
      scratch := [];
      var bottom := new Level<T>(tickMs, startMs, BOTTOM_LAG);
      levels := [bottom];
      new;
      AlignedAlone(bottom, tickMs as nat, startMs as nat);
      NewKeepsInv<T>(tickMs as nat, startMs as nat);
      NewWeighsNothing<T>(tickMs as nat, startMs as nat, One());
    }

    /** The window arithmetic of the levels fits in 64 bits: always so above level 0, and at
        level 0 unless the clock is within 64 ticks of the end. */
    lemma CursorFits(i: nat)
      requires Core() && i < |levels|
      requires Quotient(nowMs as nat, tickMs as nat) + 64 <= U64_MAX
      ensures levels[i].nextVid as int + 64 <= U64_MAX
      ensures i > 0 ==> levels[i].tickMs >= 64
    {
      if i > 0 {
        QuotientSmall(nowMs as nat, TickAt(tickMs as nat, i));
      }
    }

    /** Push onto level `li` alone. */
    method PushAt(li: nat, vid: u64, timer: Timer<T>)
      requires Core() && li < |levels|
      modifies levels, Arrays(levels)
      ensures Core()
      ensures RingsOf(levels) == old(RingsOf(levels))[li := WheelModel.Push(old(levels[li].buckets[..]), vid as nat, timer)]
    {
      hide Level.Valid;
      levels[li].Push(vid, timer);
    }

    /** The finest existing level whose window holds `expireAt`, if any. */
    method FindLevel(expireAt: u64) returns (li: nat)
      requires Core() && nowMs < expireAt
      requires Quotient(nowMs as nat, tickMs as nat) + 64 <= U64_MAX
      ensures li <= |levels|
      ensures FallShort(tickMs as nat, nowMs as nat, expireAt as nat, li)
      ensures li < |levels| ==> !TooFar(tickMs as nat, nowMs as nat, li, expireAt as nat)
    {
      hide Level.Valid, Times, Quotient;
      ghost var tick, now, d := tickMs as nat, nowMs as nat, expireAt as nat;
      VidMono(tick, 0, now, d);
      li := 0;
      while li < |levels|
        invariant 0 <= li <= |levels|
        invariant FallShort(tick, now, d, li)
        invariant Vid(tick, li, d) >= Cursor(tick, now, li)
      {
        CursorFits(li);
        if levels[li].Accepts(levels[li].VidOf(expireAt)) {
          return;
        }
        TooFarClearsNextEdge(tick, now, li, d);
        li := li + 1;
      }
    }

    /** Add a level on top, and say whether it reaches `expireAt`. */
    method AddLevel(nextTick: u64, expireAt: u64) returns (found: bool)
      requires Core() && |levels| < 6 && nextTick as nat == TickAt(tickMs as nat, |levels|)
      requires Quotient(nowMs as nat, tickMs as nat) + 64 <= U64_MAX
      requires TooFar(tickMs as nat, nowMs as nat, |levels| - 1, expireAt as nat)
      modifies this`levels
      ensures Core() && |levels| == |old(levels)| + 1 && old(levels) <= levels
      ensures fresh(levels[|levels| - 1]) && fresh(levels[|levels| - 1].buckets)
      ensures RingsOf(levels) == old(RingsOf(levels)) + [EmptyRing()]
      ensures found <==> !TooFar(tickMs as nat, nowMs as nat, |levels| - 1, expireAt as nat)
    {
      hide Level.Valid, Times, Quotient, RingsOf, TickAt;
      TooFarClearsNextEdge(tickMs as nat, nowMs as nat, |levels| - 1, expireAt as nat);
      TickAtLeast64(tickMs as nat, |levels|);
      var level := new Level<T>(nextTick, nowMs, UPPER_LAG);
      AlignedAppend(levels, level, tickMs as nat, nowMs as nat);
      levels := levels + [level];
      CursorFits(|levels| - 1);
      found := level.Accepts(level.VidOf(expireAt));
    }

    /** Add coarser levels until one reaches `expireAt`, or there are six. */
    method Grow(expireAt: u64) returns (found: bool)
      requires Core() && nowMs < expireAt
      requires Quotient(nowMs as nat, tickMs as nat) + 64 <= U64_MAX
      requires FallShort(tickMs as nat, nowMs as nat, expireAt as nat, |levels|)
      modifies this`levels
      ensures Core() && old(levels) <= levels
      ensures forall l | l in levels && l !in old(levels) :: fresh(l) && fresh(l.buckets)
      ensures RingsOf(levels) == Grown(old(RingsOf(levels)), |levels|)
      ensures FallShort(tickMs as nat, nowMs as nat, expireAt as nat, |levels| - 1)
      ensures found <==> !TooFar(tickMs as nat, nowMs as nat, |levels| - 1, expireAt as nat)
      ensures !found ==> |levels| == 6
    {
      hide Level.Valid, Quotient, TooFar, Aligned, RingsOf, Grown, Separate;
      found := false;
      while |levels| < 6
        invariant Core() && old(levels) <= levels
        invariant forall l | l in levels && l !in old(levels) :: fresh(l) && fresh(l.buckets)
        invariant RingsOf(levels) == Grown(old(RingsOf(levels)), |levels|)
        invariant FallShort(tickMs as nat, nowMs as nat, expireAt as nat, |levels|)
        decreases 6 - |levels|
      {
        var top := levels[|levels| - 1].tickMs;
        TopTick();
        TooFarFits(tickMs as nat, nowMs as nat, |levels| - 1, expireAt as nat);
        if top as int * 64 > U64_MAX {
          break;
        }
        GrownOne(old(RingsOf(levels)), |levels|);
        found := AddLevel(top * 64, expireAt);
        if found {
          return;
        }
      }
    }

    lemma TopTick()
      requires Core()
      ensures 64 * levels[|levels| - 1].tickMs as nat == TickAt(tickMs as nat, |levels|)
    {
    }

    /** Store `timer` at the finest level that can hold it, growing the hierarchy if the
        deadline outruns the top, and parking it if six levels are not enough. */
    method Place(timer: Timer<T>)
      requires Core() && nowMs < timer.expireAt
      requires Quotient(nowMs as nat, tickMs as nat) + 64 <= U64_MAX
      modifies this`levels, levels, Arrays(levels)
      ensures Core() && old(levels) <= levels
      ensures forall l | l in levels && l !in old(levels) :: fresh(l) && fresh(l.buckets)
      ensures State() == WheelModel.Place(old(State()), timer)
    {
      hide Level.Valid, Quotient, TooFar, Aligned, RingsOf, Separate, Home, WheelModel.Place, Vid, Cursor, Grown;
      ghost var tick, now, d := tickMs as nat, nowMs as nat, timer.expireAt as nat;
      ghost var w := State();
      var li := FindLevel(timer.expireAt);
      var found := true;
      CoreIsShaped();
      if li < |levels| {
        GrownEnough(w.rings, li + 1);
      } else {
        found := Grow(timer.expireAt);
        li := |levels| - 1;
      }
      HomeFound(tick, now, d, li);
      LevelAt(li);
      CursorFits(li);
      var vid := if found then levels[li].VidOf(timer.expireAt) else levels[li].nextVid + 64 - 1;
      PlaceIs(w, timer, RingsOf(levels), li, vid as nat);
      PushAt(li, vid, timer);
    }

    lemma CoreIsShaped()
      requires Core()
      ensures Shaped(State())
    {
    }

    lemma LevelAt(i: nat)
      requires Core() && i < |levels|
      ensures levels[i].tickMs > 0
      ensures forall at: u64 :: levels[i].VidOf(at) as nat == Vid(tickMs as nat, i, at as nat)
      ensures levels[i].nextVid as nat == Cursor(tickMs as nat, nowMs as nat, i)
      ensures RingsOf(levels)[i] == levels[i].buckets[..]
    {
      hide Level.Valid, Quotient, Level.VidOf;
    }

    /** Move every cursor to `nowMs` and collect what they pass. */
    method DrainAll(ghost w: Wheel<T>) returns (ts: seq<Timer<T>>)
      requires tickMs > 0 && Separate(levels) && Shaped(w) && w.tick == tickMs as nat && w.now <= nowMs as nat
      requires |levels| == |w.rings| && DrainedTo(levels, w, nowMs as nat, 0)
      modifies levels, Arrays(levels)
      ensures Core() && State() == Drained(w, nowMs as nat)
      ensures ts == DrainedUpTo(w, nowMs as nat, |w.rings|)
    {
      hide Level.Valid, RingDrain, DrainedTo, Separate;
      ts := [];
      var li := 0;
      while li < |levels|
        invariant 0 <= li <= |levels| == |w.rings|
        invariant DrainedTo(levels, w, nowMs as nat, li)
        invariant ts == DrainedUpTo(w, nowMs as nat, li)
      {
        ts := DrainLevel(levels, li, nowMs, w, ts);
        li := li + 1;
      }
      DrainedIsAligned(levels, w, nowMs as nat);
    }

    /** Schedule `value` for `expireAtMs`; a deadline at or before the clock is not stored. */
    method Insert(value: T, expireAtMs: u64) returns (r: Insert)
      requires Valid()
      requires nowMs < expireAtMs ==> Quotient(nowMs as nat, tickMs as nat) + 64 <= U64_MAX
      modifies this, levels, Arrays(levels)
      ensures Valid() && old(levels) <= levels
      ensures forall l | l in levels && l !in old(levels) :: fresh(l) && fresh(l.buckets)
      ensures r == Elapsed <==> expireAtMs <= old(nowMs)
      ensures r == Elapsed ==> State() == old(State()) && len == old(len)
      ensures r == Scheduled ==>
                State() == WheelModel.Place(old(State()), Timer(value, expireAtMs)) && len == old(len) + 1
      ensures (State(), r) == InsertTimer(old(State()), Timer(value, expireAtMs))
    {
      hide Level.Valid, Quotient, Aligned, RingsOf, Separate, WheelModel.Place, Inv, Weigh;
      if expireAtMs <= nowMs {
        return Elapsed;
      }
      ghost var w := State();
      CoreIsShaped();
      PlaceKeepsInv(w, Timer(value, expireAtMs));
      PlaceAdds(w, Timer(value, expireAtMs), One());
      Place(Timer(value, expireAtMs));
      SetLen(len + 1);
      return Scheduled;
    }

    /** Move the clock to `nowMs` and collect what is due. */
    method AdvanceTo(newNowMs: u64) returns (out: seq<T>)
      requires Valid() && ClockSafe(State(), newNowMs as nat)
      modifies this, levels, Arrays(levels)
      ensures Valid() && old(levels) <= levels
      ensures forall l | l in levels && l !in old(levels) :: fresh(l) && fresh(l.buckets)
      ensures State() == Advance(old(State()), newNowMs as nat).0
      ensures nowMs == if newNowMs <= old(nowMs) then old(nowMs) else newNowMs
      ensures var fired := Advance(old(State()), newNowMs as nat).1;
              |out| == |fired| && forall i | 0 <= i < |fired| :: out[i] == fired[i].value
    {
      hide Core, RingsOf, Inv, Weigh, Advance, DrainedUpTo, ClockSafe;
      CoreIsShaped();
      out := [];
      if newNowMs <= nowMs {
        AdvanceIsIdle(State(), newNowMs as nat);
        return;
      }
      AdvanceIsCounted(State(), newNowMs as nat);
      out := MoveTo(newNowMs);
    }

    /** The work of `AdvanceTo` when the clock does move. */
    method MoveTo(newNowMs: u64) returns (out: seq<T>)
      requires Core() && Shaped(State()) && nowMs < newNowMs && ClockSafe(State(), newNowMs as nat)
      requires |DrainedUpTo(State(), newNowMs as nat, |State().rings|)| <= len
      modifies this, levels, Arrays(levels)
      ensures Core() && old(levels) <= levels && scratch == [] && nowMs == newNowMs
      ensures forall l | l in levels && l !in old(levels) :: fresh(l) && fresh(l.buckets)
      ensures State() == Advance(old(State()), newNowMs as nat).0
      ensures out == Values(Advance(old(State()), newNowMs as nat).1)
      ensures len + |Advance(old(State()), newNowMs as nat).1| == old(len)
    {
      hide Level.Valid, Quotient, Aligned, RingsOf, Separate, WheelModel.Place, Drained, DrainedTo, ClockSafe;
      ghost var w := State();
      AlignedIsDrainedTo(newNowMs as nat);
      nowMs := newNowMs;
      var buffer := scratch;
      scratch := [];
      buffer := DrainAll(w);
      out := Settle(w, buffer);
    }

    lemma AlignedIsDrainedTo(now: nat)
      requires Core()
      ensures Shaped(State()) && DrainedTo(levels, State(), now, 0)
    {
      CoreIsShaped();
      hide Level.Valid, Cursor, TickAt, RingDrain;
    }

    method SetLen(n: nat)
      requires Core()
      modifies this`len
      ensures Core() && len == n && State() == old(State())
    {
      hide Level.Valid, Cursor, TickAt;
      len := n;
    }

    /** Fire or re-place everything drained from `w`. */
    method Settle(ghost w: Wheel<T>, ts: seq<Timer<T>>) returns (out: seq<T>)
      requires Core() && Shaped(w) && Shaped(State()) && State() == Drained(w, nowMs as nat) && w.now <= nowMs as nat
      requires ts == DrainedUpTo(w, nowMs as nat, |w.rings|) && |ts| <= len
      requires ClockSafe(w, nowMs as nat)
      modifies this`len, this`levels, levels, Arrays(levels)
      ensures Core() && old(levels) <= levels
      ensures forall l | l in levels && l !in old(levels) :: fresh(l) && fresh(l.buckets)
      ensures State() == ReplaceUpTo(old(State()), ts, |ts|)
      ensures out == Values(DueUpTo(ts, nowMs as nat, |ts|))
      ensures len + |DueUpTo(ts, nowMs as nat, |ts|)| == old(len)
    {
      hide Core, Quotient, RingsOf, WheelModel.Place, Drained, DrainedUpTo, ClockSafe, Values, DueUpTo, ReplaceUpTo;
      ghost var start, now := State(), nowMs as nat;
      out := [];
      NothingDue(start, ts, now);
      var i := 0;
      while i < |ts|
        invariant 0 <= i <= |ts|
        invariant Core() && old(levels) <= levels
        invariant forall l | l in levels && l !in old(levels) :: fresh(l) && fresh(l.buckets)
        invariant State() == ReplaceUpTo(start, ts, i)
        invariant out == Values(DueUpTo(ts, now, i))
        invariant len + |DueUpTo(ts, now, i)| == old(len) && |DueUpTo(ts, now, i)| <= i
      {
        SettleStep(start, ts, now, i);
        if nowMs < ts[i].expireAt {
          SafeToPlace(w, now, ts[i]);
        }
        out := SettleOne(ts[i], out);
        i := i + 1;
      }
    }

    /** Fire `t` or place it again. */
    method SettleOne(t: Timer<T>, out: seq<T>) returns (out': seq<T>)
      requires Core() && Shaped(State())
      requires if t.expireAt <= nowMs then len > 0 else Quotient(nowMs as nat, tickMs as nat) + 64 <= U64_MAX
      modifies this`len, this`levels, levels, Arrays(levels)
      ensures Core() && old(levels) <= levels
      ensures forall l | l in levels && l !in old(levels) :: fresh(l) && fresh(l.buckets)
      ensures t.expireAt <= nowMs ==> out' == out + [t.value] && State() == old(State()) && len == old(len) - 1
      ensures t.expireAt > nowMs ==> out' == out && State() == WheelModel.Place(old(State()), t) && len == old(len)
    {
      hide Core, Quotient, RingsOf, WheelModel.Place;
      out' := out;
      if t.expireAt <= nowMs {
        out' := out' + [t.value];
        SetLen(len - 1);
      } else {
        Place(t);
      }
    }

    /** The earliest instant at which some level has work. */
    method NextExpiryMs() returns (best: Option<u64>)
      requires Valid() && ExpiriesFit(State())
      ensures AsNat(best) == NextExpiry(State())
    {
      hide Level.Valid, Quotient, Inv, ExpiriesFit, RingDue;
      best := None;
      CoreIsShaped();
      ghost var w := State();
      if len == 0 {
        EmptyHasNoExpiry(w, |levels|);
        return;
      }
      var li := 0;
      while li < |levels|
        invariant 0 <= li <= |levels| && Core() && State() == w
        invariant AsNat(best) == NextExpiryUpTo(w, li)
      {
        var due := LevelDue(li);
        best := if best.None? then due else if due.None? then best else if due.value < best.value then due else best;
        li := li + 1;
      }
    }

    method LevelDue(li: nat) returns (due: Option<u64>)
      requires Core() && Inv(State()) && ExpiriesFit(State()) && li < |levels|
      ensures AsNat(due) == RingDue(State().tick, li, Cursor(State().tick, State().now, li), State().rings[li])
    {
      hide Level.Valid, Quotient, Times, Inv, ExpiriesFit, DuesFit;
      DuesFitEverywhere(State(), li);
      LevelAt(li);
      due := levels[li].NextDueMs(if li == 0 then BOTTOM_LAG else UPPER_LAG);
    }

    /** `NextExpiryMs` as a duration from `fromMs`, zero when something is already due. */
    method SleepForMs(fromMs: u64) returns (d: Option<u64>)
      requires Valid() && ExpiriesFit(State())
      ensures d.None? <==> NextExpiry(State()).None?
      ensures d.Some? && NextExpiry(State()).value >= fromMs as nat ==> fromMs as nat + d.value as nat == NextExpiry(State()).value
      ensures d.Some? && NextExpiry(State()).value < fromMs as nat ==> d.value == 0
    {
      CoreIsShaped();
      var due := NextExpiryMs();
      d := if due.None? then None else if due.value < fromMs then Some(0) else Some(due.value - fromMs);
    }

    /** Drop every scheduled timer, keeping the levels. */
    method Clear()
      requires Valid()
      modifies this, levels, Arrays(levels)
      ensures Valid() && levels == old(levels) && State() == WheelModel.Clear(old(State()))
      ensures nowMs == old(nowMs) && forall l | l in levels :: l.buckets[..] == EmptyRing()
    {
      hide Level.Valid, Quotient, Inv, Weigh, Separate, RingsOf, Aligned;
      ghost var w := State();
      ClearKeepsInv(w);
      ClearWeighsNothing(w, One());
      var li := 0;
      while li < |levels|
        invariant 0 <= li <= |levels| && levels == old(levels)
        invariant nowMs == old(nowMs) && scratch == [] && Core()
        invariant forall k | 0 <= k < li :: levels[k].buckets[..] == EmptyRing()
      {
        ClearLevel(li);
        li := li + 1;
      }
      assert RingsOf(levels) == WheelModel.Clear(w).rings;
      SetLen(0);
    }

    method ClearLevel(li: nat)
      requires Core() && li < |levels|
      modifies levels[li], levels[li].buckets
      ensures Core() && levels[li].buckets[..] == EmptyRing()
    {
      hide Level.Valid, Quotient;
      levels[li].Clear();
    }
  }

  ghost function AsNat(o: Option<u64>): Option<nat> {
    if o.None? then None else Some(o.value as nat)
  }

  lemma NothingDue<T>(w: Wheel<T>, ts: seq<Timer<T>>, now: nat)
    requires Shaped(w)
    ensures DueUpTo(ts, now, 0) == [] && Values<T>([]) == [] && ReplaceUpTo(w, ts, 0) == w
  {
  }

  lemma SettleStep<T>(w: Wheel<T>, ts: seq<Timer<T>>, now: nat, k: nat)
    requires Shaped(w) && k < |ts| && w.now == now
    ensures ReplaceUpTo(w, ts, k + 1) ==
              if ts[k].expireAt as nat <= now then ReplaceUpTo(w, ts, k) else WheelModel.Place(ReplaceUpTo(w, ts, k), ts[k])
    ensures DueUpTo(ts, now, k + 1) == DueUpTo(ts, now, k) + if ts[k].expireAt as nat <= now then [ts[k]] else []
    ensures Values(DueUpTo(ts, now, k + 1))
         == Values(DueUpTo(ts, now, k)) + if ts[k].expireAt as nat <= now then [ts[k].value] else []
  {
  }

  lemma AdvanceIsIdle<T>(w: Wheel<T>, now: nat)
    requires Shaped(w) && now <= w.now
    ensures Advance(w, now) == (w, [])
  {
  }

  lemma AdvanceIsCounted<T>(w: Wheel<T>, now: nat)
    requires Inv(w)
    ensures Inv(Advance(w, now).0) && |DrainedUpTo(w, now, |w.rings|)| <= Count(w)
    ensures Count(Advance(w, now).0) + |Advance(w, now).1| == Count(w)
  {
    AdvanceKeepsInv(w, now);
    hide Inv, Weigh, Advance, DrainedUpTo;
    DrainedAreCounted(w, now);
    AdvanceConserves(w, now, One());
    SumOne(Advance(w, now).1);
  }

  lemma DrainedIsAligned<T>(ls: seq<Level<T>>, w: Wheel<T>, now: nat)
    requires Shaped(w) && DrainedTo(ls, w, now, |ls|)
    ensures Aligned(ls, w.tick, now) && RingsOf(ls) == Drained(w, now).rings
  {
    hide Level.Valid, RingDrain, Cursor, TickAt;
  }
}
