/** What every operation of the hierarchical wheel keeps: the placement invariant, the
    conservation of timers, and the firing bounds that follow from them. */
module WheelInvariant {
  import opened Machine
  import opened WheelModel
  import BitMask

  // ---------------------------------------------------------------------------
  // The placement invariant
  // ---------------------------------------------------------------------------

  /** Bucket `v` of level `l` is where `t` may wait: the bucket of its own deadline, or, at
      the top of a full hierarchy, an earlier one it is parked in. */
  predicate Placed<T>(tick: nat, l: nat, v: nat, t: Timer<T>)
    requires tick > 0
  {
    v == Vid(tick, l, t.expireAt as nat) || (l == 5 && v < Vid(tick, l, t.expireAt as nat))
  }

  ghost predicate RingPlaced<T>(tick: nat, l: nat, c: nat, ring: Ring<T>)
    requires tick > 0 && |ring| == 64
  {
    forall i, t | 0 <= i < 64 && t in ring[i] :: Placed(tick, l, WindowId(c, i), t)
  }

  /** Every stored timer sits in the live window of its level, in a bucket that does not
      start after its deadline, and every level's tick is a 64-bit number. */
  ghost predicate Inv<T>(w: Wheel<T>) {
    && Shaped(w)
    && TickAt(w.tick, |w.rings| - 1) <= U64_MAX
    && forall l | 0 <= l < |w.rings| :: RingPlaced(w.tick, l, Cursor(w.tick, w.now, l), w.rings[l])
  }

  // ---------------------------------------------------------------------------
  // Draining one level
  // ---------------------------------------------------------------------------

  /** Moving the cursor by one changes the window id of the bucket it leaves, and of no other. */
  lemma WindowIdNext(c: nat, i: nat)
    requires i < 64
    ensures if i == c % 64 then WindowId(c, i) == c else WindowId(c + 1, i) == WindowId(c, i)
  {
    hide WindowId;
    if i == c % 64 {
      WindowIdUnique(c, c);
    } else {
      WindowIdUnique(c + 1, WindowId(c, i));
    }
  }

  lemma WindowIdMono(c: nat, c': nat, i: nat)
    requires i < 64 && c <= c'
    ensures WindowId(c, i) <= WindowId(c', i)
  {
    hide WindowId;
    if WindowId(c', i) < c + 64 {
      WindowIdUnique(c, WindowId(c', i));
    }
  }

  lemma {:induction false} DrainFromBucket<T>(ring: Ring<T>, lo: nat, hi: nat, i: nat)
    requires |ring| == 64 && lo <= hi && i < 64
    ensures DrainFrom(ring, lo, hi).0[i] == if WindowId(lo, i) < hi then [] else ring[i]
    decreases hi - lo
  {
    hide WindowId;
    if lo < hi {
      DrainFromBucket(ring[lo % 64 := []], lo + 1, hi, i);
      WindowIdNext(lo, i);
    }
  }

  lemma {:induction false} DrainNothing<T>(ring: Ring<T>, lo: nat, hi: nat)
    requires |ring| == 64 && lo <= hi && forall v | lo <= v < hi :: |ring[v % 64]| == 0
    ensures DrainFrom(ring, lo, hi) == (ring, [])
    decreases hi - lo
  {
    if lo < hi {
      assert ring[lo % 64 := []] == ring;
      DrainNothing(ring, lo + 1, hi);
      var (rest, out) := DrainFrom(ring, lo + 1, hi);
      assert rest == ring && out == [];
      assert |ring[lo % 64]| == 0;
      assert ring[lo % 64] + out == [];
      assert DrainFrom(ring, lo, hi) == (rest, ring[lo % 64] + out);
    }
  }

  /** Bucket `i` is among those a drain from `lo` to `hi` visits, and holds `t`. */
  ghost predicate Reaches<T>(ring: Ring<T>, lo: nat, hi: nat, i: nat, t: Timer<T>)
    requires |ring| == 64
  {
    i < 64 && t in ring[i] && WindowId(lo, i) < hi
  }

  lemma ReachesNext<T>(ring: Ring<T>, lo: nat, hi: nat, i: nat, t: Timer<T>)
    requires |ring| == 64 && i != lo % 64
    ensures Reaches(ring[lo % 64 := []], lo + 1, hi, i, t) <==> Reaches(ring, lo, hi, i, t)
  {
    hide WindowId;
    if i < 64 {
      WindowIdNext(lo, i);
    }
  }

  lemma {:induction false} DrainFromTimers<T>(ring: Ring<T>, lo: nat, hi: nat, t: Timer<T>)
    requires |ring| == 64 && lo <= hi
    ensures t in DrainFrom(ring, lo, hi).1 <==> exists i: nat :: Reaches(ring, lo, hi, i, t)
    decreases hi - lo
  {
    if lo < hi {
      var k := lo % 64;
      var ring' := ring[k := []];
      var next := lo + 1;
      WindowIdUnique(lo, lo);
      DrainFromTimers(ring', next, hi, t);
      if t in ring[k] {
        assert Reaches(ring, lo, hi, k, t);
      } else {
        assert t in DrainFrom(ring, lo, hi).1 <==> t in DrainFrom(ring', lo + 1, hi).1;
        if i: nat :| Reaches(ring', next, hi, i, t) {
          ReachesNext(ring, lo, hi, i, t);
          assert Reaches(ring, lo, hi, i, t);
        }
        if i: nat :| Reaches(ring, lo, hi, i, t) {
          ReachesNext(ring, lo, hi, i, t);
          assert Reaches(ring', next, hi, i, t);
        }
      }
    }
  }

  /** The mask-skipping, rotation-capped drain empties exactly the buckets whose window id is
      below the limit, and the buckets it leaves keep their window id under the new cursor. */
  lemma DrainRingBucket<T>(ring: Ring<T>, c: nat, c': nat, i: nat)
    requires |ring| == 64 && c <= c' && i < 64
    ensures DrainRing(ring, c, c').0[i] == if WindowId(c, i) < c' then [] else ring[i]
    ensures WindowId(c, i) >= c' ==> WindowId(c', i) == WindowId(c, i)
  {
    if c < c' {
      DrainFromBucket(ring, DrainStart(c, c'), c', i);
    }
    if WindowId(c, i) >= c' {
      WindowIdUnique(c', WindowId(c, i));
    }
  }

  /** ... and hands over exactly their timers. */
  lemma DrainRingTimers<T>(ring: Ring<T>, c: nat, c': nat, t: Timer<T>)
    requires |ring| == 64 && c <= c'
    ensures t in DrainRing(ring, c, c').1 <==> exists i: nat :: Reaches(ring, c, c', i, t)
  {
    var lo := DrainStart(c, c');
    if c < c' {
      DrainFromTimers(ring, lo, c', t);
      forall i: nat ensures Reaches(ring, lo, c', i, t) <==> Reaches(ring, c, c', i, t) {
      }
    }
  }

  lemma DrainRingPlaced<T>(tick: nat, l: nat, ring: Ring<T>, c: nat, c': nat)
    requires tick > 0 && |ring| == 64 && c <= c' && RingPlaced(tick, l, c, ring)
    ensures RingPlaced(tick, l, c', DrainRing(ring, c, c').0)
  {
    var ring' := DrainRing(ring, c, c').0;
    forall i, t | 0 <= i < 64 && t in ring'[i] ensures Placed(tick, l, WindowId(c', i), t) {
      DrainRingBucket(ring, c, c', i);
    }
  }

  // ---------------------------------------------------------------------------
  // Sums over timers
  // ---------------------------------------------------------------------------

  lemma {:induction false} SumAppend<T>(a: seq<Timer<T>>, b: seq<Timer<T>>, f: Timer<T> -> nat)
    ensures Sum(a + b, f) == Sum(a, f) + Sum(b, f)
    decreases |b|
  {
    if b == [] {
      assert a + b == a;
    } else {
      var n := |b| - 1;
      SumAppend(a, b[..n], f);
      assert (a + b)[..|a + b| - 1] == a + b[..n];
    }
  }

  lemma SumPush<T>(a: seq<Timer<T>>, t: Timer<T>, f: Timer<T> -> nat)
    ensures Sum(a + [t], f) == Sum(a, f) + f(t)
  {
    assert (a + [t])[..|a|] == a;
  }

  lemma {:induction false} SumOne<T>(ts: seq<Timer<T>>)
    ensures Sum(ts, One()) == |ts|
  {
    if ts != [] {
      SumOne(ts[..|ts| - 1]);
    }
  }

  lemma {:induction false} RingSumPrefix<T>(ring: Ring<T>, ring': Ring<T>, f: Timer<T> -> nat, k: nat)
    requires k <= |ring| && k <= |ring'| && forall i | 0 <= i < k :: ring[i] == ring'[i]
    ensures RingSum(ring, f, k) == RingSum(ring', f, k)
    decreases k
  {
    if k > 0 {
      RingSumPrefix(ring, ring', f, k - 1);
    }
  }

  lemma {:induction false} RingSumUpdate<T>(ring: Ring<T>, i: nat, s: seq<Timer<T>>, f: Timer<T> -> nat, k: nat)
    requires i < k <= |ring|
    ensures RingSum(ring[i := s], f, k) + Sum(ring[i], f) == RingSum(ring, f, k) + Sum(s, f)
    decreases k
  {
    if i == k - 1 {
      RingSumPrefix(ring, ring[i := s], f, i);
    } else {
      RingSumUpdate(ring, i, s, f, k - 1);
    }
  }

  lemma {:induction false} DrainFromConserves<T>(ring: Ring<T>, lo: nat, hi: nat, f: Timer<T> -> nat)
    requires |ring| == 64 && lo <= hi
    ensures RingSum(DrainFrom(ring, lo, hi).0, f, 64) + Sum(DrainFrom(ring, lo, hi).1, f) == RingSum(ring, f, 64)
    decreases hi - lo
  {
    if lo < hi {
      var k := lo % 64;
      var ring' := ring[k := []];
      DrainFromConserves(ring', lo + 1, hi, f);
      RingSumUpdate(ring, k, [], f, 64);
      SumAppend(ring[k], DrainFrom(ring', lo + 1, hi).1, f);
    }
  }

  lemma DrainRingConserves<T>(ring: Ring<T>, c: nat, c': nat, f: Timer<T> -> nat)
    requires |ring| == 64
    ensures RingSum(DrainRing(ring, c, c').0, f, 64) + Sum(DrainRing(ring, c, c').1, f) == RingSum(ring, f, 64)
  {
    if c < c' {
      DrainFromConserves(ring, DrainStart(c, c'), c', f);
    }
  }

  lemma {:induction false} DrainedConserves<T>(w: Wheel<T>, now: nat, f: Timer<T> -> nat, k: nat)
    requires Shaped(w) && k <= |w.rings|
    ensures RingsSum(Drained(w, now).rings, f, k) + Sum(DrainedUpTo(w, now, k), f) == RingsSum(w.rings, f, k)
    decreases k
  {
    hide DrainRing, Cursor, RingSum;
    if k > 0 {
      DrainedConserves(w, now, f, k - 1);
      DrainRingConserves(w.rings[k - 1], Cursor(w.tick, w.now, k - 1), Cursor(w.tick, now, k - 1), f);
      SumAppend(DrainedUpTo(w, now, k - 1), RingDrain(w, now, k - 1).1, f);
    }
  }

  lemma {:induction false} RingsSumPrefix<T>(rings: seq<Ring<T>>, rings': seq<Ring<T>>, f: Timer<T> -> nat, k: nat)
    requires k <= |rings| && k <= |rings'| && forall l | 0 <= l < k :: rings[l] == rings'[l]
    ensures RingsSum(rings, f, k) == RingsSum(rings', f, k)
    decreases k
  {
    if k > 0 {
      RingsSumPrefix(rings, rings', f, k - 1);
    }
  }

  lemma {:induction false} RingsSumUpdate<T>(rings: seq<Ring<T>>, l: nat, ring: Ring<T>, f: Timer<T> -> nat, k: nat)
    requires l < k <= |rings| && |ring| == |rings[l]|
    ensures RingsSum(rings[l := ring], f, k) + RingSum(rings[l], f, |ring|) == RingsSum(rings, f, k) + RingSum(ring, f, |ring|)
    decreases k
  {
    if l == k - 1 {
      RingsSumPrefix(rings, rings[l := ring], f, l);
    } else {
      RingsSumUpdate(rings, l, ring, f, k - 1);
    }
  }

  lemma {:induction false} ZeroSum<T>(ts: seq<Timer<T>>, f: Timer<T> -> nat)
    ensures Sum(ts, f) == 0 <==> forall t | t in ts :: f(t) == 0
  {
    if ts != [] {
      var n := |ts| - 1;
      ZeroSum(ts[..n], f);
      assert ts == ts[..n] + [ts[n]];
    }
  }

  lemma {:induction false} WeightlessRing<T>(ring: Ring<T>, f: Timer<T> -> nat, k: nat, i: nat, t: Timer<T>)
    requires i < k <= |ring| && RingSum(ring, f, k) == 0 && t in ring[i]
    ensures f(t) == 0
    decreases k
  {
    if i < k - 1 {
      WeightlessRing(ring, f, k - 1, i, t);
    } else {
      ZeroSum(ring[i], f);
    }
  }

  lemma {:induction false} WeightlessRings<T>(rings: seq<Ring<T>>, f: Timer<T> -> nat, k: nat, l: nat, i: nat, t: Timer<T>)
    requires l < k <= |rings| && i < |rings[l]| && RingsSum(rings, f, k) == 0 && t in rings[l][i]
    ensures f(t) == 0
    decreases k
  {
    if l < k - 1 {
      WeightlessRings(rings, f, k - 1, l, i, t);
    } else {
      WeightlessRing(rings[l], f, |rings[l]|, i, t);
    }
  }

  lemma {:induction false} EmptyRingSum<T>(ring: Ring<T>, f: Timer<T> -> nat, k: nat)
    requires k <= |ring| && forall i | 0 <= i < k :: |ring[i]| == 0
    ensures RingSum(ring, f, k) == 0
    decreases k
  {
    if k > 0 {
      EmptyRingSum(ring, f, k - 1);
    }
  }

  lemma {:induction false} EmptyRingsSum<T>(rings: seq<Ring<T>>, f: Timer<T> -> nat, k: nat)
    requires k <= |rings| && forall l | 0 <= l < k :: rings[l] == EmptyRing()
    ensures RingsSum(rings, f, k) == 0
    decreases k
  {
    if k > 0 {
      EmptyRingsSum(rings, f, k - 1);
      EmptyRingSum(rings[k - 1], f, 64);
    }
  }

  lemma {:induction false} GrownSum<T>(rings: seq<Ring<T>>, n: nat, f: Timer<T> -> nat, k: nat)
    requires |rings| <= k <= |Grown(rings, n)|
    ensures RingsSum(Grown(rings, n), f, k) == RingsSum(rings, f, |rings|)
    decreases k
  {
    if k == |rings| {
      RingsSumPrefix(Grown(rings, n), rings, f, k);
    } else {
      GrownSum(rings, n, f, k - 1);
      EmptyRingSum(Grown(rings, n)[k - 1], f, 64);
    }
  }

  // ---------------------------------------------------------------------------
  // Placement
  // ---------------------------------------------------------------------------

  /** A deadline too far for level `l` clears the lower edge of the window above it. */
  lemma TooFarClearsNextEdge(tick: nat, now: nat, l: nat, d: nat)
    requires tick > 0 && TooFar(tick, now, l, d)
    ensures Vid(tick, l + 1, d) >= Cursor(tick, now, l + 1)
  {
    VidUp(tick, l, d);
    VidUp(tick, l, now);
  }

  /** A deadline too far for level `l` leaves room for a coarser tick in 64 bits. */
  lemma TooFarFits(tick: nat, now: nat, l: nat, d: nat)
    requires tick > 0 && TooFar(tick, now, l, d)
    ensures TickAt(tick, l + 1) <= d
  {
    VidBounds(tick, l, d);
    TimesMono(64, Vid(tick, l, d), TickAt(tick, l));
    TimesIsProduct(64, TickAt(tick, l));
  }

  /** Placement is total and sound: the chosen level is the finest that reaches `d`, the
      chosen bucket is in that level's window and does not start after `d`, and a timer is
      parked exactly when all six levels fall short. */
  lemma {:induction false} HomeIsSound(tick: nat, now: nat, d: nat, l: nat)
    requires tick > 0 && l < 6 && now < d
    requires Vid(tick, l, d) >= Cursor(tick, now, l)
    ensures var s := Home(tick, now, d, l);
            && l <= s.level < 6
            && Cursor(tick, now, s.level) <= s.vid < Cursor(tick, now, s.level) + 64
            && Times(s.vid, TickAt(tick, s.level)) <= d
            && (forall k | l <= k < s.level :: TooFar(tick, now, k, d))
            && (s.vid == Vid(tick, s.level, d) <==> !TooFar(tick, now, s.level, d))
            && (TooFar(tick, now, s.level, d) ==> s.level == 5 && s.vid < Vid(tick, 5, d))
            && (l < s.level ==> TickAt(tick, s.level) <= d)
    decreases 6 - l, d
  {
    var s := Home(tick, now, d, l);
    if TooFar(tick, now, l, d) && l < 5 {
      TooFarClearsNextEdge(tick, now, l, d);
      TooFarFits(tick, now, l, d);
      HomeIsSound(tick, now, d, l + 1);
    } else {
      VidBounds(tick, s.level, d);
      TimesMono(s.vid, Vid(tick, s.level, d), TickAt(tick, s.level));
    }
  }

  lemma PlacementIsSound(tick: nat, now: nat, d: nat)
    requires tick > 0 && now < d
    ensures var s := Home(tick, now, d, 0);
            && s.level < 6
            && Cursor(tick, now, s.level) <= s.vid < Cursor(tick, now, s.level) + 64
            && Times(s.vid, TickAt(tick, s.level)) <= d
            && (forall k | 0 <= k < s.level :: TooFar(tick, now, k, d))
            && (s.vid == Vid(tick, s.level, d) <==> !TooFar(tick, now, s.level, d))
            && (TooFar(tick, now, s.level, d) ==> s.level == 5 && s.vid < Vid(tick, 5, d))
            && (0 < s.level ==> TickAt(tick, s.level) <= d)
  {
    VidMono(tick, 0, now, d);
    HomeIsSound(tick, now, d, 0);
  }

  /** A placement adds the timer at the end of its home bucket, touches no other bucket, and adds only
      the levels it needs, empty but for it. */
  lemma PlaceTouchesOneBucket<T>(w: Wheel<T>, t: Timer<T>)
    requires Shaped(w) && w.now < t.expireAt as nat
    ensures var s, w' := Home(w.tick, w.now, t.expireAt as nat, 0), Place(w, t);
            && |w'.rings| == (if s.level < |w.rings| then |w.rings| else s.level + 1)
            && forall l, i | 0 <= l < |w'.rings| && 0 <= i < 64 ::
                 var was := if l < |w.rings| then w.rings[l][i] else [];
                 w'.rings[l][i] == if l == s.level && i == s.vid % 64 then was + [t] else was
  {
    hide Home;
    PlacementIsSound(w.tick, w.now, t.expireAt as nat);
  }

  /** The level search of `place` finds the timer's home. */
  lemma {:induction false} HomeAt(tick: nat, now: nat, d: nat, l: nat, k: nat)
    requires tick > 0 && l <= k < 6
    requires forall j | l <= j < k :: TooFar(tick, now, j, d)
    ensures !TooFar(tick, now, k, d) ==> Home(tick, now, d, l) == Spot(k, Vid(tick, k, d))
    ensures TooFar(tick, now, k, d) && k == 5 ==> Home(tick, now, d, l) == Spot(5, Cursor(tick, now, 5) + 63)
    decreases k - l
  {
    if l < k {
      HomeAt(tick, now, d, l + 1, k);
    }
  }

  lemma HomeFound(tick: nat, now: nat, d: nat, k: nat)
    requires tick > 0 && k < 6 && FallShort(tick, now, d, k)
    ensures !TooFar(tick, now, k, d) ==> Home(tick, now, d, 0) == Spot(k, Vid(tick, k, d))
    ensures TooFar(tick, now, k, d) && k == 5 ==> Home(tick, now, d, 0) == Spot(5, Cursor(tick, now, 5) + 63)
  {
    HomeAt(tick, now, d, 0, k);
  }

  lemma PushPlaced<T>(tick: nat, l: nat, c: nat, ring: Ring<T>, v: nat, t: Timer<T>)
    requires tick > 0 && |ring| == 64 && RingPlaced(tick, l, c, ring)
    requires c <= v < c + 64 && Placed(tick, l, v, t)
    ensures RingPlaced(tick, l, c, Push(ring, v, t))
  {
    WindowIdUnique(c, v);
  }

  lemma PlaceKeepsInv<T>(w: Wheel<T>, t: Timer<T>)
    requires Inv(w) && w.now < t.expireAt as nat
    ensures Inv(Place(w, t))
  {
    var d := t.expireAt as nat;
    var s := Home(w.tick, w.now, d, 0);
    PlacementIsSound(w.tick, w.now, d);
    var grown := Grown(w.rings, s.level + 1);
    var w' := Place(w, t);
    forall l | 0 <= l < |w'.rings| ensures RingPlaced(w.tick, l, Cursor(w.tick, w.now, l), w'.rings[l]) {
      assert RingPlaced(w.tick, l, Cursor(w.tick, w.now, l), grown[l]);
      if l == s.level {
        PushPlaced(w.tick, l, Cursor(w.tick, w.now, l), grown[l], s.vid, t);
      }
    }
  }

  lemma PushAdds<T>(ring: Ring<T>, v: nat, t: Timer<T>, f: Timer<T> -> nat)
    requires |ring| == 64
    ensures RingSum(Push(ring, v, t), f, 64) == RingSum(ring, f, 64) + f(t)
  {
    var i := v % 64;
    RingSumUpdate(ring, i, ring[i] + [t], f, 64);
    SumPush(ring[i], t, f);
  }

  lemma PlaceAdds<T>(w: Wheel<T>, t: Timer<T>, f: Timer<T> -> nat)
    requires Shaped(w)
    ensures Weigh(Place(w, t), f) == Weigh(w, f) + f(t)
  {
    var d := t.expireAt as nat;
    HomeLevel(w.tick, w.now, d, 0);
    var s := Home(w.tick, w.now, d, 0);
    var grown := Grown(w.rings, s.level + 1);
    var ring := Push(grown[s.level], s.vid, t);
    GrownSum(w.rings, s.level + 1, f, |grown|);
    RingsSumUpdate(grown, s.level, ring, f, |grown|);
    PushAdds(grown[s.level], s.vid, t, f);
  }

  // ---------------------------------------------------------------------------
  // Operations
  // ---------------------------------------------------------------------------

  lemma NewKeepsInv<T>(tick: nat, start: nat)
    requires 0 < tick <= U64_MAX
    ensures Inv(New<T>(tick, start))
  {
  }

  lemma NewWeighsNothing<T>(tick: nat, start: nat, f: Timer<T> -> nat)
    ensures Weigh(New<T>(tick, start), f) == 0
  {
    EmptyRingsSum(New<T>(tick, start).rings, f, 1);
  }

  lemma EmptyRingPlaced<T>(tick: nat, l: nat, c: nat)
    requires tick > 0
    ensures RingPlaced(tick, l, c, EmptyRing<T>())
  {
  }

  lemma ClearKeepsInv<T>(w: Wheel<T>)
    requires Inv(w)
    ensures Inv(Clear(w))
  {
    var w' := Clear(w);
    forall l | 0 <= l < |w'.rings| ensures RingPlaced(w.tick, l, Cursor(w.tick, w.now, l), w'.rings[l]) {
      assert w'.rings[l] == EmptyRing();
      EmptyRingPlaced<T>(w.tick, l, Cursor(w.tick, w.now, l));
    }
  }

  lemma ClearWeighsNothing<T>(w: Wheel<T>, f: Timer<T> -> nat)
    ensures Weigh(Clear(w), f) == 0
  {
    EmptyRingsSum(Clear(w).rings, f, |w.rings|);
  }

  lemma DrainedKeepsInv<T>(w: Wheel<T>, now: nat)
    requires Inv(w) && w.now <= now
    ensures Inv(Drained(w, now))
  {
    var w' := Drained(w, now);
    forall l | 0 <= l < |w'.rings| ensures RingPlaced(w.tick, l, Cursor(w.tick, now, l), w'.rings[l]) {
      CursorMono(w.tick, l, w.now, now);
      DrainRingPlaced(w.tick, l, w.rings[l], Cursor(w.tick, w.now, l), Cursor(w.tick, now, l));
    }
  }

  lemma {:induction false} ReplaceKeepsInv<T>(w: Wheel<T>, ts: seq<Timer<T>>, k: nat)
    requires Inv(w) && k <= |ts|
    ensures Inv(ReplaceUpTo(w, ts, k))
    decreases k
  {
    if k > 0 {
      ReplaceKeepsInv(w, ts, k - 1);
      if w.now < ts[k - 1].expireAt as nat {
        PlaceKeepsInv(ReplaceUpTo(w, ts, k - 1), ts[k - 1]);
      }
    }
  }

  lemma {:induction false} ReplaceConserves<T>(w: Wheel<T>, ts: seq<Timer<T>>, f: Timer<T> -> nat, k: nat)
    requires Shaped(w) && k <= |ts|
    ensures Weigh(ReplaceUpTo(w, ts, k), f) + Sum(DueUpTo(ts, w.now, k), f) == Weigh(w, f) + Sum(ts[..k], f)
    decreases k
  {
    hide Place, Weigh, Sum;
    if k == 0 {
      assert ts[..0] == [];
    } else {
      ReplaceConserves(w, ts, f, k - 1);
      assert ts[..k] == ts[..k - 1] + [ts[k - 1]];
      SumPush(ts[..k - 1], ts[k - 1], f);
      if w.now < ts[k - 1].expireAt as nat {
        PlaceAdds(ReplaceUpTo(w, ts, k - 1), ts[k - 1], f);
      } else {
        SumPush(DueUpTo(ts, w.now, k - 1), ts[k - 1], f);
      }
    }
  }

  lemma {:induction false} DueMember<T>(ts: seq<Timer<T>>, now: nat, k: nat, t: Timer<T>)
    requires k <= |ts|
    ensures t in DueUpTo(ts, now, k) <==> t in ts[..k] && t.expireAt as nat <= now
    decreases k
  {
    if k > 0 {
      DueMember(ts, now, k - 1, t);
      assert ts[..k] == ts[..k - 1] + [ts[k - 1]];
    }
  }

  lemma AdvanceKeepsInv<T>(w: Wheel<T>, now: nat)
    requires Inv(w)
    ensures Inv(Advance(w, now).0)
    ensures Advance(w, now).0.now == if w.now < now then now else w.now
  {
    if w.now < now {
      var ts := DrainedUpTo(w, now, |w.rings|);
      DrainedKeepsInv(w, now);
      ReplaceKeepsInv(Drained(w, now), ts, |ts|);
    }
  }

  /** `advance_to` loses no timer and duplicates none: under every weighing, what it fires and
      what it still stores are together what was stored. */
  lemma AdvanceConserves<T>(w: Wheel<T>, now: nat, f: Timer<T> -> nat)
    requires Shaped(w)
    ensures Weigh(Advance(w, now).0, f) + Sum(Advance(w, now).1, f) == Weigh(w, f)
  {
    if w.now < now {
      var ts := DrainedUpTo(w, now, |w.rings|);
      DrainedConserves(w, now, f, |w.rings|);
      ReplaceConserves(Drained(w, now), ts, f, |ts|);
      assert ts[..|ts|] == ts;
    }
  }

  /** Nothing fires before its deadline. */
  lemma AdvanceFiresOnlyDue<T>(w: Wheel<T>, now: nat, t: Timer<T>)
    requires Shaped(w) && t in Advance(w, now).1
    ensures t.expireAt as nat <= now
  {
    var ts := DrainedUpTo(w, now, |w.rings|);
    DueMember(ts, now, |ts|, t);
  }

  lemma {:induction false} DrainedWereHeld<T>(w: Wheel<T>, now: nat, k: nat, t: Timer<T>)
    requires Shaped(w) && w.now <= now && k <= |w.rings| && t in DrainedUpTo(w, now, k)
    ensures Holds(w, t)
    decreases k
  {
    var c, c' := Cursor(w.tick, w.now, k - 1), Cursor(w.tick, now, k - 1);
    if t in RingDrain(w, now, k - 1).1 {
      CursorMono(w.tick, k - 1, w.now, now);
      DrainRingTimers(w.rings[k - 1], c, c', t);
      var i: nat :| Reaches(w.rings[k - 1], c, c', i, t);
    } else {
      DrainedWereHeld(w, now, k - 1, t);
    }
  }

  lemma DrainedAreCounted<T>(w: Wheel<T>, now: nat)
    requires Shaped(w)
    ensures |DrainedUpTo(w, now, |w.rings|)| <= Count(w)
  {
    DrainedConserves(w, now, One(), |w.rings|);
    SumOne(DrainedUpTo(w, now, |w.rings|));
  }

  lemma SafeToPlace<T>(w: Wheel<T>, now: nat, t: Timer<T>)
    requires Shaped(w) && w.now <= now && ClockSafe(w, now)
    requires t in DrainedUpTo(w, now, |w.rings|) && now < t.expireAt as nat
    ensures Quotient(now, w.tick) + 64 <= U64_MAX
  {
    DrainedWereHeld(w, now, |w.rings|, t);
  }

  /** Nothing stored is overdue by a whole tick. */
  lemma StoredIsNotOverdue<T>(w: Wheel<T>, t: Timer<T>)
    requires Inv(w) && Holds(w, t)
    ensures Vid(w.tick, 0, t.expireAt as nat) >= Vid(w.tick, 0, w.now)
  {
    var l, i :| 0 <= l < |w.rings| && 0 <= i < |w.rings[l]| && t in w.rings[l][i];
    var d := t.expireAt as nat;
    assert Placed(w.tick, l, WindowId(Cursor(w.tick, w.now, l), i), t);
    if l > 0 {
      if d < w.now {
        VidMono(w.tick, l, d, w.now);
      }
      VidMono(w.tick, 0, w.now, d);
    }
  }

  /** The firing sandwich of one `advance_to`: everything fired was due, and everything whose
      tick has ended by `now` is gone from the wheel. */
  lemma FiringSandwich<T>(w: Wheel<T>, now: nat, t: Timer<T>)
    requires Inv(w) && w.now <= now
    ensures t in Advance(w, now).1 ==> t.expireAt as nat <= now
    ensures Holds(Advance(w, now).0, t) ==> Vid(w.tick, 0, t.expireAt as nat) >= Vid(w.tick, 0, now)
    ensures Times(Vid(w.tick, 0, t.expireAt as nat) + 1, w.tick) <= now ==> !Holds(Advance(w, now).0, t)
  {
    AdvanceKeepsInv(w, now);
    if t in Advance(w, now).1 {
      AdvanceFiresOnlyDue(w, now, t);
    }
    if Holds(Advance(w, now).0, t) {
      StoredIsNotOverdue(Advance(w, now).0, t);
      if Times(Vid(w.tick, 0, t.expireAt as nat) + 1, w.tick) <= now {
        TickEnded(w.tick, t.expireAt as nat, now);
      }
    }
  }

  lemma TickEnded(tick: nat, d: nat, now: nat)
    requires tick > 0 && Times(Vid(tick, 0, d) + 1, tick) <= now
    ensures Vid(tick, 0, d) < Vid(tick, 0, now)
  {
    VidBounds(tick, 0, now);
    if Vid(tick, 0, now) <= Vid(tick, 0, d) {
      TimesMono(Vid(tick, 0, now) + 1, Vid(tick, 0, d) + 1, tick);
    }
  }

  // ---------------------------------------------------------------------------
  // The occupancy mask
  // ---------------------------------------------------------------------------

  /** The mask has exactly the bits of the non-empty buckets. */
  ghost predicate Mirrors<T>(mask: nat, n: nat, ring: Ring<T>) {
    && n == 64 == |ring|
    && BitMask.Fits(mask, n)
    && forall i | 0 <= i < n :: BitMask.Has(mask, i) <==> |ring[i]| > 0
  }

  /** The mask tells what a linear search from the cursor would find. */
  lemma MaskTellsNearest<T>(mask: nat, n: nat, ring: Ring<T>, c: nat)
    requires Mirrors(mask, n, ring)
    ensures mask == 0 <==> Ahead(ring, c, 0) == 64
    ensures mask != 0 ==> var m := BitMask.RotateRight(mask, n, c % 64);
                          m != 0 && BitMask.TrailingZeros(m) == Ahead(ring, c, 0)
  {
    hide BitMask.RotateRight, BitMask.TrailingZeros, Mirrors;
    if mask == 0 {
      ZeroMirrorsEmpty(mask, n, ring);
    } else {
      MaskFindsNearest(mask, n, ring, c);
    }
  }

  lemma ZeroMirrorsEmpty<T>(mask: nat, n: nat, ring: Ring<T>)
    requires Mirrors(mask, n, ring)
    ensures mask == 0 <==> forall i | 0 <= i < 64 :: |ring[i]| == 0
  {
    BitMask.ZeroHasNoBit(mask, n);
    forall i | 0 <= i < 64 ensures BitMask.Has(mask, i) <==> |ring[i]| > 0 {
    }
    if mask != 0 {
      var i :| 0 <= i < n && BitMask.Has(mask, i);
      assert |ring[i]| > 0;
    } else {
      forall i | 0 <= i < 64 ensures |ring[i]| == 0 {
        assert !BitMask.Has(mask, i);
      }
    }
  }

  lemma SlotWraps(c: nat, k: nat)
    requires k < 64
    ensures Slot(c, k) == if k + c % 64 < 64 then k + c % 64 else k + c % 64 - 64
  {
  }

  lemma RotatedMask<T>(mask: nat, n: nat, ring: Ring<T>, c: nat, k: nat)
    requires Mirrors(mask, n, ring) && k < n
    ensures BitMask.Fits(BitMask.RotateRight(mask, n, c % 64), n)
    ensures BitMask.Has(BitMask.RotateRight(mask, n, c % 64), k) <==> |ring[Slot(c, k)]| > 0
  {
    BitMask.RotateRightBit(mask, n, c % 64, k);
    SlotWraps(c, k);
  }

  /** Rotating the cursor onto bit 0 and counting trailing zeros finds the bucket a linear
      search from the cursor finds. */
  lemma MaskFindsNearest<T>(mask: nat, n: nat, ring: Ring<T>, c: nat)
    requires Mirrors(mask, n, ring) && mask != 0
    ensures var m := BitMask.RotateRight(mask, n, c % 64);
            m != 0 && BitMask.TrailingZeros(m) == Ahead(ring, c, 0) < 64
  {
    var m := BitMask.RotateRight(mask, n, c % 64);
    BitMask.ZeroHasNoBit(mask, n);
    var b :| 0 <= b < n && BitMask.Has(mask, b);
    var i := WindowId(c, b) - c;
    assert Slot(c, i) == b;
    RotatedMask(mask, n, ring, c, i);
    BitMask.ZeroHasNoBit(m, n);
    var j := Ahead(ring, c, 0);
    assert j <= i;
    RotatedMask(mask, n, ring, c, j);
    var k := BitMask.TrailingZeros(m);
    assert k <= j;
    RotatedMask(mask, n, ring, c, k);
  }

  lemma SlotWindow(c: nat, j: nat)
    requires j < 64
    ensures WindowId(c, Slot(c, j)) == c + j
  {
    WindowIdUnique(c, c + j);
  }

  /** Every instant at which a level hands over a bucket it holds is a 64-bit number. */
  ghost predicate DuesFit<T>(ring: Ring<T>, c: nat, lag: nat, tick: nat)
    requires |ring| == 64
  {
    forall i | 0 <= i < 64 && |ring[i]| > 0 :: Times(WindowId(c, i) + lag, tick) <= U64_MAX
  }

  lemma NearestFits<T>(ring: Ring<T>, c: nat, lag: nat, tick: nat)
    requires |ring| == 64 && Ahead(ring, c, 0) < 64 && DuesFit(ring, c, lag, tick)
    ensures Times(c + Ahead(ring, c, 0) + lag, tick) <= U64_MAX
  {
    hide Times;
    var j := Ahead(ring, c, 0);
    SlotWindow(c, j);
    assert |ring[Slot(c, j)]| > 0;
  }

  /** The tick of every stored deadline ends within 64 bits. */
  ghost predicate ExpiriesFit<T>(w: Wheel<T>)
    requires w.tick > 0
  {
    forall l, i, t | 0 <= l < |w.rings| && 0 <= i < |w.rings[l]| && t in w.rings[l][i] ::
      Times(Vid(w.tick, 0, t.expireAt as nat) + 1, w.tick) <= U64_MAX
  }

  /** Deadlines a tick short of the end are enough for that. */
  lemma EarlyDeadlineFits(tick: nat, d: nat)
    requires tick > 0 && d <= U64_MAX - tick
    ensures Times(Vid(tick, 0, d) + 1, tick) <= U64_MAX
  {
    VidBounds(tick, 0, d);
  }

  /** The window edge `next_vid + 64` of the bottom level leaves 64 bits exactly when the tick is
      one millisecond and the clock is within 64 milliseconds of the end. */
  lemma WindowEdgeFits(tick: nat, now: nat)
    requires tick > 0 && now <= U64_MAX
    ensures Quotient(now, tick) + 64 <= U64_MAX <==> tick > 1 || now <= U64_MAX - 64
  {
    QuotientSmall(now, tick);
    if tick == 1 {
      QuotientByOne(now);
    }
  }

  lemma {:induction false} QuotientByOne(x: nat)
    ensures Quotient(x, 1) == x
  {
    if x > 0 {
      QuotientByOne(x - 1);
    }
  }

  lemma DuesFitEverywhere<T>(w: Wheel<T>, l: nat)
    requires Inv(w) && ExpiriesFit(w) && l < |w.rings|
    ensures DuesFit(w.rings[l], Cursor(w.tick, w.now, l), Lag(l), TickAt(w.tick, l))
  {
    hide Times, Quotient, TickAt, Vid, Cursor, WindowId, Placed;
    var c := Cursor(w.tick, w.now, l);
    forall i | 0 <= i < 64 && |w.rings[l][i]| > 0
      ensures Times(WindowId(c, i) + Lag(l), TickAt(w.tick, l)) <= U64_MAX
    {
      var t := w.rings[l][i][0];
      assert t in w.rings[l][i];
      assert Placed(w.tick, l, WindowId(c, i), t);
      DueBound(w.tick, l, WindowId(c, i), t);
    }
  }

  /** No bucket is handed over later than the end of the tick of any deadline it holds. */
  lemma DueBound<T>(tick: nat, l: nat, v: nat, t: Timer<T>)
    requires tick > 0 && l < 6 && Placed(tick, l, v, t)
    ensures DueAt(tick, l, v) <= Times(Vid(tick, 0, t.expireAt as nat) + 1, tick)
    ensures l > 0 ==> DueAt(tick, l, v) <= t.expireAt as nat
  {
    var d := t.expireAt as nat;
    if l > 0 {
      VidBounds(tick, l, d);
      TimesMono(v, Vid(tick, l, d), TickAt(tick, l));
      VidBounds(tick, 0, d);
    }
  }

  lemma {:induction false} EmptyHasNoExpiry<T>(w: Wheel<T>, k: nat)
    requires Shaped(w) && k <= |w.rings| && RingsSum(w.rings, One(), k) == 0
    ensures NextExpiryUpTo(w, k) == None
    decreases k
  {
    if k > 0 {
      EmptyHasNoExpiry(w, k - 1);
      ZeroRingSum(w.rings[k - 1], 64);
    }
  }

  lemma {:induction false} ZeroRingSum<T>(ring: Ring<T>, k: nat)
    requires k <= |ring| && RingSum(ring, One(), k) == 0
    ensures forall i | 0 <= i < k :: |ring[i]| == 0
    decreases k
  {
    if k > 0 {
      ZeroRingSum(ring, k - 1);
      SumOne(ring[k - 1]);
    }
  }
}
