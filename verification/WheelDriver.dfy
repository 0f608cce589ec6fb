/** The next wake of the hierarchical wheel, and the wakes a driver may skip. */
module WheelDriver {
  import opened Machine
  import opened WheelModel
  import opened WheelInvariant

  // ---------------------------------------------------------------------------
  // The next wake is strictly ahead, in time for everyone, and someone's
  // ---------------------------------------------------------------------------

  /** Bucket `i` of level `l` holds something. */
  predicate Busy<T>(w: Wheel<T>, l: nat, i: nat)
    requires Shaped(w)
  {
    l < |w.rings| && i < 64 && |w.rings[l][i]| > 0
  }

  /** When bucket `i` of level `l` is handed over. */
  function BucketDue<T>(w: Wheel<T>, l: nat, i: nat): nat
    requires Shaped(w) && l < 6 && i < 64
  {
    DueAt(w.tick, l, WindowId(Cursor(w.tick, w.now, l), i))
  }

  lemma DueMono(tick: nat, l: nat, v: nat, v': nat)
    requires v <= v'
    ensures DueAt(tick, l, v) <= DueAt(tick, l, v')
  {
    TimesMono(v + Lag(l), v' + Lag(l), TickAt(tick, l));
  }

  /** The nearest bucket a linear search finds is the one with the smallest window id. */
  lemma AheadIsNearest<T>(ring: Ring<T>, c: nat, i: nat)
    requires |ring| == 64 && i < 64 && |ring[i]| > 0
    ensures Ahead(ring, c, 0) < 64 && c + Ahead(ring, c, 0) <= WindowId(c, i)
  {
    var k := WindowId(c, i) - c;
    assert Slot(c, k) == i;
  }

  lemma RingDueIsLeast<T>(w: Wheel<T>, l: nat, i: nat)
    requires Shaped(w) && Busy(w, l, i)
    ensures var due := RingDue(w.tick, l, Cursor(w.tick, w.now, l), w.rings[l]);
            due.Some? && due.value <= BucketDue(w, l, i)
  {
    hide Cursor, DueAt, Ahead, WindowId;
    var c := Cursor(w.tick, w.now, l);
    AheadIsNearest(w.rings[l], c, i);
    DueMono(w.tick, l, c + Ahead(w.rings[l], c, 0), WindowId(c, i));
  }

  lemma RingDueIsSome<T>(w: Wheel<T>, l: nat)
    requires Shaped(w) && l < |w.rings| && RingDue(w.tick, l, Cursor(w.tick, w.now, l), w.rings[l]).Some?
    ensures exists i: nat :: Busy(w, l, i) && RingDue(w.tick, l, Cursor(w.tick, w.now, l), w.rings[l]) == Some(BucketDue(w, l, i))
  {
    hide Cursor, DueAt, WindowId;
    var c := Cursor(w.tick, w.now, l);
    var j := Ahead(w.rings[l], c, 0);
    SlotWindow(c, j);
    assert Busy(w, l, Slot(c, j));
  }

  lemma {:induction false} NextExpiryIsLeast<T>(w: Wheel<T>, k: nat, l: nat, i: nat)
    requires Shaped(w) && l < k <= |w.rings| && Busy(w, l, i)
    ensures NextExpiryUpTo(w, k).Some? && NextExpiryUpTo(w, k).value <= BucketDue(w, l, i)
    decreases k
  {
    hide RingDue, DueAt;
    if l == k - 1 {
      RingDueIsLeast(w, l, i);
    } else {
      NextExpiryIsLeast(w, k - 1, l, i);
    }
  }

  lemma {:induction false} NextExpiryIsSome<T>(w: Wheel<T>, k: nat)
    requires Shaped(w) && k <= |w.rings| && NextExpiryUpTo(w, k).Some?
    ensures exists l: nat, i: nat :: Busy(w, l, i) && NextExpiryUpTo(w, k).value == BucketDue(w, l, i)
    decreases k
  {
    hide RingDue, DueAt;
    var due := RingDue(w.tick, k - 1, Cursor(w.tick, w.now, k - 1), w.rings[k - 1]);
    if NextExpiryUpTo(w, k) == due {
      RingDueIsSome(w, k - 1);
      var i: nat :| Busy(w, k - 1, i) && due == Some(BucketDue(w, k - 1, i));
    } else {
      NextExpiryIsSome(w, k - 1);
    }
  }

  /** No bucket is handed over before the clock has moved. */
  lemma BucketDueIsAhead<T>(w: Wheel<T>, l: nat, i: nat)
    requires Shaped(w) && l < 6 && i < 64
    ensures BucketDue(w, l, i) > w.now
  {
    VidBounds(w.tick, l, w.now);
    DueMono(w.tick, l, Cursor(w.tick, w.now, l), WindowId(Cursor(w.tick, w.now, l), i));
  }

  /** `next_expiry_ms` is strictly after the clock and no later than the end of the tick of any
      stored deadline; it is absent only when nothing is stored. */
  lemma NextExpiryIsTimely<T>(w: Wheel<T>, t: Timer<T>)
    requires Inv(w)
    ensures NextExpiry(w).Some? ==> NextExpiry(w).value > w.now
    ensures Holds(w, t) ==> NextExpiry(w).Some?
                            && NextExpiry(w).value <= Times(Vid(w.tick, 0, t.expireAt as nat) + 1, w.tick)
  {
    hide BucketDue, NextExpiryUpTo, Times;
    if NextExpiry(w).Some? {
      NextExpiryIsSome(w, |w.rings|);
      var l: nat, i: nat :| Busy(w, l, i) && NextExpiry(w).value == BucketDue(w, l, i);
      BucketDueIsAhead(w, l, i);
    }
    if Holds(w, t) {
      var l, i :| 0 <= l < |w.rings| && 0 <= i < |w.rings[l]| && t in w.rings[l][i];
      NextExpiryIsLeast(w, |w.rings|, l, i);
      BucketDueBound(w, l, i, t);
    }
  }

  lemma BucketDueBound<T>(w: Wheel<T>, l: nat, i: nat, t: Timer<T>)
    requires Inv(w) && l < |w.rings| && i < 64 && t in w.rings[l][i]
    ensures BucketDue(w, l, i) <= Times(Vid(w.tick, 0, t.expireAt as nat) + 1, w.tick)
  {
    hide DueAt, Times;
    assert Placed(w.tick, l, WindowId(Cursor(w.tick, w.now, l), i), t);
    DueBound(w.tick, l, WindowId(Cursor(w.tick, w.now, l), i), t);
  }

  /** The end of a deadline's tick is at most one tick after the deadline. */
  lemma TickEndIsNear(tick: nat, d: nat)
    requires tick > 0
    ensures d < Times(Vid(tick, 0, d) + 1, tick) <= d + tick
  {
    VidBounds(tick, 0, d);
  }

  // ---------------------------------------------------------------------------
  // Skip law
  // ---------------------------------------------------------------------------

  /** Nothing is handed over up to and including instant `n`. */
  predicate Quiet<T>(w: Wheel<T>, n: nat)
    requires Shaped(w)
  {
    NextExpiry(w).None? || n < NextExpiry(w).value
  }

  lemma {:induction false} DrainFromSkip<T>(ring: Ring<T>, lo: nat, mid: nat, hi: nat)
    requires |ring| == 64 && lo <= mid <= hi && forall v | lo <= v < mid :: |ring[v % 64]| == 0
    ensures DrainFrom(ring, lo, hi) == DrainFrom(ring, mid, hi)
    decreases mid - lo
  {
    if lo < mid {
      assert ring[lo % 64 := []] == ring;
      DrainFromSkip(ring, lo + 1, mid, hi);
      assert ring[lo % 64] + DrainFrom(ring, lo + 1, hi).1 == DrainFrom(ring, lo + 1, hi).1;
    }
  }

  /** The buckets between two cursors are empty. */
  ghost predicate Clear<T>(ring: Ring<T>, c: nat, c': nat)
    requires |ring| == 64
  {
    forall i | 0 <= i < 64 && WindowId(c, i) < c' :: |ring[i]| == 0
  }

  lemma ClearIds<T>(ring: Ring<T>, c: nat, c': nat, v: nat)
    requires |ring| == 64 && Clear(ring, c, c') && c <= v < c'
    ensures |ring[v % 64]| == 0
  {
    assert WindowId(c, v % 64) <= v;
  }

  lemma DrainRingSkip<T>(ring: Ring<T>, c: nat, c': nat, c'': nat)
    requires |ring| == 64 && c <= c' <= c'' && Clear(ring, c, c')
    ensures DrainRing(ring, c, c'') == DrainRing(ring, c', c'')
  {
    if c < c'' && c'' - c' < 64 {
      var lo := DrainStart(c, c'');
      forall v | lo <= v < c' ensures |ring[v % 64]| == 0 {
        ClearIds(ring, c, c', v);
      }
      DrainFromSkip(ring, lo, c', c'');
    }
  }

  /** A quiet instant has passed no busy bucket. */
  lemma QuietIsClear<T>(w: Wheel<T>, n: nat, l: nat)
    requires Shaped(w) && w.now <= n && Quiet(w, n) && l < |w.rings|
    ensures Clear(w.rings[l], Cursor(w.tick, w.now, l), Cursor(w.tick, n, l))
  {
    hide NextExpiryUpTo, DueAt;
    var c := Cursor(w.tick, w.now, l);
    forall i | 0 <= i < 64 && WindowId(c, i) < Cursor(w.tick, n, l) ensures |w.rings[l][i]| == 0 {
      if |w.rings[l][i]| > 0 {
        NextExpiryIsLeast(w, |w.rings|, l, i);
        PassedIsDue(w.tick, l, WindowId(c, i), n);
      }
    }
  }

  lemma PassedIsDue(tick: nat, l: nat, v: nat, n: nat)
    requires tick > 0
    ensures v < Cursor(tick, n, l) <==> DueAt(tick, l, v) <= n
  {
    VidBounds(tick, l, n);
    if v < Cursor(tick, n, l) {
      TimesMono(v + Lag(l), Vid(tick, l, n), TickAt(tick, l));
    } else {
      TimesMono(Vid(tick, l, n) + 1, v + Lag(l), TickAt(tick, l));
    }
  }

  function Later<T>(w: Wheel<T>, n: nat): Wheel<T> {
    w.(now := n)
  }

  lemma DrainSkip<T>(w: Wheel<T>, n: nat, m: nat, l: nat)
    requires Shaped(w) && w.now <= n <= m && Quiet(w, n) && l < |w.rings|
    ensures RingDrain(Later(w, n), m, l) == RingDrain(w, m, l)
  {
    hide NextExpiryUpTo, Cursor, DrainRing;
    QuietIsClear(w, n, l);
    CursorMono(w.tick, l, w.now, n);
    CursorMono(w.tick, l, n, m);
    DrainRingSkip(w.rings[l], Cursor(w.tick, w.now, l), Cursor(w.tick, n, l), Cursor(w.tick, m, l));
  }

  lemma {:induction false} DrainedSkip<T>(w: Wheel<T>, n: nat, m: nat, k: nat)
    requires Shaped(w) && w.now <= n <= m && Quiet(w, n) && k <= |w.rings|
    ensures DrainedUpTo(Later(w, n), m, k) == DrainedUpTo(w, m, k)
    decreases k
  {
    hide NextExpiryUpTo, RingDrain;
    if k > 0 {
      DrainedSkip(w, n, m, k - 1);
      DrainSkip(w, n, m, k - 1);
    }
  }

  lemma DrainedWheelSkip<T>(w: Wheel<T>, n: nat, m: nat)
    requires Shaped(w) && w.now <= n <= m && Quiet(w, n)
    ensures Drained(Later(w, n), m) == Drained(w, m)
  {
    hide NextExpiryUpTo, RingDrain;
    forall l | 0 <= l < |w.rings| ensures RingDrain(Later(w, n), m, l).0 == RingDrain(w, m, l).0 {
      DrainSkip(w, n, m, l);
    }
    assert Drained(Later(w, n), m).rings == Drained(w, m).rings;
  }

  lemma {:induction false} DrainStill<T>(w: Wheel<T>, k: nat)
    requires Shaped(w) && k <= |w.rings|
    ensures DrainedUpTo(w, w.now, k) == []
    decreases k
  {
    if k > 0 {
      DrainStill(w, k - 1);
    }
  }

  /** Advancing to a quiet instant fires nothing and moves nothing but the clock. */
  lemma SkipLaw<T>(w: Wheel<T>, n: nat)
    requires Shaped(w) && w.now <= n && Quiet(w, n)
    ensures Advance(w, n) == (Later(w, n), [])
  {
    hide NextExpiryUpTo, RingDrain, DrainedUpTo;
    if w.now < n {
      DrainedSkip(w, n, n, |w.rings|);
      DrainStill(Later(w, n), |w.rings|);
      DrainedWheelSkip(w, n, n);
      StillWheel(Later(w, n));
    }
  }

  lemma StillWheel<T>(w: Wheel<T>)
    requires Shaped(w)
    ensures Drained(w, w.now) == w
  {
    assert Drained(w, w.now).rings == w.rings;
  }

  /** Adding a wake at a quiet instant changes neither what a later advance fires nor what it
      leaves behind. */
  lemma ExtraWakeIsHarmless<T>(w: Wheel<T>, n: nat, m: nat)
    requires Shaped(w) && w.now <= n <= m && Quiet(w, n)
    ensures Advance(Advance(w, n).0, m) == Advance(w, m)
  {
    hide NextExpiryUpTo, RingDrain, DrainedUpTo, Drained, ReplaceUpTo, DueUpTo;
    SkipLaw(w, n);
    if n < m {
      DrainedSkip(w, n, m, |w.rings|);
      DrainedWheelSkip(w, n, m);
    }
  }
}
