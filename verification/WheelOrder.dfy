/** The order in which one advance fires: level by level, within a level by when the drain visits the
    bucket, within a bucket by when the timer was pushed. */
module WheelOrder {
  import opened Machine
  import opened WheelModel
  import opened WheelInvariant

  /** `xs` and, after it, `ys` are stretches of `all`. */
  ghost predicate InTurn<A(!new)>(all: seq<A>, xs: seq<A>, ys: seq<A>) {
    exists a, b, c :: Stretch(all, a, xs, b, ys, c)
  }

  predicate Stretch<A(==)>(all: seq<A>, a: seq<A>, xs: seq<A>, b: seq<A>, ys: seq<A>, c: seq<A>) {
    all == a + xs + b + ys + c
  }

  lemma InTurnWithin<A(!new)>(front: seq<A>, all: seq<A>, back: seq<A>, xs: seq<A>, ys: seq<A>)
    requires InTurn(all, xs, ys)
    ensures InTurn(front + all + back, xs, ys)
  {
    var a, b, c :| Stretch(all, a, xs, b, ys, c);
    assert front + (a + xs + b + ys + c) + back == (front + a) + xs + b + ys + (c + back);
    assert Stretch(front + all + back, front + a, xs, b, ys, c + back);
  }

  lemma InTurnAcross<A(!new)>(a: seq<A>, xs: seq<A>, b: seq<A>, c: seq<A>, ys: seq<A>, d: seq<A>)
    ensures InTurn((a + xs + b) + (c + ys + d), xs, ys)
  {
    assert (a + xs + b) + (c + ys + d) == a + xs + (b + c) + ys + d;
    assert Stretch((a + xs + b) + (c + ys + d), a, xs, b + c, ys, d);
  }

  lemma InTurnPart<A(!new)>(all: seq<A>, xs: seq<A>, ys: seq<A>, i: nat, j: nat)
    requires InTurn(all, xs, ys) && i < |xs| && j < |ys|
    ensures InTurn(all, [xs[i]], [ys[j]])
  {
    var a, b, c :| Stretch(all, a, xs, b, ys, c);
    assert xs == xs[..i] + [xs[i]] + xs[i + 1..] && ys == ys[..j] + [ys[j]] + ys[j + 1..];
    assert all == (a + xs[..i]) + [xs[i]] + (xs[i + 1..] + b + ys[..j]) + [ys[j]] + (ys[j + 1..] + c);
    assert Stretch(all, a + xs[..i], [xs[i]], xs[i + 1..] + b + ys[..j], [ys[j]], ys[j + 1..] + c);
  }

  // ---------------------------------------------------------------------------
  // Draining
  // ---------------------------------------------------------------------------

  /** A drain returns the timers of every bucket it visits in one stretch, as they were pushed. */
  lemma {:induction false} DrainFromWhole<T>(ring: Ring<T>, lo: nat, hi: nat, j: nat) returns (a: seq<Timer<T>>, b: seq<Timer<T>>)
    requires |ring| == 64 && lo <= hi && j < 64 && WindowId(lo, j) < hi
    ensures DrainFrom(ring, lo, hi).1 == a + ring[j] + b
    decreases hi - lo
  {
    hide WindowId;
    WindowIdNext(lo, j);
    var ring' := ring[lo % 64 := []];
    if j == lo % 64 {
      a, b := [], DrainFrom(ring', lo + 1, hi).1;
    } else {
      a, b := DrainFromWhole(ring', lo + 1, hi, j);
      assert ring[lo % 64] + (a + ring[j] + b) == (ring[lo % 64] + a) + ring[j] + b;
      a := ring[lo % 64] + a;
    }
  }

  lemma {:induction false} DrainFromInTurn<T(!new)>(ring: Ring<T>, lo: nat, hi: nat, i: nat, j: nat)
    requires |ring| == 64 && lo <= hi && i < 64 && j < 64 && WindowId(lo, i) < WindowId(lo, j) < hi
    ensures InTurn(DrainFrom(ring, lo, hi).1, ring[i], ring[j])
    decreases hi - lo
  {
    hide WindowId, InTurn;
    WindowIdNext(lo, i);
    WindowIdNext(lo, j);
    var ring' := ring[lo % 64 := []];
    var rest := DrainFrom(ring', lo + 1, hi).1;
    if i == lo % 64 {
      var a, b := DrainFromWhole(ring', lo + 1, hi, j);
      InTurnAcross([], ring[i], [], a, ring[j], b);
      assert [] + ring[i] + [] == ring[i];
    } else {
      DrainFromInTurn(ring', lo + 1, hi, i, j);
      InTurnWithin(ring[lo % 64], rest, [], ring[i], ring[j]);
      assert ring[lo % 64] + rest + [] == ring[lo % 64] + rest;
    }
  }

  /** When a drain from cursor `c` to `c'` visits bucket `i`. */
  function Turn(c: nat, c': nat, i: nat): nat
    requires i < 64
  {
    WindowId(DrainStart(c, c'), i)
  }

  lemma TurnIsInTime(c: nat, c': nat, i: nat)
    requires c < c' && i < 64 && WindowId(c, i) < c'
    ensures Turn(c, c', i) < c'
  {
    hide WindowId;
    if c' - c < 64 {
      assert DrainStart(c, c') == c;
    }
  }

  /** Buckets are visited in the order of their windows, for every two of them, exactly when the cursor
      moves by at most one rotation or by whole rotations. */
  lemma WindowOrder(c: nat, c': nat)
    requires c < c'
    ensures (forall i: nat, j: nat | i < 64 && j < 64 && WindowId(c, i) < WindowId(c, j) :: Turn(c, c', i) < Turn(c, c', j))
            <==> c' - c <= 64 || (c' - c) % 64 == 0
  {
    var lo := DrainStart(c, c');
    if c' - c <= 64 {
      assert lo == c;
    } else if (c' - c) % 64 == 0 {
      forall i: nat | i < 64 ensures WindowId(lo, i) == WindowId(c, i) + (lo - c) {
        SameSlot(c, lo, i);
      }
    } else {
      var i, j := c % 64, lo % 64;
      WindowIdUnique(c, c);
      WindowIdUnique(lo, lo);
      OtherSlot(c, lo);
    }
  }

  lemma SameSlot(c: nat, lo: nat, i: nat)
    requires c <= lo && (lo - c) % 64 == 0 && i < 64
    ensures WindowId(lo, i) == WindowId(c, i) + (lo - c)
  {
    WindowIdUnique(lo, WindowId(c, i) + (lo - c));
  }

  lemma OtherSlot(c: nat, lo: nat)
    requires c <= lo && (lo - c) % 64 != 0
    ensures c % 64 != lo % 64
    ensures WindowId(c, c % 64) < WindowId(c, lo % 64) && WindowId(lo, lo % 64) < WindowId(lo, c % 64)
  {
    WindowIdUnique(c, c);
    WindowIdUnique(lo, lo);
  }

  /** A jump past one rotation can visit a later window first: from cursor 10 to 100, bucket 36, of window
      36, comes before bucket 10, of window 10. */
  lemma LongJumpReorders<T(!new)>(ring: Ring<T>)
    requires |ring| == 64
    ensures WindowId(10, 10) < WindowId(10, 36) && InTurn(DrainRing(ring, 10, 100).1, ring[36], ring[10])
  {
    DrainFromInTurn(ring, 36, 100, 36, 10);
  }

  // ---------------------------------------------------------------------------
  // Firing
  // ---------------------------------------------------------------------------

  /** The due ones, in order. */
  function Due<T>(ts: seq<Timer<T>>, now: nat): seq<Timer<T>> {
    DueUpTo(ts, now, |ts|)
  }

  lemma {:induction false} DuePrefix<T>(ts: seq<Timer<T>>, us: seq<Timer<T>>, now: nat, k: nat)
    requires k <= |ts| && k <= |us| && ts[..k] == us[..k]
    ensures DueUpTo(ts, now, k) == DueUpTo(us, now, k)
  {
    if k > 0 {
      assert ts[..k][k - 1] == us[..k][k - 1];
      assert ts[..k - 1] == ts[..k][..k - 1] && us[..k - 1] == us[..k][..k - 1];
      DuePrefix(ts, us, now, k - 1);
    }
  }

  lemma {:induction false} DueAppend<T>(ts: seq<Timer<T>>, us: seq<Timer<T>>, now: nat)
    ensures Due(ts + us, now) == Due(ts, now) + Due(us, now)
    decreases |us|
  {
    if us == [] {
      assert ts + us == ts;
    } else {
      var n := |us| - 1;
      DueAppend(ts, us[..n], now);
      var all := ts + us;
      assert all[..|all| - 1] == ts + us[..n];
      DuePrefix(all, ts + us[..n], now, |all| - 1);
      DuePrefix(us, us[..n], now, n);
    }
  }

  lemma DueOne<T>(x: Timer<T>, now: nat)
    requires x.expireAt as nat <= now
    ensures Due([x], now) == [x]
  {
    assert DueUpTo([x], now, 0) == [];
  }

  /** Of two timers handed over in turn, both due, the first fires first. */
  lemma DueInTurn<T(!new)>(ts: seq<Timer<T>>, now: nat, x: Timer<T>, y: Timer<T>)
    requires InTurn(ts, [x], [y]) && x.expireAt as nat <= now && y.expireAt as nat <= now
    ensures InTurn(Due(ts, now), [x], [y])
  {
    hide Due;
    var a, b, c :| Stretch(ts, a, [x], b, [y], c);
    DueAppend(a + [x] + b + [y], c, now);
    DueAppend(a + [x] + b, [y], now);
    DueAppend(a + [x], b, now);
    DueAppend(a, [x], now);
    DueOne(x, now);
    DueOne(y, now);
    assert Stretch(Due(ts, now), Due(a, now), [x], Due(b, now), [y], Due(c, now));
  }

  /** A place a timer can be found: level, bucket, and how many were pushed there before it. */
  datatype Site = Site(level: nat, bucket: nat, index: nat)

  /** The advance to `now` takes the timer at `p` out. */
  ghost predicate Passed<T>(w: Wheel<T>, now: nat, p: Site)
    requires Shaped(w)
  {
    && p.level < |w.rings| && p.bucket < 64 && p.index < |w.rings[p.level][p.bucket]|
    && WindowId(Cursor(w.tick, w.now, p.level), p.bucket) < Cursor(w.tick, now, p.level)
  }

  function At<T>(w: Wheel<T>, p: Site): Timer<T>
    requires Shaped(w) && p.level < |w.rings| && p.bucket < 64 && p.index < |w.rings[p.level][p.bucket]|
  {
    w.rings[p.level][p.bucket][p.index]
  }

  function TurnOf<T>(w: Wheel<T>, now: nat, p: Site): nat
    requires Shaped(w) && p.bucket < 64
  {
    Turn(Cursor(w.tick, w.now, p.level), Cursor(w.tick, now, p.level), p.bucket)
  }

  /** `p` comes before `q`: a lower level, or an earlier visit on the same level, or the same bucket and
      pushed earlier. */
  ghost predicate Before<T>(w: Wheel<T>, now: nat, p: Site, q: Site)
    requires Shaped(w) && p.bucket < 64 && q.bucket < 64
  {
    || p.level < q.level
    || (p.level == q.level && TurnOf(w, now, p) < TurnOf(w, now, q))
    || (p.level == q.level && p.bucket == q.bucket && p.index < q.index)
  }

  lemma RingWhole<T>(w: Wheel<T>, now: nat, p: Site) returns (a: seq<Timer<T>>, b: seq<Timer<T>>)
    requires Shaped(w) && w.now <= now && Passed(w, now, p)
    ensures RingDrain(w, now, p.level).1 == a + w.rings[p.level][p.bucket] + b
  {
    hide Cursor, WindowId, DrainFrom;
    var c, c' := Cursor(w.tick, w.now, p.level), Cursor(w.tick, now, p.level);
    TurnIsInTime(c, c', p.bucket);
    a, b := DrainFromWhole(w.rings[p.level], DrainStart(c, c'), c', p.bucket);
  }

  lemma RingOne<T>(w: Wheel<T>, now: nat, p: Site) returns (a: seq<Timer<T>>, b: seq<Timer<T>>)
    requires Shaped(w) && w.now <= now && Passed(w, now, p)
    ensures RingDrain(w, now, p.level).1 == a + [At(w, p)] + b
  {
    a, b := RingWhole(w, now, p);
    hide RingDrain, Cursor, WindowId;
    var s, n := w.rings[p.level][p.bucket], p.index;
    SingledOut(a, s, b, n);
    a, b := a + s[..n], s[n + 1..] + b;
  }

  lemma SingledOut<A>(a: seq<A>, s: seq<A>, b: seq<A>, n: nat)
    requires n < |s|
    ensures a + s + b == (a + s[..n]) + [s[n]] + (s[n + 1..] + b)
  {
    assert s == s[..n] + [s[n]] + s[n + 1..];
  }

  lemma RingInTurn<T(!new)>(w: Wheel<T>, now: nat, p: Site, q: Site)
    requires Shaped(w) && w.now <= now && Passed(w, now, p) && Passed(w, now, q) && p.level == q.level
    requires Before(w, now, p, q)
    ensures InTurn(RingDrain(w, now, p.level).1, [At(w, p)], [At(w, q)])
  {
    hide Cursor, WindowId, DrainFrom, InTurn;
    var ring := w.rings[p.level];
    if p.bucket == q.bucket && p.index < q.index {
      var a, b := RingWhole(w, now, p);
      var s := ring[p.bucket];
      BucketInTurn(s, p.index, q.index);
      InTurnWithin(a, s, b, [s[p.index]], [s[q.index]]);
    } else {
      var c, c' := Cursor(w.tick, w.now, p.level), Cursor(w.tick, now, p.level);
      TurnIsInTime(c, c', q.bucket);
      DrainFromInTurn(ring, DrainStart(c, c'), c', p.bucket, q.bucket);
      InTurnPart(RingDrain(w, now, p.level).1, ring[p.bucket], ring[q.bucket], p.index, q.index);
    }
  }

  lemma BucketInTurn<A(!new)>(s: seq<A>, i: nat, j: nat)
    requires i < j < |s|
    ensures InTurn(s, [s[i]], [s[j]])
  {
    assert s == s[..i] + [s[i]] + s[i + 1..j] + [s[j]] + s[j + 1..];
    assert Stretch(s, s[..i], [s[i]], s[i + 1..j], [s[j]], s[j + 1..]);
  }

  lemma {:induction false} DrainedOne<T>(w: Wheel<T>, now: nat, k: nat, p: Site) returns (a: seq<Timer<T>>, b: seq<Timer<T>>)
    requires Shaped(w) && w.now <= now && Passed(w, now, p) && p.level < k <= |w.rings|
    ensures DrainedUpTo(w, now, k) == a + [At(w, p)] + b
    decreases k
  {
    hide RingDrain;
    var before, last := DrainedUpTo(w, now, k - 1), RingDrain(w, now, k - 1).1;
    if p.level == k - 1 {
      a, b := RingOne(w, now, p);
      assert before + (a + [At(w, p)] + b) == (before + a) + [At(w, p)] + b;
      a := before + a;
    } else {
      a, b := DrainedOne(w, now, k - 1, p);
      assert (a + [At(w, p)] + b) + last == a + [At(w, p)] + (b + last);
      b := b + last;
    }
  }

  lemma {:induction false} DrainedInTurn<T(!new)>(w: Wheel<T>, now: nat, k: nat, p: Site, q: Site)
    requires Shaped(w) && w.now <= now && Passed(w, now, p) && Passed(w, now, q) && Before(w, now, p, q)
    requires q.level < k <= |w.rings|
    ensures InTurn(DrainedUpTo(w, now, k), [At(w, p)], [At(w, q)])
    decreases k
  {
    hide RingDrain, InTurn, TurnOf;
    var before, last := DrainedUpTo(w, now, k - 1), RingDrain(w, now, k - 1).1;
    if q.level < k - 1 {
      DrainedInTurn(w, now, k - 1, p, q);
      InTurnWithin([], before, last, [At(w, p)], [At(w, q)]);
      assert [] + before + last == before + last;
    } else if p.level == q.level {
      RingInTurn(w, now, p, q);
      InTurnWithin(before, last, [], [At(w, p)], [At(w, q)]);
      assert before + last + [] == before + last;
    } else {
      var a, b := DrainedOne(w, now, k - 1, p);
      var c, d := RingOne(w, now, q);
      InTurnAcross(a, [At(w, p)], b, c, [At(w, q)], d);
    }
  }

  /** The order of firing: of two due timers that an advance takes out, the one at the earlier place fires
      first. */
  lemma FiresInOrder<T(!new)>(w: Wheel<T>, now: nat, p: Site, q: Site)
    requires Shaped(w) && w.now < now && Passed(w, now, p) && Passed(w, now, q) && Before(w, now, p, q)
    requires At(w, p).expireAt as nat <= now && At(w, q).expireAt as nat <= now
    ensures InTurn(Advance(w, now).1, [At(w, p)], [At(w, q)])
  {
    hide InTurn, DrainedUpTo, ReplaceUpTo, Drained, TurnOf;
    var ts := DrainedUpTo(w, now, |w.rings|);
    DrainedInTurn(w, now, |w.rings|, p, q);
    DueInTurn(ts, now, At(w, p), At(w, q));
  }
}
