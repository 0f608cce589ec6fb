/** How timers descend the hierarchy: every hand-over that does not fire a timer brings it
    closer to the bottom, so the hand-overs of each timer are bounded by where it is stored. */
module WheelCascade {
  import opened Machine
  import opened WheelModel
  import opened WheelInvariant

  /** How often a timer waiting in bucket `v` of level `l` can still be handed over: once for
      each level down to the bottom, plus once for each rotation it is parked. */
  function Rank<T>(tick: nat, l: nat, v: nat, t: Timer<T>): nat
    requires tick > 0
  {
    var own := Vid(tick, l, t.expireAt as nat);
    if own <= v then l + 1 else 7 + (own - v) / 64
  }

  /** The rank a timer gets when placed at `now`. */
  function HomeRank<T>(tick: nat, now: nat, t: Timer<T>): nat
    requires tick > 0
  {
    var s := Home(tick, now, t.expireAt as nat, 0);
    Rank(tick, s.level, s.vid, t)
  }

  lemma {:induction false} HomeNotAbove(tick: nat, now: nat, d: nat, l: nat, k: nat)
    requires tick > 0 && l <= k < 6 && !TooFar(tick, now, k, d)
    ensures Home(tick, now, d, l).level <= k && Home(tick, now, d, l).vid == Vid(tick, Home(tick, now, d, l).level, d)
    decreases k - l
  {
    if TooFar(tick, now, l, d) {
      HomeNotAbove(tick, now, d, l + 1, k);
    }
  }

  /** An unparked timer drained from level `l` before its deadline goes to a strictly lower
      level; level 0 never hands over anything that is not due. */
  lemma CascadeDescends<T>(tick: nat, l: nat, t: Timer<T>, now: nat)
    requires tick > 0 && l < 6 && now < t.expireAt as nat
    requires Vid(tick, l, t.expireAt as nat) < Cursor(tick, now, l)
    ensures l > 0
    ensures var s := Home(tick, now, t.expireAt as nat, 0);
            s.level < l && s.vid == Vid(tick, s.level, t.expireAt as nat)
  {
    var d := t.expireAt as nat;
    VidMono(tick, l, now, d);
    if l > 0 {
      VidUp(tick, l - 1, d);
      VidUp(tick, l - 1, now);
      HomeNotAbove(tick, now, d, 0, l - 1);
    }
  }

  /** Being handed over without firing costs a timer at least one rank. */
  lemma RankDescends<T>(tick: nat, l: nat, v: nat, t: Timer<T>, now: nat)
    requires tick > 0 && l < 6 && now < t.expireAt as nat
    requires Placed(tick, l, v, t) && v < Cursor(tick, now, l)
    ensures HomeRank(tick, now, t) < Rank(tick, l, v, t)
  {
    var d := t.expireAt as nat;
    if v == Vid(tick, l, d) {
      CascadeDescends(tick, l, t, now);
    } else {
      HomeIsRanked(tick, now, t);
      PlacementIsSound(tick, now, d);
    }
  }

  /** A parked timer parks again at least a rotation further on, or fits. */
  lemma HomeIsRanked<T>(tick: nat, now: nat, t: Timer<T>)
    requires tick > 0 && now < t.expireAt as nat
    ensures var d := t.expireAt as nat; var s := Home(tick, now, d, 0);
            if s.vid == Vid(tick, s.level, d) then HomeRank(tick, now, t) == s.level + 1 <= 6
            else s.level == 5 && s.vid == Vid(tick, 5, now) + 64 && s.vid < Vid(tick, 5, d)
  {
    var d := t.expireAt as nat;
    PlacementIsSound(tick, now, d);
    var s := Home(tick, now, d, 0);
    HomeAt(tick, now, d, 0, s.level);
  }

  /** A choice of timers to follow; the hand-overs of a single timer are followed with `Only`. */
  type Choice<!T> = Timer<T> -> bool

  ghost function Only<T>(x: Timer<T>): Choice<T> {
    t => t == x
  }

  ghost function Every<T>(): Choice<T> {
    t => true
  }

  /** The weight that counts the chosen timers. */
  ghost function Pick<T>(p: Choice<T>): Timer<T> -> nat {
    t => if p(t) then 1 else 0
  }

  ghost function RankOf<T>(tick: nat, l: nat, v: nat, p: Choice<T>): Timer<T> -> nat
    requires tick > 0
  {
    t => if p(t) then Rank(tick, l, v, t) else 0
  }

  ghost function RankIf<T>(p: Choice<T>, t: Timer<T>, rank: nat): nat {
    if p(t) then rank else 0
  }

  /** The ranks of the chosen timers in the first `k` buckets of level `l`. */
  ghost function RingRank<T>(tick: nat, l: nat, c: nat, ring: Ring<T>, k: nat, p: Choice<T>): nat
    requires tick > 0 && k <= |ring| == 64
  {
    if k == 0 then 0 else RingRank(tick, l, c, ring, k - 1, p) + Sum(ring[k - 1], RankOf(tick, l, WindowId(c, k - 1), p))
  }

  ghost function RanksUpTo<T>(w: Wheel<T>, k: nat, p: Choice<T>): nat
    requires Shaped(w) && k <= |w.rings|
  {
    if k == 0 then 0
    else RanksUpTo(w, k - 1, p) + RingRank(w.tick, k - 1, Cursor(w.tick, w.now, k - 1), w.rings[k - 1], 64, p)
  }

  /** How many hand-overs the chosen ones among the stored timers can still cause between them. */
  ghost function Potential<T>(w: Wheel<T>, p: Choice<T>): nat
    requires Shaped(w)
  {
    RanksUpTo(w, |w.rings|, p)
  }

  // ---------------------------------------------------------------------------
  // Hand-overs are paid for in rank
  // ---------------------------------------------------------------------------

  /** What handing a chosen timer over at `now` costs at least: one, plus the rank it is left with. */
  ghost function Cost<T>(tick: nat, now: nat, p: Choice<T>): Timer<T> -> nat
    requires tick > 0
  {
    (t: Timer<T>) => if !p(t) then 0 else if t.expireAt as nat <= now then 1 else 1 + HomeRank(tick, now, t)
  }

  lemma {:induction false} BucketPays<T>(tick: nat, l: nat, v: nat, ts: seq<Timer<T>>, now: nat, p: Choice<T>)
    requires tick > 0 && l < 6 && v < Cursor(tick, now, l)
    requires forall t | t in ts :: Placed(tick, l, v, t)
    ensures Sum(ts, Cost(tick, now, p)) <= Sum(ts, RankOf(tick, l, v, p))
    decreases |ts|
  {
    hide Placed, HomeRank;
    if ts != [] {
      var n := |ts| - 1;
      BucketPays(tick, l, v, ts[..n], now, p);
      if now < ts[n].expireAt as nat {
        RankDescends(tick, l, v, ts[n], now);
      }
    }
  }

  lemma {:induction false} RingRankPrefix<T>(tick: nat, l: nat, c: nat, ring: Ring<T>, ring': Ring<T>, k: nat, p: Choice<T>)
    requires tick > 0 && k <= |ring| == |ring'| == 64 && forall i | 0 <= i < k :: ring[i] == ring'[i]
    ensures RingRank(tick, l, c, ring, k, p) == RingRank(tick, l, c, ring', k, p)
    decreases k
  {
    if k > 0 {
      RingRankPrefix(tick, l, c, ring, ring', k - 1, p);
    }
  }

  lemma {:induction false} RingRankUpdate<T>(tick: nat, l: nat, c: nat, ring: Ring<T>, i: nat, s: seq<Timer<T>>, k: nat, p: Choice<T>)
    requires tick > 0 && i < k <= |ring| == 64
    ensures RingRank(tick, l, c, ring[i := s], k, p) + Sum(ring[i], RankOf(tick, l, WindowId(c, i), p))
         == RingRank(tick, l, c, ring, k, p) + Sum(s, RankOf(tick, l, WindowId(c, i), p))
    decreases k
  {
    hide RankOf, WindowId;
    if i == k - 1 {
      RingRankPrefix(tick, l, c, ring, ring[i := s], i, p);
    } else {
      RingRankUpdate(tick, l, c, ring, i, s, k - 1, p);
    }
  }

  /** Ranks do not change with the cursor as long as the window ids do not. */
  lemma {:induction false} RingRankCursor<T>(tick: nat, l: nat, c: nat, c': nat, ring: Ring<T>, k: nat, p: Choice<T>)
    requires tick > 0 && k <= |ring| == 64
    requires forall i | 0 <= i < k && |ring[i]| > 0 :: WindowId(c, i) == WindowId(c', i)
    ensures RingRank(tick, l, c, ring, k, p) == RingRank(tick, l, c', ring, k, p)
    decreases k
  {
    hide RankOf, WindowId;
    if k > 0 {
      RingRankCursor(tick, l, c, c', ring, k - 1, p);
    }
  }

  lemma {:induction false} DrainFromPays<T>(tick: nat, l: nat, c: nat, ring: Ring<T>, lo: nat, hi: nat, now: nat, p: Choice<T>)
    requires tick > 0 && l < 6 && |ring| == 64 && lo <= hi
    requires RingPlaced(tick, l, c, ring)
    requires forall i | 0 <= i < 64 && WindowId(lo, i) < hi :: WindowId(c, i) < Cursor(tick, now, l)
    ensures RingRank(tick, l, c, DrainFrom(ring, lo, hi).0, 64, p) + Sum(DrainFrom(ring, lo, hi).1, Cost(tick, now, p))
         <= RingRank(tick, l, c, ring, 64, p)
    decreases hi - lo
  {
    hide RankOf, Cost, Placed, Cursor;
    if lo < hi {
      var k := lo % 64;
      var ring' := ring[k := []];
      WindowIdUnique(lo, lo);
      forall i | 0 <= i < 64 && WindowId(lo + 1, i) < hi ensures WindowId(c, i) < Cursor(tick, now, l) {
        WindowIdMono(lo, lo + 1, i);
      }
      DrainFromPays(tick, l, c, ring', lo + 1, hi, now, p);
      RingRankUpdate(tick, l, c, ring, k, [], 64, p);
      BucketPays(tick, l, WindowId(c, k), ring[k], now, p);
      SumAppend(ring[k], DrainFrom(ring', lo + 1, hi).1, Cost(tick, now, p));
    }
  }

  lemma DrainRingPays<T>(tick: nat, l: nat, ring: Ring<T>, c: nat, now: nat, p: Choice<T>)
    requires tick > 0 && l < 6 && |ring| == 64 && RingPlaced(tick, l, c, ring) && c <= Cursor(tick, now, l)
    ensures var c' := Cursor(tick, now, l); var r := DrainRing(ring, c, c');
            RingRank(tick, l, c', r.0, 64, p) + Sum(r.1, Cost(tick, now, p)) <= RingRank(tick, l, c, ring, 64, p)
  {
    hide RankOf, Cost, Placed, Cursor, WindowId, RingRank, DrainFrom;
    var c' := Cursor(tick, now, l);
    var ring' := DrainRing(ring, c, c').0;
    if c < c' {
      var lo := DrainStart(c, c');
      forall i | 0 <= i < 64 && WindowId(lo, i) < c' ensures WindowId(c, i) < c' {
        WindowIdMono(c, lo, i);
      }
      DrainFromPays(tick, l, c, ring, lo, c', now, p);
      forall i | 0 <= i < 64 && |ring'[i]| > 0 ensures WindowId(c, i) == WindowId(c', i) {
        DrainRingBucket(ring, c, c', i);
      }
      RingRankCursor(tick, l, c, c', ring', 64, p);
    }
  }

  lemma {:induction false} DrainedPays<T>(w: Wheel<T>, now: nat, k: nat, p: Choice<T>)
    requires Inv(w) && w.now <= now && k <= |w.rings|
    ensures RanksUpTo(Drained(w, now), k, p) + Sum(DrainedUpTo(w, now, k), Cost(w.tick, now, p)) <= RanksUpTo(w, k, p)
    decreases k
  {
    hide Cost, Cursor, DrainRing;
    if k > 0 {
      DrainedPays(w, now, k - 1, p);
      CursorMono(w.tick, k - 1, w.now, now);
      DrainRingPays(w.tick, k - 1, w.rings[k - 1], Cursor(w.tick, w.now, k - 1), now, p);
      SumAppend(DrainedUpTo(w, now, k - 1), RingDrain(w, now, k - 1).1, Cost(w.tick, now, p));
    }
  }

  lemma {:induction false} RanksPrefix<T>(w: Wheel<T>, w': Wheel<T>, k: nat, p: Choice<T>)
    requires Shaped(w) && Shaped(w') && w.tick == w'.tick && w.now == w'.now
    requires k <= |w.rings| && k <= |w'.rings| && forall l | 0 <= l < k :: w.rings[l] == w'.rings[l]
    ensures RanksUpTo(w, k, p) == RanksUpTo(w', k, p)
    decreases k
  {
    hide RingRank, Cursor;
    if k > 0 {
      RanksPrefix(w, w', k - 1, p);
    }
  }

  lemma {:induction false} EmptyRingRank<T>(tick: nat, l: nat, c: nat, ring: Ring<T>, k: nat, p: Choice<T>)
    requires tick > 0 && k <= |ring| == 64 && forall i | 0 <= i < k :: |ring[i]| == 0
    ensures RingRank(tick, l, c, ring, k, p) == 0
    decreases k
  {
    if k > 0 {
      EmptyRingRank(tick, l, c, ring, k - 1, p);
    }
  }

  lemma {:induction false} GrownRanks<T>(w: Wheel<T>, w': Wheel<T>, n: nat, k: nat, p: Choice<T>)
    requires Shaped(w) && Shaped(w') && w' == w.(rings := Grown(w.rings, n)) && |w.rings| <= k <= |w'.rings|
    ensures RanksUpTo(w', k, p) == Potential(w, p)
    decreases k
  {
    hide RingRank, Cursor, EmptyRing;
    if k == |w.rings| {
      RanksPrefix(w', w, k, p);
    } else {
      GrownRanks(w, w', n, k - 1, p);
      EmptyRingRank(w.tick, k - 1, Cursor(w.tick, w.now, k - 1), w'.rings[k - 1], 64, p);
    }
  }

  lemma {:induction false} RanksUpdate<T>(w: Wheel<T>, w': Wheel<T>, l: nat, k: nat, p: Choice<T>)
    requires Shaped(w) && Shaped(w') && l < k <= |w.rings| == |w'.rings|
    requires w' == w.(rings := w.rings[l := w'.rings[l]])
    ensures RanksUpTo(w', k, p) + RingRank(w.tick, l, Cursor(w.tick, w.now, l), w.rings[l], 64, p)
         == RanksUpTo(w, k, p) + RingRank(w.tick, l, Cursor(w.tick, w.now, l), w'.rings[l], 64, p)
    decreases k
  {
    hide RingRank, Cursor;
    if l == k - 1 {
      RanksPrefix(w, w', l, p);
    } else {
      RanksUpdate(w, w', l, k - 1, p);
    }
  }

  /** Placing a timer adds its rank. */
  lemma PlaceRanks<T>(w: Wheel<T>, t: Timer<T>, p: Choice<T>)
    requires Shaped(w) && w.now < t.expireAt as nat
    ensures Potential(Place(w, t), p) == Potential(w, p) + RankIf(p, t, HomeRank(w.tick, w.now, t))
  {
    hide RingRank, Cursor, Vid, RankOf, Home, Grown;
    var d := t.expireAt as nat;
    PlacementIsSound(w.tick, w.now, d);
    var s := Home(w.tick, w.now, d, 0);
    var grown := w.(rings := Grown(w.rings, s.level + 1));
    var w' := Place(w, t);
    GrownRanks(w, grown, s.level + 1, |grown.rings|, p);
    RanksUpdate(grown, w', s.level, |grown.rings|, p);
    PushRanks(w.tick, s.level, Cursor(w.tick, w.now, s.level), grown.rings[s.level], s.vid, t, p);
  }

  lemma PushRanks<T>(tick: nat, l: nat, c: nat, ring: Ring<T>, v: nat, t: Timer<T>, p: Choice<T>)
    requires tick > 0 && |ring| == 64 && c <= v < c + 64
    ensures RingRank(tick, l, c, Push(ring, v, t), 64, p) == RingRank(tick, l, c, ring, 64, p) + RankIf(p, t, Rank(tick, l, v, t))
  {
    hide Rank;
    var i := v % 64;
    WindowIdUnique(c, v);
    RingRankUpdate(tick, l, c, ring, i, ring[i] + [t], 64, p);
    SumPush(ring[i], t, RankOf(tick, l, v, p));
  }

  lemma {:induction false} ReplaceRanks<T>(w: Wheel<T>, ts: seq<Timer<T>>, k: nat, p: Choice<T>)
    requires Shaped(w) && k <= |ts|
    ensures Potential(ReplaceUpTo(w, ts, k), p) + Sum(ts[..k], Pick(p)) == Potential(w, p) + Sum(ts[..k], Cost(w.tick, w.now, p))
    decreases k
  {
    hide HomeRank, Place, RanksUpTo;
    if k == 0 {
      assert ts[..0] == [];
    } else {
      ReplaceRanks(w, ts, k - 1, p);
      assert ts[..k] == ts[..k - 1] + [ts[k - 1]];
      SumPush(ts[..k - 1], ts[k - 1], Cost(w.tick, w.now, p));
      SumPush(ts[..k - 1], ts[k - 1], Pick(p));
      if w.now < ts[k - 1].expireAt as nat {
        PlaceRanks(ReplaceUpTo(w, ts, k - 1), ts[k - 1], p);
      }
    }
  }

  /** The timers an advance takes out of their buckets, to fire or to place again. */
  function HandOvers<T>(w: Wheel<T>, now: nat): seq<Timer<T>>
    requires Shaped(w)
  {
    if now <= w.now then [] else DrainedUpTo(w, now, |w.rings|)
  }

  /** Every hand-over of a chosen timer lowers their potential, whatever else the wheel holds. */
  lemma AdvancePays<T>(w: Wheel<T>, now: nat, p: Choice<T>)
    requires Inv(w)
    ensures Potential(Advance(w, now).0, p) + Sum(HandOvers(w, now), Pick(p)) <= Potential(w, p)
  {
    hide Cost, RanksUpTo, ReplaceUpTo, DueUpTo, Drained, DrainedUpTo;
    if w.now < now {
      var ts := DrainedUpTo(w, now, |w.rings|);
      DrainedPays(w, now, |w.rings|, p);
      ReplaceRanks(Drained(w, now), ts, |ts|, p);
      assert ts[..|ts|] == ts;
    }
  }

  // ---------------------------------------------------------------------------
  // The rank of a single timer
  // ---------------------------------------------------------------------------

  lemma {:induction false} OnlyRank<T>(tick: nat, l: nat, v: nat, ts: seq<Timer<T>>, x: Timer<T>)
    requires tick > 0
    ensures Sum(ts, RankOf(tick, l, v, Only(x))) == Times(Sum(ts, Pick(Only(x))), Rank(tick, l, v, x))
  {
    hide Rank;
    if ts != [] {
      var n := |ts| - 1;
      OnlyRank(tick, l, v, ts[..n], x);
      if ts[n] == x {
        assert Sum(ts, Pick(Only(x))) == Sum(ts[..n], Pick(Only(x))) + 1;
      }
    }
  }

  lemma {:induction false} UnchosenRing<T>(tick: nat, l: nat, c: nat, ring: Ring<T>, k: nat, x: Timer<T>)
    requires tick > 0 && k <= |ring| == 64 && RingSum(ring, Pick(Only(x)), k) == 0
    ensures RingRank(tick, l, c, ring, k, Only(x)) == 0
    decreases k
  {
    hide RankOf, Pick, Only, WindowId;
    if k > 0 {
      UnchosenRing(tick, l, c, ring, k - 1, x);
      OnlyRank(tick, l, WindowId(c, k - 1), ring[k - 1], x);
    }
  }

  lemma {:induction false} UnchosenRings<T>(w: Wheel<T>, k: nat, x: Timer<T>)
    requires Shaped(w) && k <= |w.rings| && RingsSum(w.rings, Pick(Only(x)), k) == 0
    ensures RanksUpTo(w, k, Only(x)) == 0
    decreases k
  {
    hide Pick, Only, Cursor, RingRank, RingSum;
    if k > 0 {
      UnchosenRings(w, k - 1, x);
      UnchosenRing(w.tick, k - 1, Cursor(w.tick, w.now, k - 1), w.rings[k - 1], 64, x);
    }
  }

  lemma MemberWeighs<T>(ts: seq<Timer<T>>, x: Timer<T>)
    requires x in ts
    ensures Sum(ts, Pick(Only(x))) >= 1
  {
    ZeroSum(ts, Pick(Only(x)));
    assert Pick(Only(x))(x) == 1;
  }

  /** The potential of a timer stored once is its rank where it is stored. */
  lemma SoleRank<T>(w: Wheel<T>, l: nat, i: nat, x: Timer<T>)
    requires Shaped(w) && l < |w.rings| && i < 64 && x in w.rings[l][i] && Weigh(w, Pick(Only(x))) == 1
    ensures Potential(w, Only(x)) == Rank(w.tick, l, WindowId(Cursor(w.tick, w.now, l), i), x)
  {
    hide RingRank, RanksUpTo, RankOf, Pick, Only, Cursor, WindowId, Rank, RingSum, RingsSum;
    var c, f := Cursor(w.tick, w.now, l), Pick(Only(x));
    var ring, bucket := w.rings[l], w.rings[l][i];
    var w' := w.(rings := w.rings[l := ring[i := []]]);
    MemberWeighs(bucket, x);
    RingSumUpdate(ring, i, [], f, 64);
    RingsSumUpdate(w.rings, l, ring[i := []], f, |w.rings|);
    UnchosenRings(w', |w.rings|, x);
    RingRankUpdate(w.tick, l, c, ring, i, [], 64, Only(x));
    RanksUpdate(w, w', l, |w.rings|, Only(x));
    OnlyRank(w.tick, l, WindowId(c, i), bucket, x);
  }
}
