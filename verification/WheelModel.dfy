/** The hierarchical timing wheel as a value: what each operation of
    `hierarchical_wheel.rs` does to the buckets. The classes of module
    `HierarchicalWheel` are proved to compute exactly these functions. */
module WheelModel {
  import opened Machine

  /** Buckets per level, and the width of an occupancy mask. */
  const WHEEL_SIZE: nat := 64

  const MAX_LEVELS: nat := 6

  datatype Timer<+T> = Timer(value: T, expireAt: u64)

  /** The 64 buckets of one level. */
  type Ring<+T> = seq<seq<Timer<T>>>

  datatype Wheel<+T> = Wheel(tick: nat, now: nat, rings: seq<Ring<T>>)

  // ---------------------------------------------------------------------------
  // Division
  // ---------------------------------------------------------------------------

  /** `x / a`, as repeated subtraction: the proofs then need no non-linear arithmetic. */
  function Quotient(x: nat, a: nat): nat
    requires a > 0
  {
    if x < a then 0 else 1 + Quotient(x - a, a)
  }

  /** `x * a`, as repeated addition. */
  function Times(x: nat, a: nat): nat {
    if x == 0 then 0 else Times(x - 1, a) + a
  }

  lemma {:induction false} TimesIsProduct(x: nat, a: nat)
    ensures Times(x, a) == x * a
  {
    if x > 0 {
      TimesIsProduct(x - 1, a);
      assert x * a == (x - 1) * a + a;
    }
  }

  lemma QuotientIsDivision(x: nat, a: nat)
    requires a > 0
    ensures Quotient(x, a) == x / a
  {
    hide Quotient, Times;
    QuotientBounds(x, a);
    TimesIsProduct(Quotient(x, a), a);
    TimesIsProduct(Quotient(x, a) + 1, a);
    DivisionUnique(x, a, Quotient(x, a));
  }

  lemma DivisionUnique(x: nat, a: nat, q: nat)
    requires a > 0 && q * a <= x < (q + 1) * a
    ensures x / a == q
  {
    var p := x / a;
    if p < q {
      ProductMono(p + 1, q, a);
    } else if q < p {
      ProductMono(q + 1, p, a);
    }
  }

  lemma ProductMono(x: nat, y: nat, a: nat)
    requires x <= y
    ensures x * a <= y * a
  {
  }

  lemma {:induction false} TimesMono(x: nat, y: nat, a: nat)
    requires x <= y
    ensures Times(x, a) <= Times(y, a)
  {
    if x < y {
      TimesMono(x, y - 1, a);
    }
  }

  lemma {:induction false} TimesAdd(x: nat, y: nat, a: nat)
    ensures Times(x + y, a) == Times(x, a) + Times(y, a)
    decreases y
  {
    if y > 0 {
      TimesAdd(x, y - 1, a);
      assert x + y - 1 == x + (y - 1);
    }
  }

  lemma {:induction false} QuotientBounds(x: nat, a: nat)
    requires a > 0
    ensures Times(Quotient(x, a), a) <= x < Times(Quotient(x, a) + 1, a)
  {
    if x >= a {
      QuotientBounds(x - a, a);
    }
  }

  lemma QuotientUnique(x: nat, a: nat, q: nat)
    requires a > 0 && Times(q, a) <= x < Times(q + 1, a)
    ensures Quotient(x, a) == q
  {
    hide Quotient, Times;
    QuotientBounds(x, a);
    var p := Quotient(x, a);
    if p < q {
      TimesMono(p + 1, q, a);
    } else if q < p {
      TimesMono(q + 1, p, a);
    }
  }

  lemma {:induction false} QuotientSmall(x: nat, a: nat)
    requires a > 0
    ensures Quotient(x, a) <= x
    ensures a >= 2 ==> 2 * Quotient(x, a) <= x
    ensures a >= 64 ==> 64 * Quotient(x, a) <= x
  {
    if x >= a {
      QuotientSmall(x - a, a);
    }
  }

  lemma {:induction false} FactorBounds(x: nat, a: nat)
    requires a > 0
    ensures x <= Times(x, a)
  {
    if x > 0 {
      FactorBounds(x - 1, a);
    }
  }

  lemma QuotientMono(x: nat, y: nat, a: nat)
    requires a > 0 && x <= y
    ensures Quotient(x, a) <= Quotient(y, a)
  {
    hide Quotient, Times;
    QuotientBounds(x, a);
    QuotientBounds(y, a);
    if Quotient(y, a) < Quotient(x, a) {
      TimesMono(Quotient(y, a) + 1, Quotient(x, a), a);
    }
  }

  lemma {:induction false} TimesOf64(p: nat, a: nat)
    ensures Times(64 * p, a) == Times(p, 64 * a)
  {
    if p > 0 {
      TimesOf64(p - 1, a);
      TimesAdd(64 * (p - 1), 64, a);
      TimesIsProduct(64, a);
    }
  }

  lemma QuotientOf64(x: nat, a: nat)
    requires a > 0
    ensures Quotient(x, 64 * a) == Quotient(x, a) / 64
  {
    hide Quotient, Times;
    var q := Quotient(x, a);
    var p := q / 64;
    QuotientBounds(x, a);
    TimesMono(64 * p, q, a);
    TimesMono(q + 1, 64 * (p + 1), a);
    TimesOf64(p, a);
    TimesOf64(p + 1, a);
    QuotientUnique(x, 64 * a, p);
  }

  // ---------------------------------------------------------------------------
  // Levels, window ids and cursors
  // ---------------------------------------------------------------------------

  /** Milliseconds one bucket of level `l` covers: `tick * 64^l`. */
  function TickAt(tick: nat, l: nat): (t: nat)
    ensures tick <= t
  {
    if l == 0 then tick else 64 * TickAt(tick, l - 1)
  }

  lemma TickAtLeast64(tick: nat, l: nat)
    requires tick > 0 && l > 0
    ensures TickAt(tick, l) >= 64
  {
  }

  lemma {:induction false} TickGrows(tick: nat, k: nat, l: nat)
    requires tick > 0 && k <= l
    ensures TickAt(tick, k) <= TickAt(tick, l)
    decreases l
  {
    if k < l {
      TickGrows(tick, k, l - 1);
    }
  }

  /** Level 0 flushes a bucket at its end, the levels above at its start. */
  function Lag(l: nat): nat {
    if l == 0 then 1 else 0
  }

  /** The window id of instant `at` at level `l`. */
  function Vid(tick: nat, l: nat, at: nat): nat
    requires tick > 0
  {
    Quotient(at, TickAt(tick, l))
  }

  /** First window id of level `l` not yet drained when the clock reads `now`. */
  function Cursor(tick: nat, now: nat, l: nat): nat
    requires tick > 0
  {
    Vid(tick, l, now) + (1 - Lag(l))
  }

  /** The window id that bucket `i` stands for: the one in `[c, c + 64)`. */
  function WindowId(c: nat, i: nat): (v: nat)
    requires i < 64
    ensures c <= v < c + 64 && v % 64 == i
  {
    c + (i - c) % 64
  }

  lemma WindowIdUnique(c: nat, v: nat)
    requires c <= v < c + 64
    ensures WindowId(c, v % 64) == v
  {
  }

  lemma VidMono(tick: nat, l: nat, x: nat, y: nat)
    requires tick > 0 && x <= y
    ensures Vid(tick, l, x) <= Vid(tick, l, y)
  {
    QuotientMono(x, y, TickAt(tick, l));
  }

  lemma VidUp(tick: nat, l: nat, x: nat)
    requires tick > 0
    ensures Vid(tick, l + 1, x) == Vid(tick, l, x) / 64
  {
    QuotientOf64(x, TickAt(tick, l));
  }

  lemma VidBounds(tick: nat, l: nat, x: nat)
    requires tick > 0
    ensures Times(Vid(tick, l, x), TickAt(tick, l)) <= x < Times(Vid(tick, l, x) + 1, TickAt(tick, l))
  {
    QuotientBounds(x, TickAt(tick, l));
  }

  lemma CursorMono(tick: nat, l: nat, x: nat, y: nat)
    requires tick > 0 && x <= y
    ensures Cursor(tick, x, l) <= Cursor(tick, y, l)
  {
    VidMono(tick, l, x, y);
  }

  // ---------------------------------------------------------------------------
  // Buckets
  // ---------------------------------------------------------------------------

  function EmptyRing<T>(): (r: Ring<T>)
    ensures |r| == 64 && forall i | 0 <= i < 64 :: r[i] == []
  {
    seq(64, _ => [])
  }

  function Push<T>(ring: Ring<T>, v: nat, t: Timer<T>): (r: Ring<T>)
    requires |ring| == 64
    ensures |r| == 64
  {
    ring[v % 64 := ring[v % 64] + [t]]
  }

  /** Empty the buckets of window ids `lo` up to `hi` in that order, collecting their timers. */
  function DrainFrom<T>(ring: Ring<T>, lo: nat, hi: nat): (r: (Ring<T>, seq<Timer<T>>))
    requires |ring| == 64 && lo <= hi
    ensures |r.0| == 64
    decreases hi - lo
  {
    if lo == hi then (ring, [])
    else
      var (rest, out) := DrainFrom(ring[lo % 64 := []], lo + 1, hi);
      (rest, ring[lo % 64] + out)
  }

  /** Where a drain from cursor `c` to limit `c'` starts: one rotation covers any longer jump. */
  function DrainStart(c: nat, c': nat): (lo: nat)
    ensures c <= c' ==> c <= lo <= c'
  {
    if c' - c < 64 then c else c' - 64
  }

  /** `Level::drain_due`: move the cursor from `c` to `c'`. */
  function DrainRing<T>(ring: Ring<T>, c: nat, c': nat): (r: (Ring<T>, seq<Timer<T>>))
    requires |ring| == 64
    ensures |r.0| == 64
  {
    if c' <= c then (ring, []) else DrainFrom(ring, DrainStart(c, c'), c')
  }

  // ---------------------------------------------------------------------------
  // Weighing what is stored
  // ---------------------------------------------------------------------------

  /** The sum of `f` over a sequence of timers. With a constant `f` this counts them; with
      `f` the indicator of one timer it counts its copies. */
  ghost function Sum<T>(ts: seq<Timer<T>>, f: Timer<T> -> nat): nat {
    if ts == [] then 0 else Sum(ts[..|ts| - 1], f) + f(ts[|ts| - 1])
  }

  /** The sum of `f` over the first `k` buckets of a level. */
  ghost function RingSum<T>(ring: Ring<T>, f: Timer<T> -> nat, k: nat): nat
    requires k <= |ring|
  {
    if k == 0 then 0 else RingSum(ring, f, k - 1) + Sum(ring[k - 1], f)
  }

  /** The sum of `f` over the first `k` levels. */
  ghost function RingsSum<T>(rings: seq<Ring<T>>, f: Timer<T> -> nat, k: nat): nat
    requires k <= |rings|
  {
    if k == 0 then 0 else RingsSum(rings, f, k - 1) + RingSum(rings[k - 1], f, |rings[k - 1]|)
  }

  /** The sum of `f` over every stored timer. */
  ghost function Weigh<T>(w: Wheel<T>, f: Timer<T> -> nat): nat {
    RingsSum(w.rings, f, |w.rings|)
  }

  ghost function One<T>(): Timer<T> -> nat {
    t => 1
  }

  /** How many timers the wheel stores. */
  ghost function Count<T>(w: Wheel<T>): nat {
    Weigh(w, One())
  }

  /** Some bucket holds `t`. */
  ghost predicate Holds<T>(w: Wheel<T>, t: Timer<T>) {
    exists l, i :: 0 <= l < |w.rings| && 0 <= i < |w.rings[l]| && t in w.rings[l][i]
  }

  // ---------------------------------------------------------------------------
  // Placement
  // ---------------------------------------------------------------------------

  datatype Spot = Spot(level: nat, vid: nat)

  /** The window of level `l` does not reach as far as `d`. */
  predicate TooFar(tick: nat, now: nat, l: nat, d: nat)
    requires tick > 0
  {
    Vid(tick, l, d) >= Cursor(tick, now, l) + 64
  }

  /** None of the first `n` levels reaches as far as `d`. */
  ghost predicate FallShort(tick: nat, now: nat, d: nat, n: nat)
    requires tick > 0
  {
    forall k | 0 <= k < n :: TooFar(tick, now, k, d)
  }

  /** Where a timer due at `d` belongs: the finest level from `l` up whose window reaches `d`,
      or, past the top, the furthest bucket of level 5. Nothing but the clock decides it. */
  function Home(tick: nat, now: nat, d: nat, l: nat): Spot
    requires tick > 0 && l < 6
    decreases 6 - l, d
  {
    if !TooFar(tick, now, l, d) then Spot(l, Vid(tick, l, d))
    else if l == 5 then Spot(5, Cursor(tick, now, 5) + 63)
    else Home(tick, now, d, l + 1)
  }

  function Grown<T>(rings: seq<Ring<T>>, n: nat): (r: seq<Ring<T>>)
    ensures rings <= r && |r| == if |rings| < n then n else |rings|
    ensures forall l | |rings| <= l < |r| :: r[l] == EmptyRing()
  {
    if |rings| < n then rings + seq(n - |rings|, _ => EmptyRing()) else rings
  }

  lemma GrownOne<T>(rings: seq<Ring<T>>, n: nat)
    requires |rings| <= n
    ensures Grown(rings, n) + [EmptyRing()] == Grown(rings, n + 1)
  {
  }

  /** `HierarchicalTimingWheel::place`. */
  function Place<T>(w: Wheel<T>, t: Timer<T>): (r: Wheel<T>)
    requires Shaped(w)
    ensures Shaped(r) && r.tick == w.tick && r.now == w.now
  {
    var s := Home(w.tick, w.now, t.expireAt as nat, 0);
    HomeLevel(w.tick, w.now, t.expireAt as nat, 0);
    var rings := Grown(w.rings, s.level + 1);
    w.(rings := rings[s.level := Push(rings[s.level], s.vid, t)])
  }

  lemma GrownEnough<T>(rings: seq<Ring<T>>, n: nat)
    requires n <= |rings|
    ensures Grown(rings, n) == rings
  {
  }

  lemma PlaceIs<T>(w: Wheel<T>, t: Timer<T>, rings: seq<Ring<T>>, l: nat, v: nat)
    requires Shaped(w) && l < |rings| && rings == Grown(w.rings, l + 1) && |rings[l]| == 64
    requires Home(w.tick, w.now, t.expireAt as nat, 0) == Spot(l, v)
    ensures Place(w, t) == Wheel(w.tick, w.now, rings[l := Push(rings[l], v, t)])
  {
  }

  lemma {:induction false} HomeLevel(tick: nat, now: nat, d: nat, l: nat)
    requires tick > 0 && l < 6
    ensures l <= Home(tick, now, d, l).level < 6
    decreases 6 - l, d
  {
    if TooFar(tick, now, l, d) && l < 5 {
      HomeLevel(tick, now, d, l + 1);
    }
  }

  /** The shape every wheel has: a positive tick and one to six levels of 64 buckets. */
  predicate Shaped<T>(w: Wheel<T>) {
    w.tick > 0 && 1 <= |w.rings| <= 6 && forall l | 0 <= l < |w.rings| :: |w.rings[l]| == 64
  }

  // ---------------------------------------------------------------------------
  // Operations
  // ---------------------------------------------------------------------------

  function New<T>(tick: nat, start: nat): Wheel<T> {
    Wheel(tick, start, [EmptyRing()])
  }

  datatype Insert = Scheduled | Elapsed

  function InsertTimer<T>(w: Wheel<T>, t: Timer<T>): (Wheel<T>, Insert)
    requires Shaped(w)
  {
    if t.expireAt as nat <= w.now then (w, Elapsed) else (Place(w, t), Scheduled)
  }

  function Clear<T>(w: Wheel<T>): Wheel<T> {
    w.(rings := seq(|w.rings|, _ => EmptyRing()))
  }

  function RingDrain<T>(w: Wheel<T>, now: nat, l: nat): (r: (Ring<T>, seq<Timer<T>>))
    requires Shaped(w) && l < |w.rings|
    ensures |r.0| == 64
  {
    DrainRing(w.rings[l], Cursor(w.tick, w.now, l), Cursor(w.tick, now, l))
  }

  /** What the first `k` levels hand over when the clock moves to `now`. */
  function DrainedUpTo<T>(w: Wheel<T>, now: nat, k: nat): seq<Timer<T>>
    requires Shaped(w) && k <= |w.rings|
  {
    if k == 0 then [] else DrainedUpTo(w, now, k - 1) + RingDrain(w, now, k - 1).1
  }

  /** Every cursor moved to `now`, nothing re-placed yet. */
  function Drained<T>(w: Wheel<T>, now: nat): (r: Wheel<T>)
    requires Shaped(w)
    ensures Shaped(r) && r.tick == w.tick && r.now == now && |r.rings| == |w.rings|
  {
    Wheel(w.tick, now, seq(|w.rings|, l requires 0 <= l < |w.rings| => RingDrain(w, now, l).0))
  }

  /** The ones among the first `k` drained timers that are due, in order: these fire. */
  function DueUpTo<T>(ts: seq<Timer<T>>, now: nat, k: nat): seq<Timer<T>>
    requires k <= |ts|
  {
    if k == 0 then []
    else if ts[k - 1].expireAt as nat <= now then DueUpTo(ts, now, k - 1) + [ts[k - 1]]
    else DueUpTo(ts, now, k - 1)
  }

  /** The others are placed again, against the moved clock. */
  function ReplaceUpTo<T>(w: Wheel<T>, ts: seq<Timer<T>>, k: nat): (r: Wheel<T>)
    requires Shaped(w) && k <= |ts|
    ensures Shaped(r) && r.tick == w.tick && r.now == w.now
  {
    if k == 0 then w
    else if ts[k - 1].expireAt as nat <= w.now then ReplaceUpTo(w, ts, k - 1)
    else Place(ReplaceUpTo(w, ts, k - 1), ts[k - 1])
  }

  /** `HierarchicalTimingWheel::advance_to`: the new wheel and the timers fired, in order. */
  function Advance<T>(w: Wheel<T>, now: nat): (r: (Wheel<T>, seq<Timer<T>>))
    requires Shaped(w)
    ensures Shaped(r.0) && r.0.tick == w.tick
  {
    if now <= w.now then (w, [])
    else
      var ts := DrainedUpTo(w, now, |w.rings|);
      (ReplaceUpTo(Drained(w, now), ts, |ts|), DueUpTo(ts, now, |ts|))
  }

  // ---------------------------------------------------------------------------
  // The next wake
  // ---------------------------------------------------------------------------

  /** The bucket `k` places past cursor `c`. */
  function Slot(c: nat, k: nat): (i: nat)
    ensures i < 64
  {
    (c + k) % 64
  }

  /** Linear search for the nearest non-empty bucket at distance `k` or more from cursor `c`;
      64 when there is none. */
  function Ahead<T>(ring: Ring<T>, c: nat, k: nat): (j: nat)
    requires |ring| == 64 && k <= 64
    ensures k <= j <= 64
    ensures j < 64 ==> |ring[Slot(c, j)]| > 0
    ensures forall i | k <= i < j :: |ring[Slot(c, i)]| == 0
    decreases 64 - k, c
  {
    if k == 64 then 64
    else if |ring[Slot(c, k)]| > 0 then k
    else Ahead(ring, c, k + 1)
  }

  /** When bucket `v` of level `l` is handed over. */
  function DueAt(tick: nat, l: nat, v: nat): nat {
    Times(v + Lag(l), TickAt(tick, l))
  }

  /** When level `l` next has something to hand over. */
  function RingDue<T>(tick: nat, l: nat, c: nat, ring: Ring<T>): Option<nat>
    requires |ring| == 64
  {
    var j := Ahead(ring, c, 0);
    if j == 64 then None else Some(DueAt(tick, l, c + j))
  }

  function Earlier(a: Option<nat>, b: Option<nat>): Option<nat> {
    if a.None? then b else if b.None? then a else if b.value < a.value then b else a
  }

  function NextExpiryUpTo<T>(w: Wheel<T>, k: nat): Option<nat>
    requires Shaped(w) && k <= |w.rings|
  {
    if k == 0 then None
    else Earlier(NextExpiryUpTo(w, k - 1), RingDue(w.tick, k - 1, Cursor(w.tick, w.now, k - 1), w.rings[k - 1]))
  }

  /** `HierarchicalTimingWheel::next_expiry_ms`. */
  function NextExpiry<T>(w: Wheel<T>): Option<nat>
    requires Shaped(w)
  {
    NextExpiryUpTo(w, |w.rings|)
  }

  function Values<T>(ts: seq<Timer<T>>): (vs: seq<T>)
    ensures |vs| == |ts| && forall i | 0 <= i < |ts| :: vs[i] == ts[i].value
  {
    seq(|ts|, i requires 0 <= i < |ts| => ts[i].value)
  }

  /** Moving the clock to `now` stays within 64 bits: the clock is 64 ticks short of the end,
      or everything stored is due and nothing is placed again. */
  ghost predicate ClockSafe<T>(w: Wheel<T>, now: nat)
    requires w.tick > 0
  {
    || Quotient(now, w.tick) + 64 <= U64_MAX
    || forall l, i, t | 0 <= l < |w.rings| && 0 <= i < |w.rings[l]| && t in w.rings[l][i] :: t.expireAt as nat <= now
  }
}
