/** The flat timing wheel of `wheel.rs`: a ring of buckets that counts ticks. It is specified by
    its calendar, the list of what leaves on the first, second, ... advance from now. */
module FlatWheel {
  import opened Machine

  /** The advance an entry inserted with `delay` leaves on, counted from the insert: the delay,
      clamped to the ring, where zero means a full rotation. */
  function LeavesOn(n: nat, delay: nat): (t: nat)
    requires n > 0
    ensures 1 <= t <= n
    ensures 0 < delay < n ==> t == delay
    ensures n <= delay && 1 < n ==> t == n - 1
    ensures delay == 0 ==> t == n
  {
    var ticks := if delay < n - 1 then delay else n - 1;
    if ticks == 0 then n else ticks
  }

  /** `calendar[k]` is what leaves on advance `k + 1`. */
  type Calendar<+T> = seq<seq<T>>

  function Put<T>(cal: Calendar<T>, entry: T, delay: nat): Calendar<T>
    requires |cal| > 0
  {
    var k := LeavesOn(|cal|, delay) - 1;
    cal[k := cal[k] + [entry]]
  }

  function Turn<T>(cal: Calendar<T>): Calendar<T>
    requires |cal| > 0
  {
    cal[1..] + [[]]
  }

  /** `k` single advances, and what they return, concatenated. */
  function Turns<T>(cal: Calendar<T>, k: nat): (r: (Calendar<T>, seq<T>))
    requires |cal| > 0
    ensures |r.0| == |cal|
  {
    if k == 0 then (cal, [])
    else
      var (cal', out) := Turns(cal, k - 1);
      (Turn(cal'), out + cal'[0])
  }

  function Size<T>(cal: Calendar<T>): nat {
    if cal == [] then 0 else |cal[0]| + Size(cal[1..])
  }

  lemma ModWrap(x: nat, n: nat)
    requires n > 0 && x < 2 * n
    ensures x % n == if x < n then x else x - n
  {
    if x >= n {
      assert x == n * 1 + (x - n);
    }
  }

  /** `x % n`, for indexes that go round the ring at most once. */
  function Around(x: nat, n: nat): (i: nat)
    requires n > 0 && x < 2 * n
    ensures i == if x < n then x else x - n
  {
    ModWrap(x, n);
    x % n
  }

  lemma SizeTurn<T>(cal: Calendar<T>)
    requires |cal| > 0
    ensures Size(cal) == |cal[0]| + Size(Turn(cal))
  {
    SizeAppend(cal[1..], []);
  }

  lemma {:induction false} SizeAppend<T>(cal: Calendar<T>, s: seq<T>)
    ensures Size(cal + [s]) == Size(cal) + |s|
  {
    if cal == [] {
      assert (cal + [s])[1..] == [];
    } else {
      SizeAppend(cal[1..], s);
      assert (cal + [s])[1..] == cal[1..] + [s];
    }
  }

  lemma {:induction false} SizeUpdate<T>(cal: Calendar<T>, k: nat, s: seq<T>)
    requires k < |cal|
    ensures Size(cal[k := s]) + |cal[k]| == Size(cal) + |s|
  {
    if k > 0 {
      SizeUpdate(cal[1..], k - 1, s);
      assert cal[k := s][1..] == cal[1..][k - 1 := s];
    } else {
      assert cal[k := s][1..] == cal[1..];
    }
  }

  lemma {:induction false} SizeZero<T>(cal: Calendar<T>)
    ensures Size(cal) == 0 <==> forall k | 0 <= k < |cal| :: |cal[k]| == 0
  {
    if cal != [] {
      SizeZero(cal[1..]);
      assert forall k | 1 <= k < |cal| :: cal[k] == cal[1..][k - 1];
    }
  }

  class TimingWheel<T> {
    const buckets: array<seq<T>>
    const numBuckets: nat
    var current: nat
    var len: nat

    /** The bucket the `k`-th advance from now drains. */
    function Bucket(k: nat): (i: nat)
      requires current < numBuckets && k <= numBuckets
      reads this
      ensures i < numBuckets
    {
      if current + k < numBuckets then current + k else current + k - numBuckets
    }

    ghost function CalendarOf(): (cal: Calendar<T>)
      requires buckets.Length == numBuckets && current < numBuckets
      reads this, buckets
      ensures |cal| == numBuckets && forall k | 0 <= k < numBuckets :: cal[k] == buckets[Bucket(k + 1)]
    {
      seq(numBuckets, k requires 0 <= k < numBuckets && buckets.Length == numBuckets && current < numBuckets reads this, buckets
                      => buckets[Bucket(k + 1)])
    }

    ghost predicate Valid()
      reads this, buckets
    {
      buckets.Length == numBuckets && current < numBuckets && len == Size(CalendarOf())
    }

    constructor (n: nat)
      requires n > 0
      ensures Valid() && fresh(buckets) && numBuckets == n
      ensures forall k | 0 <= k < n :: CalendarOf()[k] == []
    {
      buckets := new seq<T>[n](_ => []);
      numBuckets := n;
      current := 0;
      len := 0;
      new;
      SizeZero(CalendarOf());
    }

    method Insert(entry: T, delayTicks: nat)
      requires Valid()
      modifies this`len, buckets
      ensures Valid() && CalendarOf() == Put(old(CalendarOf()), entry, delayTicks)
    {
      hide Around, Size;
      ghost var cal := CalendarOf();
      var ticks := if delayTicks < numBuckets - 1 then delayTicks else numBuckets - 1;
      var bucket := Around(current + ticks, numBuckets);
      buckets[bucket] := buckets[bucket] + [entry];
      len := len + 1;
      ghost var k := LeavesOn(numBuckets, delayTicks) - 1;
      assert Bucket(k + 1) == bucket;
      SizeUpdate(cal, k, cal[k] + [entry]);
      assert CalendarOf() == Put(cal, entry, delayTicks);
    }

    /** One tick: the next bucket leaves. */
    method Advance() returns (out: seq<T>)
      requires Valid()
      modifies this`current, this`len, buckets
      ensures Valid() && out == old(CalendarOf())[0] && CalendarOf() == Turn(old(CalendarOf()))
    {
      hide Around, Size;
      ghost var cal := CalendarOf();
      current := Around(current + 1, numBuckets);
      out := buckets[current];
      buckets[current] := [];
      SizeTurn(cal);
      len := len - |out|;
      forall k | 0 <= k < numBuckets ensures CalendarOf()[k] == Turn(cal)[k] {
        assert k < numBuckets - 1 ==> Turn(cal)[k] == cal[k + 1];
      }
      assert CalendarOf() == Turn(cal);
    }

    /** `ticks` ticks at once. */
    method AdvanceBy(ticks: nat) returns (out: seq<T>)
      requires Valid()
      modifies this`current, this`len, buckets
      ensures Valid() && (CalendarOf(), out) == Turns(old(CalendarOf()), ticks)
    {
      out := [];
      var i := 0;
      while i < ticks
        invariant 0 <= i <= ticks
        invariant Valid() && (CalendarOf(), out) == Turns(old(CalendarOf()), i)
      {
        var bucket := Advance();
        out := out + bucket;
        i := i + 1;
      }
    }

    /** How many advances until one returns something. */
    method TicksUntilNextNonempty() returns (r: Option<nat>)
      requires Valid()
      ensures r.None? <==> forall k | 0 <= k < numBuckets :: |CalendarOf()[k]| == 0
      ensures r.Some? ==> 1 <= r.value <= numBuckets && |CalendarOf()[r.value - 1]| > 0
                          && forall k | 0 <= k < r.value - 1 :: |CalendarOf()[k]| == 0
    {
      hide Around, Size;
      ghost var cal := CalendarOf();
      SizeZero(cal);
      if len == 0 {
        return None;
      }
      var k := 1;
      while k <= numBuckets
        invariant 1 <= k <= numBuckets + 1 && cal == CalendarOf()
        invariant forall j | 0 <= j < k - 1 :: |cal[j]| == 0
      {
        var idx := Around(current + k, numBuckets);
        assert cal[k - 1] == buckets[idx];
        if |buckets[idx]| > 0 {
          return Some(k);
        }
        k := k + 1;
      }
      return None;
    }
  }

  // ---------------------------------------------------------------------------
  // Runs
  // ---------------------------------------------------------------------------

  datatype Op<+T> = Insert(entry: T, delay: nat) | Advance

  /** A run so far: the calendar, the entries ever inserted with the number of the advance each
      is due on, and what each advance returned. */
  datatype Trace<+T> = Trace(calendar: Calendar<T>, history: seq<(T, nat)>, returned: seq<seq<T>>)

  function Step<T>(tr: Trace<T>, op: Op<T>): Trace<T>
    requires |tr.calendar| > 0
  {
    match op
    case Insert(entry, delay) =>
      Trace(Put(tr.calendar, entry, delay),
            tr.history + [(entry, |tr.returned| + LeavesOn(|tr.calendar|, delay))],
            tr.returned)
    case Advance =>
      Trace(Turn(tr.calendar), tr.history, tr.returned + [tr.calendar[0]])
  }

  function Run<T>(n: nat, ops: seq<Op<T>>): (tr: Trace<T>)
    requires n > 0
    ensures |tr.calendar| == n
  {
    if ops == [] then Trace(seq(n, _ => []), [], [])
    else Step(Run(n, ops[..|ops| - 1]), ops[|ops| - 1])
  }

  /** The entries due on advance `a`, in the order they were inserted. */
  function DueOn<T>(history: seq<(T, nat)>, a: nat): seq<T> {
    if history == [] then []
    else
      var last := history[|history| - 1];
      DueOn(history[..|history| - 1], a) + if last.1 == a then [last.0] else []
  }

  lemma DueOnAppend<T>(history: seq<(T, nat)>, entry: T, due: nat, a: nat)
    ensures DueOn(history + [(entry, due)], a) == DueOn(history, a) + if due == a then [entry] else []
  {
    assert (history + [(entry, due)])[..|history|] == history;
  }

  /** Advance by advance, what was returned and what is still to come is exactly the history. */
  ghost predicate Faithful<T>(tr: Trace<T>) {
    && (forall j | 0 <= j < |tr.returned| :: tr.returned[j] == DueOn(tr.history, j + 1))
    && (forall k | 0 <= k < |tr.calendar| :: tr.calendar[k] == DueOn(tr.history, |tr.returned| + 1 + k))
    && (forall h | h in tr.history :: 1 <= h.1 <= |tr.returned| + |tr.calendar|)
  }

  lemma {:induction false} NothingDueBeyond<T>(history: seq<(T, nat)>, a: nat)
    requires forall h | h in history :: h.1 < a
    ensures DueOn(history, a) == []
  {
    if history != [] {
      NothingDueBeyond(history[..|history| - 1], a);
    }
  }

  lemma InsertIsFaithful<T>(tr: Trace<T>, entry: T, delay: nat)
    requires |tr.calendar| > 0 && Faithful(tr)
    ensures Faithful(Step(tr, Insert(entry, delay)))
  {
    hide DueOn, LeavesOn;
    var n, a := |tr.calendar|, |tr.returned|;
    var tr' := Step(tr, Insert(entry, delay));
    var due := a + LeavesOn(n, delay);
    forall j | 0 <= j < |tr'.returned| ensures tr'.returned[j] == DueOn(tr'.history, j + 1) {
      DueOnAppend(tr.history, entry, due, j + 1);
    }
    forall k | 0 <= k < n ensures tr'.calendar[k] == DueOn(tr'.history, a + 1 + k) {
      DueOnAppend(tr.history, entry, due, a + 1 + k);
    }
  }

  lemma AdvanceIsFaithful<T>(tr: Trace<T>)
    requires |tr.calendar| > 0 && Faithful(tr)
    ensures Faithful(Step(tr, Advance))
  {
    hide DueOn;
    var n, a := |tr.calendar|, |tr.returned|;
    var tr' := Step(tr, Advance);
    NothingDueBeyond(tr.history, a + n + 1);
    assert tr.calendar[0] == DueOn(tr.history, a + 1 + 0);
    forall k | 0 <= k < n ensures tr'.calendar[k] == DueOn(tr'.history, a + 1 + 1 + k) {
      if k < n - 1 {
        assert tr'.calendar[k] == tr.calendar[k + 1] == DueOn(tr.history, a + 1 + (k + 1));
      }
    }
  }

  /** Over every run of inserts and advances, advance number `j + 1` returns exactly the entries
      whose insert clock plus (clamped, rotating) delay is `j + 1`, in the order they were
      inserted, and no entry is ever due later than a rotation from now. */
  lemma {:induction false} EveryRunIsFaithful<T>(n: nat, ops: seq<Op<T>>)
    requires n > 0
    ensures Faithful(Run(n, ops))
  {
    if ops != [] {
      EveryRunIsFaithful(n, ops[..|ops| - 1]);
      var tr := Run(n, ops[..|ops| - 1]);
      match ops[|ops| - 1]
      case Insert(entry, delay) => InsertIsFaithful(tr, entry, delay);
      case Advance => AdvanceIsFaithful(tr);
    }
  }

  /** A jump is the single advances in a row: it can be split anywhere. */
  lemma {:induction false} TurnsSplit<T>(cal: Calendar<T>, a: nat, b: nat)
    requires |cal| > 0
    ensures Turns(cal, a + b).0 == Turns(Turns(cal, a).0, b).0
    ensures Turns(cal, a + b).1 == Turns(cal, a).1 + Turns(Turns(cal, a).0, b).1
    decreases b
  {
    hide Turn;
    if b > 0 {
      TurnsSplit(cal, a, b - 1);
      assert a + b - 1 == a + (b - 1);
      var mid, last := Turns(cal, a), Turns(Turns(cal, a).0, b - 1);
      assert mid.1 + last.1 + last.0[0] == mid.1 + (last.1 + last.0[0]);
    }
  }

  /** Within one rotation the `k`-th advance returns what the calendar says. */
  lemma {:induction false} TurnsReadCalendar<T>(cal: Calendar<T>, k: nat)
    requires k < |cal|
    ensures Turns(cal, k).0[0] == cal[k]
    ensures forall i | 0 <= i < |cal| - k :: Turns(cal, k).0[i] == cal[i + k]
    decreases k
  {
    if k > 0 {
      TurnsReadCalendar(cal, k - 1);
    }
  }

  /** The first busy day of the calendar is the first advance that returns anything. */
  lemma {:induction false} QuietUntilFirstBusy<T>(cal: Calendar<T>, k: nat)
    requires k < |cal| && forall i | 0 <= i < k :: |cal[i]| == 0
    ensures Turns(cal, k).1 == [] && Turns(cal, k + 1).1 == cal[k]
    decreases k
  {
    if k > 0 {
      QuietUntilFirstBusy(cal, k - 1);
    }
    TurnsReadCalendar(cal, k);
  }
}
