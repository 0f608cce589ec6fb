/** The workflow task protocol of `workflow.rs` for pipelines of normal steps: a stream that stores a
    message id once, workers that may see any stored task any number of times, and handlers and
    publishes that may succeed or fail at will. */
module WorkflowModel {
  import opened Machine
  import opened WorkflowCodec
  import opened WorkflowIds

  datatype Config = Config(steps: nat, maxRetries: nat, maxContext: nat)

  /** Fewer steps than the compensation bit can count, and attempts that fit their byte. */
  predicate Proper(cfg: Config) {
    0 < cfg.steps < 0x8000 && cfg.maxRetries <= 255
  }

  /** What a step handler answers. */
  datatype Outcome = Done(context: Bytes) | Failed

  /** The stream: the context stored under each key and the keys acknowledged. `finished` and `dead`
      remember which tasks completed the last step and which were moved to the dead letters. */
  datatype Sys = Sys(stored: map<Key, Bytes>, acked: set<Key>, finished: set<Key>, dead: set<Key>)

  const EMPTY := Sys(map[], {}, {}, {})

  /** Publish with a message id: the client takes the message unless it is among `lost`, and
      the stream keeps the first message of each id. */
  function Publish(stored: map<Key, Bytes>, k: Key, context: Bytes, lost: iset<Key>): map<Key, Bytes> {
    if k !in lost && k !in stored then stored[k := context] else stored
  }

  /** Compensation tasks for the steps below `s`, last first; their publish results are ignored. */
  function Compensate(stored: map<Key, Bytes>, instance: Bytes, s: nat, context: Bytes, lost: iset<Key>): map<Key, Bytes>
    decreases s
  {
    if s == 0 then stored
    else Compensate(Publish(stored, CompKey(instance, s - 1), context, lost), instance, s - 1, context, lost)
  }

  function Ack(sys: Sys, k: Key): Sys {
    sys.(acked := sys.acked + {k})
  }

  /** One delivery of a stored task to some worker. */
  function Deliver(cfg: Config, sys: Sys, k: Key, outcome: Outcome, lost: iset<Key>): Sys
    requires k in sys.stored
  {
    var context := sys.stored[k];
    if |context| > cfg.maxContext then Ack(sys, k)
    else
      match k
      case CompKey(_, _) => Ack(sys, k)
      case StepKey(i, s, a) =>
        if s >= cfg.steps then Ack(sys, k)
        else
          (match outcome
           case Done(c) =>
             if |c| > cfg.maxContext then sys
             else if s + 1 < cfg.steps then
               if StepKey(i, s + 1, 0) !in lost then
                 Ack(sys.(stored := Publish(sys.stored, StepKey(i, s + 1, 0), c, lost)), k)
               else sys
             else Ack(sys.(finished := sys.finished + {k}), k)
           case Failed =>
             if a >= cfg.maxRetries then
               Ack(sys.(stored := Compensate(sys.stored, i, s, context, lost), dead := sys.dead + {k}), k)
             else if StepKey(i, s, a + 1) !in lost then
               Ack(sys.(stored := Publish(sys.stored, StepKey(i, s, a + 1), context, lost)), k)
             else sys)
      case _ => sys
  }

  function Trigger(sys: Sys, instance: Bytes, context: Bytes, lost: iset<Key>): Sys {
    sys.(stored := Publish(sys.stored, StepKey(instance, 0, 0), context, lost))
  }

  // ---------------------------------------------------------------------------
  // The invariant
  // ---------------------------------------------------------------------------

  /** Some attempt of step `s` of the instance is stored. */
  ghost predicate Attempted(cfg: Config, stored: map<Key, Bytes>, i: Bytes, s: nat) {
    exists a: nat :: a <= cfg.maxRetries && StepKey(i, s, a) in stored
  }

  /** A step task is the trigger, the retry of the attempt before with the same context, or the
      successor of some attempt of the step before. */
  ghost predicate Descends(cfg: Config, stored: map<Key, Bytes>, i: Bytes, s: nat, a: nat)
    requires StepKey(i, s, a) in stored
  {
    || (s == 0 && a == 0)
    || (a > 0 && StepKey(i, s, a - 1) in stored && stored[StepKey(i, s, a - 1)] == stored[StepKey(i, s, a)])
    || (a == 0 && s > 0 && Attempted(cfg, stored, i, s - 1))
  }

  ghost predicate EntryOk(cfg: Config, stored: map<Key, Bytes>, dead: set<Key>, k: Key)
    requires k in stored
  {
    && |k.instance| <= 0xFFFF
    && match k
       case StepKey(i, s, a) =>
         && s < cfg.steps && a <= cfg.maxRetries
         && Descends(cfg, stored, i, s, a)
         && (|stored[k]| > cfg.maxContext ==> s == 0 && a == 0)
       case CompKey(i, j) =>
         && |stored[k]| <= cfg.maxContext
         && exists s: nat :: j < s < cfg.steps && StepKey(i, s, cfg.maxRetries) in dead
       case _ => false
  }

  /** Nothing further is owed for an acknowledged step task. */
  ghost predicate Settled(cfg: Config, sys: Sys, k: Key)
    requires k.StepKey? && k in sys.stored
  {
    || StepKey(k.instance, k.step + 1, 0) in sys.stored
    || StepKey(k.instance, k.step, k.attempt + 1) in sys.stored
    || k in sys.finished
    || k in sys.dead
    || (k.step == 0 && k.attempt == 0 && |sys.stored[k]| > cfg.maxContext)
  }

  ghost predicate EntriesOk(cfg: Config, stored: map<Key, Bytes>, dead: set<Key>) {
    forall k | k in stored :: EntryOk(cfg, stored, dead, k)
  }

  ghost predicate AcksOk(cfg: Config, sys: Sys) {
    && sys.acked <= sys.stored.Keys
    && forall k | k in sys.acked && k.StepKey? :: Settled(cfg, sys, k)
  }

  ghost predicate EndsOk(cfg: Config, sys: Sys) {
    && (forall k | k in sys.finished :: k.StepKey? && k in sys.stored && k.step + 1 == cfg.steps)
    && (forall k | k in sys.dead :: k.StepKey? && k in sys.stored && k.attempt == cfg.maxRetries)
  }

  ghost predicate Inv(cfg: Config, sys: Sys) {
    EntriesOk(cfg, sys.stored, sys.dead) && AcksOk(cfg, sys) && EndsOk(cfg, sys)
  }

  /** `more` has everything `stored` has, unchanged. */
  ghost predicate Extends(stored: map<Key, Bytes>, more: map<Key, Bytes>) {
    forall k | k in stored :: k in more && more[k] == stored[k]
  }

  lemma EntryStaysOk(cfg: Config, stored: map<Key, Bytes>, dead: set<Key>, more: map<Key, Bytes>, dead': set<Key>, k: Key)
    requires k in stored && EntryOk(cfg, stored, dead, k) && Extends(stored, more) && dead <= dead'
    ensures EntryOk(cfg, more, dead', k)
  {
    match k
    case StepKey(i, s, a) =>
      if a == 0 && s > 0 {
        var before := s - 1;
        var b: nat :| b <= cfg.maxRetries && StepKey(i, before, b) in stored;
        assert StepKey(i, before, b) in more;
      }
    case CompKey(i, j) =>
      var s: nat :| j < s < cfg.steps && StepKey(i, s, cfg.maxRetries) in dead;
      assert StepKey(i, s, cfg.maxRetries) in dead';
    case _ =>
  }

  lemma PublishKeepsEntries(cfg: Config, stored: map<Key, Bytes>, dead: set<Key>, k: Key, c: Bytes, lost: iset<Key>)
    requires EntriesOk(cfg, stored, dead)
    requires k !in stored ==> EntryOk(cfg, stored[k := c], dead, k)
    ensures Extends(stored, Publish(stored, k, c, lost)) && EntriesOk(cfg, Publish(stored, k, c, lost), dead)
  {
    hide EntryOk;
    var more := Publish(stored, k, c, lost);
    forall j | j in more ensures EntryOk(cfg, more, dead, j) {
      if j in stored {
        EntryStaysOk(cfg, stored, dead, more, dead, j);
      }
    }
  }

  lemma {:induction false} CompensateKeepsEntries(cfg: Config, stored: map<Key, Bytes>, dead: set<Key>, i: Bytes, s: nat, top: nat, c: Bytes, lost: iset<Key>)
    requires EntriesOk(cfg, stored, dead) && |i| <= 0xFFFF && |c| <= cfg.maxContext
    requires s <= top < cfg.steps && StepKey(i, top, cfg.maxRetries) in dead
    ensures Extends(stored, Compensate(stored, i, s, c, lost)) && EntriesOk(cfg, Compensate(stored, i, s, c, lost), dead)
    ensures forall k | k in Compensate(stored, i, s, c, lost) && k !in stored :: k.CompKey?
    decreases s
  {
    hide EntriesOk;
    if s > 0 {
      var k := CompKey(i, s - 1);
      assert k !in stored ==> EntryOk(cfg, stored[k := c], dead, k);
      PublishKeepsEntries(cfg, stored, dead, k, c, lost);
      CompensateKeepsEntries(cfg, Publish(stored, k, c, lost), dead, i, s - 1, top, c, lost);
    }
  }

  /** Deaths only add to what justifies an entry. */
  lemma DeathKeepsEntries(cfg: Config, stored: map<Key, Bytes>, dead: set<Key>, k: Key)
    requires EntriesOk(cfg, stored, dead)
    ensures EntriesOk(cfg, stored, dead + {k})
  {
    hide EntryOk;
    forall j | j in stored ensures EntryOk(cfg, stored, dead + {k}, j) {
      EntryStaysOk(cfg, stored, dead, stored, dead + {k}, j);
    }
  }

  /** Growing the stream, acknowledging `k` and recording its end keep the invariant if `k` is then
      settled. */
  lemma GrowKeepsInv(cfg: Config, sys: Sys, sys': Sys, k: Key)
    requires Inv(cfg, sys) && EntriesOk(cfg, sys'.stored, sys'.dead) && Extends(sys.stored, sys'.stored)
    requires k in sys.stored && sys'.acked <= sys.acked + {k}
    requires sys.finished <= sys'.finished <= sys.finished + {k} && sys.dead <= sys'.dead <= sys.dead + {k}
    requires k in sys'.finished - sys.finished ==> k.StepKey? && k.step + 1 == cfg.steps
    requires k in sys'.dead - sys.dead ==> k.StepKey? && k.attempt == cfg.maxRetries
    requires k.StepKey? && k in sys'.acked ==> Settled(cfg, sys', k)
    ensures Inv(cfg, sys')
  {
    hide EntryOk;
    forall j | j in sys'.acked && j.StepKey? ensures Settled(cfg, sys', j) {
      if j != k {
        assert Settled(cfg, sys, j);
      }
    }
  }

  lemma TriggerKeepsInv(cfg: Config, sys: Sys, i: Bytes, c: Bytes, lost: iset<Key>)
    requires Proper(cfg) && Inv(cfg, sys) && |i| <= 0xFFFF
    ensures Inv(cfg, Trigger(sys, i, c, lost))
  {
    var k := StepKey(i, 0, 0);
    assert k !in sys.stored ==> EntryOk(cfg, sys.stored[k := c], sys.dead, k);
    hide EntryOk;
    PublishKeepsEntries(cfg, sys.stored, sys.dead, k, c, lost);
    var sys' := Trigger(sys, i, c, lost);
    forall j | j in sys'.acked && j.StepKey? ensures Settled(cfg, sys', j) {
      assert Settled(cfg, sys, j);
    }
  }

  lemma DeliverKeepsInv(cfg: Config, sys: Sys, k: Key, outcome: Outcome, lost: iset<Key>)
    requires Proper(cfg) && Inv(cfg, sys) && k in sys.stored
    ensures Inv(cfg, Deliver(cfg, sys, k, outcome, lost))
  {
    var sys' := Deliver(cfg, sys, k, outcome, lost);
    assert EntryOk(cfg, sys.stored, sys.dead, k);
    var c := sys.stored[k];
    if k.CompKey? || |c| > cfg.maxContext {
      GrowKeepsInv(cfg, sys, sys', k);
    } else if outcome.Done? {
      DoneKeepsInv(cfg, sys, k, outcome.context, lost);
    } else {
      FailedKeepsInv(cfg, sys, k, lost);
    }
  }

  lemma DoneKeepsInv(cfg: Config, sys: Sys, k: Key, c: Bytes, lost: iset<Key>)
    requires Proper(cfg) && Inv(cfg, sys) && k in sys.stored && k.StepKey? && |sys.stored[k]| <= cfg.maxContext
    ensures Inv(cfg, Deliver(cfg, sys, k, Done(c), lost))
  {
    hide Inv, Publish, Ack;
    StepIsInRange(cfg, sys, k);
    if |c| <= cfg.maxContext {
      if k.step + 1 < cfg.steps {
        AdvanceKeepsInv(cfg, sys, k, c, lost);
      } else {
        FinishKeepsInv(cfg, sys, k);
      }
    }
  }

  lemma FinishKeepsInv(cfg: Config, sys: Sys, k: Key)
    requires Inv(cfg, sys) && k in sys.stored && k.StepKey? && k.step + 1 == cfg.steps
    ensures Inv(cfg, Ack(sys.(finished := sys.finished + {k}), k))
  {
    hide EntriesOk, AcksOk, EndsOk;
    GrowKeepsInv(cfg, sys, Ack(sys.(finished := sys.finished + {k}), k), k);
  }

  lemma AdvanceKeepsInv(cfg: Config, sys: Sys, k: Key, c: Bytes, lost: iset<Key>)
    requires Inv(cfg, sys) && k in sys.stored && k.StepKey? && k.step + 1 < cfg.steps && |c| <= cfg.maxContext
    ensures var next := StepKey(k.instance, k.step + 1, 0);
            next !in lost ==> Inv(cfg, Ack(sys.(stored := Publish(sys.stored, next, c, lost)), k))
  {
    EntryIsOk(cfg, sys, k);
    hide EntriesOk, EntryOk, AcksOk, EndsOk;
    var next := StepKey(k.instance, k.step + 1, 0);
    SuccessorIsOk(cfg, sys.stored, sys.dead, k, c);
    PublishKeepsEntries(cfg, sys.stored, sys.dead, next, c, lost);
    if next !in lost {
      StoreKeepsInv(cfg, sys, Publish(sys.stored, next, c, lost), k);
    }
  }

  /** Storing more and acknowledging `k`, when what was stored settles it. */
  lemma StoreKeepsInv(cfg: Config, sys: Sys, more: map<Key, Bytes>, k: Key)
    requires Inv(cfg, sys) && EntriesOk(cfg, more, sys.dead) && Extends(sys.stored, more) && k in sys.stored
    requires k.StepKey? ==> Settled(cfg, sys.(stored := more), k)
    ensures Inv(cfg, Ack(sys.(stored := more), k))
  {
    hide EntriesOk;
    var sys' := Ack(sys.(stored := more), k);
    forall j | j in sys'.acked && j.StepKey? ensures Settled(cfg, sys', j) {
      if j != k {
        assert Settled(cfg, sys, j);
      }
    }
  }

  lemma EntryIsOk(cfg: Config, sys: Sys, k: Key)
    requires Inv(cfg, sys) && k in sys.stored
    ensures EntryOk(cfg, sys.stored, sys.dead, k)
  {
  }

  lemma StepIsInRange(cfg: Config, sys: Sys, k: Key)
    requires Inv(cfg, sys) && k in sys.stored && k.StepKey?
    ensures k.step < cfg.steps && k.attempt <= cfg.maxRetries
  {
    EntryIsOk(cfg, sys, k);
  }

  lemma SuccessorIsOk(cfg: Config, stored: map<Key, Bytes>, dead: set<Key>, k: Key, c: Bytes)
    requires k in stored && k.StepKey? && EntryOk(cfg, stored, dead, k)
    requires k.step + 1 < cfg.steps && |c| <= cfg.maxContext
    ensures var next := StepKey(k.instance, k.step + 1, 0); EntryOk(cfg, stored[next := c], dead, next)
  {
    var more := stored[StepKey(k.instance, k.step + 1, 0) := c];
    assert StepKey(k.instance, k.step, k.attempt) in more;
    assert Attempted(cfg, more, k.instance, k.step);
  }

  lemma FailedKeepsInv(cfg: Config, sys: Sys, k: Key, lost: iset<Key>)
    requires Proper(cfg) && Inv(cfg, sys) && k in sys.stored && k.StepKey? && |sys.stored[k]| <= cfg.maxContext
    ensures Inv(cfg, Deliver(cfg, sys, k, Failed, lost))
  {
    StepIsInRange(cfg, sys, k);
    hide Inv;
    if k.attempt >= cfg.maxRetries {
      DeathKeepsInv(cfg, sys, k, lost);
    } else {
      RetryKeepsInv(cfg, sys, k, lost);
    }
  }

  lemma RetryKeepsInv(cfg: Config, sys: Sys, k: Key, lost: iset<Key>)
    requires Inv(cfg, sys) && k in sys.stored && k.StepKey? && k.attempt < cfg.maxRetries
    requires |sys.stored[k]| <= cfg.maxContext
    ensures var next := StepKey(k.instance, k.step, k.attempt + 1);
            next !in lost ==> Inv(cfg, Ack(sys.(stored := Publish(sys.stored, next, sys.stored[k], lost)), k))
  {
    EntryIsOk(cfg, sys, k);
    hide EntriesOk, EntryOk, AcksOk, EndsOk;
    var next := StepKey(k.instance, k.step, k.attempt + 1);
    RetryIsOk(cfg, sys.stored, sys.dead, k);
    PublishKeepsEntries(cfg, sys.stored, sys.dead, next, sys.stored[k], lost);
    if next !in lost {
      StoreKeepsInv(cfg, sys, Publish(sys.stored, next, sys.stored[k], lost), k);
    }
  }

  lemma DeathKeepsInv(cfg: Config, sys: Sys, k: Key, lost: iset<Key>)
    requires Inv(cfg, sys) && k in sys.stored && k.StepKey? && k.attempt == cfg.maxRetries
    requires |sys.stored[k]| <= cfg.maxContext
    ensures Inv(cfg, Ack(sys.(stored := Compensate(sys.stored, k.instance, k.step, sys.stored[k], lost),
                              dead := sys.dead + {k}), k))
  {
    EntryIsOk(cfg, sys, k);
    var more := Compensate(sys.stored, k.instance, k.step, sys.stored[k], lost);
    assert |k.instance| <= 0xFFFF && k.step < cfg.steps;
    hide EntriesOk, EntryOk, AcksOk, EndsOk;
    DeathKeepsEntries(cfg, sys.stored, sys.dead, k);
    CompensateKeepsEntries(cfg, sys.stored, sys.dead + {k}, k.instance, k.step, k.step, sys.stored[k], lost);
    GrowKeepsInv(cfg, sys, Ack(sys.(stored := more, dead := sys.dead + {k}), k), k);
  }

  lemma RetryIsOk(cfg: Config, stored: map<Key, Bytes>, dead: set<Key>, k: Key)
    requires k in stored && k.StepKey? && EntryOk(cfg, stored, dead, k)
    requires k.attempt < cfg.maxRetries && |stored[k]| <= cfg.maxContext
    ensures var next := StepKey(k.instance, k.step, k.attempt + 1); EntryOk(cfg, stored[next := stored[k]], dead, next)
  {
  }

  // ---------------------------------------------------------------------------
  // Runs
  // ---------------------------------------------------------------------------

  datatype Action =
    | Start(instance: Bytes, context: Bytes, lost: iset<Key>)
    | Handle(key: Key, outcome: Outcome, lost: iset<Key>)

  /** Deliveries are of stored tasks, acknowledged or not. */
  function Act(cfg: Config, sys: Sys, act: Action): Sys {
    match act
    case Start(i, c, lost) => Trigger(sys, i, c, lost)
    case Handle(k, outcome, lost) => if k in sys.stored then Deliver(cfg, sys, k, outcome, lost) else sys
  }

  /** Instance ids whose length fits the two bytes that a task has for it. */
  predicate Encodable(act: Action) {
    act.Start? ==> |act.instance| <= 0xFFFF
  }

  function Run(cfg: Config, acts: seq<Action>): Sys {
    if acts == [] then EMPTY else Act(cfg, Run(cfg, acts[..|acts| - 1]), acts[|acts| - 1])
  }

  lemma {:induction false} EveryRunKeepsInv(cfg: Config, acts: seq<Action>)
    requires Proper(cfg) && forall i | 0 <= i < |acts| :: Encodable(acts[i])
    ensures Inv(cfg, Run(cfg, acts))
  {
    if acts != [] {
      var sys := Run(cfg, acts[..|acts| - 1]);
      EveryRunKeepsInv(cfg, acts[..|acts| - 1]);
      ActKeepsInv(cfg, sys, acts[|acts| - 1]);
    }
  }

  lemma ActKeepsInv(cfg: Config, sys: Sys, act: Action)
    requires Proper(cfg) && Inv(cfg, sys) && Encodable(act)
    ensures Inv(cfg, Act(cfg, sys, act))
  {
    hide Inv, Deliver, Trigger;
    match act
    case Start(i, c, lost) => TriggerKeepsInv(cfg, sys, i, c, lost);
    case Handle(k, outcome, lost) =>
      if k in sys.stored {
        DeliverKeepsInv(cfg, sys, k, outcome, lost);
      }
  }

  /** The delivery in which a handler completed `k`. */
  predicate Completes(cfg: Config, act: Action, k: Key) {
    act.Handle? && act.key == k && act.outcome.Done? && |act.outcome.context| <= cfg.maxContext
  }

  /** A delivery in which the handler of `k` failed. */
  predicate Fails(act: Action, k: Key) {
    act.Handle? && act.key == k && act.outcome.Failed?
  }

  lemma ActEnds(cfg: Config, sys: Sys, act: Action, k: Key)
    ensures k in Act(cfg, sys, act).finished ==> k in sys.finished || Completes(cfg, act, k)
    ensures k in Act(cfg, sys, act).dead ==> k in sys.dead || Fails(act, k)
  {
    hide Compensate;
  }

  /** What a run records as finished was completed by a handler in that run, and what it records as dead
      failed in it. */
  lemma {:induction false} EndsHappened(cfg: Config, acts: seq<Action>, k: Key)
    ensures k in Run(cfg, acts).finished ==> exists n :: 0 <= n < |acts| && Completes(cfg, acts[n], k)
    ensures k in Run(cfg, acts).dead ==> exists n :: 0 <= n < |acts| && Fails(acts[n], k)
  {
    hide Act, Completes, Fails;
    if acts != [] {
      var last := |acts| - 1;
      var before := acts[..last];
      EndsHappened(cfg, before, k);
      ActEnds(cfg, Run(cfg, before), acts[last], k);
      assert forall n | 0 <= n < last :: before[n] == acts[n];
    }
  }

  // ---------------------------------------------------------------------------
  // Nothing stored is replaced, and compensation is complete when no publish is lost
  // ---------------------------------------------------------------------------

  /** Which compensations `Compensate` adds: those below `s` that were not lost, with the given
      context, and nothing else. */
  lemma {:induction false} CompensateAdds(stored: map<Key, Bytes>, i: Bytes, s: nat, c: Bytes, lost: iset<Key>)
    ensures var more := Compensate(stored, i, s, c, lost);
            && Extends(stored, more)
            && (forall j: nat | j < s && CompKey(i, j) !in lost :: CompKey(i, j) in more)
            && (forall k | k in more && k !in stored ::
                  k.CompKey? && k.instance == i && k.index < s && k !in lost && more[k] == c)
    decreases s
  {
    if s > 0 {
      CompensateAdds(Publish(stored, CompKey(i, s - 1), c, lost), i, s - 1, c, lost);
    }
  }

  /** A step never removes or replaces a stored task. */
  lemma ActExtends(cfg: Config, sys: Sys, act: Action)
    ensures Extends(sys.stored, Act(cfg, sys, act).stored)
    ensures sys.acked <= Act(cfg, sys, act).acked
  {
    if act.Handle? && act.key in sys.stored && act.key.StepKey? {
      CompensateAdds(sys.stored, act.key.instance, act.key.step, sys.stored[act.key], act.lost);
    }
  }

  /** Every compensation of every dead task is stored. */
  ghost predicate Compensated(sys: Sys) {
    forall i: Bytes, s: nat, a: nat, j: nat | StepKey(i, s, a) in sys.dead && j < s :: CompKey(i, j) in sys.stored
  }

  lemma ActCompensates(cfg: Config, sys: Sys, act: Action)
    requires Compensated(sys) && act.lost == iset{}
    ensures Compensated(Act(cfg, sys, act))
  {
    var sys' := Act(cfg, sys, act);
    ActExtends(cfg, sys, act);
    forall i: Bytes, s: nat, a: nat, j: nat | StepKey(i, s, a) in sys'.dead && j < s
      ensures CompKey(i, j) in sys'.stored
    {
      if StepKey(i, s, a) !in sys.dead {
        CompensateAdds(sys.stored, i, s, sys.stored[act.key], act.lost);
      }
    }
  }

  /** In runs that lose no publish, the compensation of step `j` is stored exactly when some later
      step of the instance used up its attempts. */
  lemma {:induction false} LosslessRunsCompensate(cfg: Config, acts: seq<Action>)
    requires Proper(cfg) && forall n | 0 <= n < |acts| :: Encodable(acts[n]) && acts[n].lost == iset{}
    ensures Compensated(Run(cfg, acts))
    ensures forall i: Bytes, j: nat :: CompKey(i, j) in Run(cfg, acts).stored <==>
              exists s: nat :: j < s && StepKey(i, s, cfg.maxRetries) in Run(cfg, acts).dead
  {
    if acts != [] {
      LosslessRunsCompensate(cfg, acts[..|acts| - 1]);
      ActCompensates(cfg, Run(cfg, acts[..|acts| - 1]), acts[|acts| - 1]);
    }
    EveryRunKeepsInv(cfg, acts);
    var sys := Run(cfg, acts);
    forall i: Bytes, j: nat | CompKey(i, j) in sys.stored
      ensures exists s: nat :: j < s && StepKey(i, s, cfg.maxRetries) in sys.dead
    {
      EntryIsOk(cfg, sys, CompKey(i, j));
    }
  }

  // ---------------------------------------------------------------------------
  // What the invariant gives
  // ---------------------------------------------------------------------------

  lemma RetryHasOriginal(cfg: Config, sys: Sys, i: Bytes, s: nat, a: nat)
    requires Inv(cfg, sys) && StepKey(i, s, a) in sys.stored && a > 0
    ensures StepKey(i, s, a - 1) in sys.stored && sys.stored[StepKey(i, s, a - 1)] == sys.stored[StepKey(i, s, a)]
  {
    EntryIsOk(cfg, sys, StepKey(i, s, a));
    hide Inv;
  }

  /** Every earlier attempt of a stored step task is stored, with the same context. */
  lemma {:induction false} AttemptsAreStored(cfg: Config, sys: Sys, i: Bytes, s: nat, a: nat, b: nat)
    requires Inv(cfg, sys) && StepKey(i, s, a) in sys.stored && b <= a
    ensures StepKey(i, s, b) in sys.stored && sys.stored[StepKey(i, s, b)] == sys.stored[StepKey(i, s, a)]
    decreases a
  {
    hide Inv;
    if b < a {
      RetryHasOriginal(cfg, sys, i, s, a);
      AttemptsAreStored(cfg, sys, i, s, a - 1, b);
    }
  }

  /** So is the first attempt of every earlier step, the trigger included. */
  lemma {:induction false} StepsAreStored(cfg: Config, sys: Sys, i: Bytes, s: nat, a: nat, r: nat)
    requires Inv(cfg, sys) && StepKey(i, s, a) in sys.stored && r <= s
    ensures StepKey(i, r, 0) in sys.stored
    decreases s
  {
    AttemptsAreStored(cfg, sys, i, s, a, 0);
    if r < s {
      EntryIsOk(cfg, sys, StepKey(i, s, 0));
      hide Inv;
      var before := s - 1;
      var b: nat :| b <= cfg.maxRetries && StepKey(i, before, b) in sys.stored;
      StepsAreStored(cfg, sys, i, before, b, r);
    }
  }

  /** How an instance can end: its last step completed, a step used up its attempts, or the trigger
      came with too large a context. */
  ghost predicate Ended(cfg: Config, sys: Sys, i: Bytes) {
    || (exists k :: k in sys.finished && k.StepKey? && k.instance == i && k.step + 1 == cfg.steps)
    || (exists k :: k in sys.dead && k.StepKey? && k.instance == i && k.attempt == cfg.maxRetries)
    || (StepKey(i, 0, 0) in sys.stored && |sys.stored[StepKey(i, 0, 0)]| > cfg.maxContext)
  }

  lemma AckedIsSettled(cfg: Config, sys: Sys, k: Key)
    requires Inv(cfg, sys) && k in sys.acked && k.StepKey?
    ensures k in sys.stored && Settled(cfg, sys, k)
  {
    hide EntriesOk, EndsOk, Settled;
  }

  lemma EndIsProper(cfg: Config, sys: Sys, k: Key)
    requires Inv(cfg, sys) && k.StepKey?
    ensures k in sys.finished ==> k.step + 1 == cfg.steps
    ensures k in sys.dead ==> k.attempt == cfg.maxRetries
  {
    hide EntriesOk, AcksOk;
  }

  /** No instance is lost: once every stored step task of it is acknowledged, it has ended. */
  lemma {:induction false} NothingIsLost(cfg: Config, sys: Sys, i: Bytes, s: nat, a: nat)
    requires Inv(cfg, sys) && StepKey(i, s, a) in sys.stored
    requires forall k | k in sys.stored && k.StepKey? && k.instance == i :: k in sys.acked
    ensures Ended(cfg, sys, i)
    decreases cfg.steps - s, cfg.maxRetries - a
  {
    hide EntriesOk, AcksOk, EndsOk;
    var k := StepKey(i, s, a);
    StepIsInRange(cfg, sys, k);
    AckedIsSettled(cfg, sys, k);
    EndIsProper(cfg, sys, k);
    if StepKey(i, s + 1, 0) in sys.stored {
      StepIsInRange(cfg, sys, StepKey(i, s + 1, 0));
      NothingIsLost(cfg, sys, i, s + 1, 0);
    } else if StepKey(i, s, a + 1) in sys.stored {
      StepIsInRange(cfg, sys, StepKey(i, s, a + 1));
      NothingIsLost(cfg, sys, i, s, a + 1);
    }
  }

  /** The step tasks stored for an instance. */
  function TasksOf(stored: map<Key, Bytes>, i: Bytes): set<Key> {
    set k | k in stored.Keys && k.StepKey? && k.instance == i
  }

  function Row(i: Bytes, s: nat, n: nat): set<Key> {
    if n == 0 then {} else Row(i, s, n - 1) + {StepKey(i, s, n - 1)}
  }

  /** The first `m` steps of an instance with `n` attempts each. */
  function Grid(i: Bytes, m: nat, n: nat): set<Key> {
    if m == 0 then {} else Grid(i, m - 1, n) + Row(i, m - 1, n)
  }

  lemma {:induction false} RowIsSmall(i: Bytes, s: nat, n: nat)
    ensures |Row(i, s, n)| <= n
    ensures forall a: nat | a < n :: StepKey(i, s, a) in Row(i, s, n)
  {
    if n > 0 {
      RowIsSmall(i, s, n - 1);
    }
  }

  lemma {:induction false} GridIsSmall(i: Bytes, m: nat, n: nat)
    ensures |Grid(i, m, n)| <= m * n
    ensures forall s: nat, a: nat | s < m && a < n :: StepKey(i, s, a) in Grid(i, m, n)
  {
    if m > 0 {
      GridIsSmall(i, m - 1, n);
      RowIsSmall(i, m - 1, n);
      assert m * n == (m - 1) * n + n;
    }
  }

  lemma SubsetIsSmaller(a: set<Key>, b: set<Key>)
    requires a <= b
    ensures |a| <= |b|
  {
    assert b == a + (b - a);
  }

  /** An instance stores at most one task for each step and attempt. */
  lemma InstanceIsBounded(cfg: Config, sys: Sys, i: Bytes)
    requires Inv(cfg, sys)
    ensures |TasksOf(sys.stored, i)| <= cfg.steps * (cfg.maxRetries + 1)
  {
    GridIsSmall(i, cfg.steps, cfg.maxRetries + 1);
    forall k | k in TasksOf(sys.stored, i) ensures k in Grid(i, cfg.steps, cfg.maxRetries + 1) {
      StepIsInRange(cfg, sys, k);
    }
    SubsetIsSmaller(TasksOf(sys.stored, i), Grid(i, cfg.steps, cfg.maxRetries + 1));
  }
}
