/** The task protocol as the workers run it: message ids and payloads are bytes, and every decision is
    taken on a decoded payload. It behaves as the protocol on keys and contexts does. */
module Workflow {
  import opened Machine
  import opened WorkflowCodec
  import opened WorkflowIds
  import Model = WorkflowModel
  import Progress = WorkflowProgress

  const COMPENSATION_BIT: nat := 0x8000

  type Config = Model.Config
  type Outcome = Model.Outcome

  /** The stored payload under each message id, and the ids acknowledged. */
  datatype Wire = Wire(stored: map<Bytes, Bytes>, acked: set<Bytes>)

  const EMPTY := Wire(map[], {})

  function Publish(stored: map<Bytes, Bytes>, mid: Bytes, payload: Bytes, lost: set<Bytes>): map<Bytes, Bytes> {
    if mid !in lost && mid !in stored then stored[mid := payload] else stored
  }

  /** The payload of a compensation task: the compensated step with the high bit set. */
  function CompTask(instance: Bytes, index: nat, context: Bytes): Task
    requires index < COMPENSATION_BIT
  {
    Task(instance, (COMPENSATION_BIT + index) as u16, 0, context)
  }

  function Compensate(stored: map<Bytes, Bytes>, instance: Bytes, s: nat, context: Bytes, lost: set<Bytes>): map<Bytes, Bytes>
    requires s <= COMPENSATION_BIT
    decreases s
  {
    if s == 0 then stored
    else
      var mid := MsgId(CompKey(instance, s - 1));
      var payload := EncodeTask(CompTask(instance, s - 1, context));
      Compensate(Publish(stored, mid, payload, lost), instance, s - 1, context, lost)
  }

  function Ack(w: Wire, mid: Bytes): Wire {
    w.(acked := w.acked + {mid})
  }

  /** Store `t` under the id of `k` and acknowledge `mid`, or leave it for redelivery. */
  function HandOver(w: Wire, mid: Bytes, k: Key, t: Task, lost: set<Bytes>): Wire {
    if MsgId(k) in lost then w
    else Ack(w.(stored := Publish(w.stored, MsgId(k), EncodeTask(t), lost)), mid)
  }

  function Step(cfg: Config, w: Wire, mid: Bytes, t: Task, outcome: Outcome, lost: set<Bytes>): Wire
    requires Model.Proper(cfg) && t.step as nat < cfg.steps
  {
    var s, a := t.step as nat, t.attempt as nat;
    match outcome
    case Done(c) =>
      if |c| > cfg.maxContext then w
      else if s + 1 < cfg.steps then
        HandOver(w, mid, StepKey(t.instance, s + 1, 0), Task(t.instance, t.step + 1, 0, c), lost)
      else Ack(w, mid)
    case Failed =>
      if a >= cfg.maxRetries then
        Ack(w.(stored := Compensate(w.stored, t.instance, s, t.context, lost)), mid)
      else
        HandOver(w, mid, StepKey(t.instance, s, a + 1), Task(t.instance, t.step, t.attempt + 1, t.context), lost)
  }

  /** One delivery. A payload that does not decode, a context that is too large, a compensation and a
      step that does not exist are acknowledged without a publish. */
  function Deliver(cfg: Config, w: Wire, mid: Bytes, outcome: Outcome, lost: set<Bytes>): Wire
    requires Model.Proper(cfg) && mid in w.stored
  {
    match DecodeTask(w.stored[mid])
    case None => Ack(w, mid)
    case Some(t) =>
      if |t.context| > cfg.maxContext || t.step as nat >= COMPENSATION_BIT || t.step as nat >= cfg.steps
      then Ack(w, mid)
      else Step(cfg, w, mid, t, outcome, lost)
  }

  function Trigger(w: Wire, instance: Bytes, context: Bytes, lost: set<Bytes>): Wire {
    w.(stored := Publish(w.stored, MsgId(StepKey(instance, 0, 0)), EncodeTask(Task(instance, 0, 0, context)), lost))
  }

  // ---------------------------------------------------------------------------
  // The dispatch loop's body
  // ---------------------------------------------------------------------------

  class TaskStream {
    var stored: map<Bytes, Bytes>
    var acked: set<Bytes>

    function State(): Wire
      reads this
    {
      Wire(stored, acked)
    }

    constructor ()
      ensures State() == EMPTY
    {
      stored, acked := map[], {};
    }

    method PublishWithId(mid: Bytes, payload: Bytes, lost: set<Bytes>) returns (ok: bool)
      modifies this`stored
      ensures stored == Publish(old(stored), mid, payload, lost)
      ensures ok <==> mid !in lost
    {
      ok := mid !in lost;
      if ok && mid !in stored {
        stored := stored[mid := payload];
      }
    }

    method TriggerWithId(instance: Bytes, context: Bytes, lost: set<Bytes>) returns (ok: bool)
      modifies this`stored
      ensures State() == Trigger(old(State()), instance, context, lost)
      ensures ok <==> MsgId(StepKey(instance, 0, 0)) !in lost
    {
      var task := WriteTask(Task(instance, 0, 0, context));
      ok := PublishWithId(MsgId(StepKey(instance, 0, 0)), task, lost);
    }

    /** Publish compensations for the steps below `s`, last first. */
    method PublishCompensations(instance: Bytes, s: nat, context: Bytes, lost: set<Bytes>)
      requires s <= COMPENSATION_BIT
      modifies this`stored
      ensures stored == Compensate(old(stored), instance, s, context, lost)
    {
      hide MsgId, EncodeTask;
      var j: nat := s;
      while j > 0
        invariant j <= s
        invariant Compensate(stored, instance, j, context, lost) == Compensate(old(stored), instance, s, context, lost)
      {
        j := j - 1;
        var task := WriteTask(CompTask(instance, j, context));
        var _ := PublishWithId(MsgId(CompKey(instance, j)), task, lost);
      }
    }

    /** Publish a follow-up task and acknowledge only once it is taken. */
    method PublishThenAck(mid: Bytes, k: Key, t: Task, lost: set<Bytes>)
      modifies this
      ensures State() == HandOver(old(State()), mid, k, t, lost)
    {
      hide MsgId, EncodeTask;
      var task := WriteTask(t);
      var ok := PublishWithId(MsgId(k), task, lost);
      if ok {
        acked := acked + {mid};
      }
    }

    method RunStep(cfg: Config, mid: Bytes, t: Task, outcome: Outcome, lost: set<Bytes>)
      requires Model.Proper(cfg) && t.step as nat < cfg.steps
      modifies this
      ensures State() == Step(cfg, old(State()), mid, t, outcome, lost)
    {
      hide MsgId, EncodeTask, HandOver, Compensate;
      var s, a := t.step as nat, t.attempt as nat;
      match outcome
      case Done(c) =>
        if |c| <= cfg.maxContext {
          if s + 1 < cfg.steps {
            PublishThenAck(mid, StepKey(t.instance, s + 1, 0), Task(t.instance, t.step + 1, 0, c), lost);
          } else {
            acked := acked + {mid};
          }
        }
      case Failed =>
        if a >= cfg.maxRetries {
          PublishCompensations(t.instance, s, t.context, lost);
          acked := acked + {mid};
        } else {
          PublishThenAck(mid, StepKey(t.instance, s, a + 1), Task(t.instance, t.step, t.attempt + 1, t.context), lost);
        }
    }

    method Dispatch(cfg: Config, mid: Bytes, outcome: Outcome, lost: set<Bytes>)
      requires Model.Proper(cfg) && mid in stored
      modifies this
      ensures State() == Deliver(cfg, old(State()), mid, outcome, lost)
    {
      hide Step, DecodeTask;
      var decoded := DecodeTask(stored[mid]);
      if decoded.None? {
        acked := acked + {mid};
        return;
      }
      var t := decoded.value;
      if |t.context| > cfg.maxContext || t.step as nat >= COMPENSATION_BIT || t.step as nat >= cfg.steps {
        acked := acked + {mid};
        return;
      }
      RunStep(cfg, mid, t, outcome, lost);
    }
  }

  // ---------------------------------------------------------------------------
  // The bytes represent keys and contexts
  // ---------------------------------------------------------------------------

  /** Keys of tasks whose fields fit a payload. */
  predicate Fits(k: Key) {
    && |k.instance| <= 0xFFFF
    && match k
       case StepKey(_, s, a) => s < COMPENSATION_BIT && a <= 255
       case CompKey(_, j) => j < COMPENSATION_BIT
       case _ => false
  }

  function TaskOf(k: Key, context: Bytes): Task
    requires Fits(k)
  {
    match k
    case StepKey(i, s, a) => Task(i, s as u16, a as byte, context)
    case CompKey(i, j) => CompTask(i, j, context)
  }

  function KeyOf(t: Task): Key {
    if t.step as nat >= COMPENSATION_BIT then CompKey(t.instance, t.step as nat - COMPENSATION_BIT)
    else StepKey(t.instance, t.step as nat, t.attempt as nat)
  }

  lemma PayloadDecodes(k: Key, context: Bytes)
    requires Fits(k)
    ensures DecodeTask(EncodeTask(TaskOf(k, context))) == Some(TaskOf(k, context))
    ensures KeyOf(TaskOf(k, context)) == k && TaskOf(k, context).context == context
  {
    TaskRoundTrip(TaskOf(k, context));
  }

  /** A key is stored as the payload of its task under its id. */
  ghost predicate Held(stored: map<Key, Bytes>, wire: map<Bytes, Bytes>, k: Key)
    requires k in stored
  {
    Fits(k) && MsgId(k) in wire && wire[MsgId(k)] == EncodeTask(TaskOf(k, stored[k]))
  }

  ghost predicate Named(keys: set<Key>, mid: Bytes) {
    exists k :: k in keys && MsgId(k) == mid
  }

  ghost predicate StoredMatch(stored: map<Key, Bytes>, wire: map<Bytes, Bytes>) {
    && (forall k | k in stored :: Held(stored, wire, k))
    && (forall mid | mid in wire :: Named(stored.Keys, mid))
  }

  ghost predicate AckedMatch(keys: set<Key>, mids: set<Bytes>) {
    && (forall k | k in keys :: MsgId(k) in mids)
    && (forall mid | mid in mids :: Named(keys, mid))
  }

  ghost predicate Represents(sys: Model.Sys, w: Wire) {
    StoredMatch(sys.stored, w.stored) && AckedMatch(sys.acked, w.acked)
  }

  /** The keys whose ids are among `lost`. */
  ghost function LostKeys(lost: set<Bytes>): iset<Key> {
    iset k | MsgId(k) in lost
  }

  lemma PublishMatches(stored: map<Key, Bytes>, wire: map<Bytes, Bytes>, k: Key, c: Bytes, lost: set<Bytes>)
    requires StoredMatch(stored, wire) && Fits(k)
    ensures StoredMatch(Model.Publish(stored, k, c, LostKeys(lost)),
                        Publish(wire, MsgId(k), EncodeTask(TaskOf(k, c)), lost))
  {
    hide MsgId, EncodeTask, TaskOf;
    IdIsTaken(stored, wire, k);
    if MsgId(k) !in lost && k !in stored {
      var more, wire' := stored[k := c], wire[MsgId(k) := EncodeTask(TaskOf(k, c))];
      forall j | j in more ensures Held(more, wire', j) {
        if j != k {
          assert Held(stored, wire, j);
          if MsgId(j) == MsgId(k) {
            MsgIdInjective(j, k);
          }
        }
      }
      forall mid | mid in wire' ensures Named(more.Keys, mid) {
        if mid == MsgId(k) {
          assert k in more.Keys;
        } else {
          var j :| j in stored.Keys && MsgId(j) == mid;
          assert j in more.Keys;
        }
      }
    }
  }

  lemma IdIsTaken(stored: map<Key, Bytes>, wire: map<Bytes, Bytes>, k: Key)
    requires StoredMatch(stored, wire)
    ensures MsgId(k) in wire <==> k in stored
  {
    hide MsgId, EncodeTask, TaskOf;
    if k in stored {
      assert Held(stored, wire, k);
    }
    if MsgId(k) in wire {
      var j :| j in stored.Keys && MsgId(j) == MsgId(k);
      MsgIdInjective(j, k);
    }
  }

  lemma {:induction false} CompensateMatches(stored: map<Key, Bytes>, wire: map<Bytes, Bytes>, i: Bytes, s: nat, c: Bytes, lost: set<Bytes>)
    requires StoredMatch(stored, wire) && s <= COMPENSATION_BIT && |i| <= 0xFFFF
    ensures StoredMatch(Model.Compensate(stored, i, s, c, LostKeys(lost)), Compensate(wire, i, s, c, lost))
    decreases s
  {
    hide StoredMatch, MsgId, EncodeTask, LostKeys;
    if s > 0 {
      var k := CompKey(i, s - 1);
      PublishMatches(stored, wire, k, c, lost);
      CompensateMatches(Model.Publish(stored, k, c, LostKeys(lost)),
                        Publish(wire, MsgId(k), EncodeTask(TaskOf(k, c)), lost), i, s - 1, c, lost);
    }
  }

  lemma AckMatches(keys: set<Key>, mids: set<Bytes>, k: Key)
    requires AckedMatch(keys, mids)
    ensures AckedMatch(keys + {k}, mids + {MsgId(k)})
  {
    hide MsgId;
    forall mid | mid in mids + {MsgId(k)} ensures Named(keys + {k}, mid) {
      if mid in mids {
        var j :| j in keys && MsgId(j) == mid;
        assert j in keys + {k};
      } else {
        assert k in keys + {k};
      }
    }
  }

  /** A delivery on the bytes is the delivery of the key that the id names. */
  lemma DeliverMatches(cfg: Config, sys: Model.Sys, w: Wire, k: Key, outcome: Outcome, lost: set<Bytes>)
    requires Model.Proper(cfg) && Represents(sys, w) && k in sys.stored
    ensures MsgId(k) in w.stored
    ensures Represents(Model.Deliver(cfg, sys, k, outcome, LostKeys(lost)), Deliver(cfg, w, MsgId(k), outcome, lost))
  {
    assert Held(sys.stored, w.stored, k);
    PayloadDecodes(k, sys.stored[k]);
    hide StoredMatch, AckedMatch, MsgId, EncodeTask, DecodeTask, LostKeys;
    AckMatches(sys.acked, w.acked, k);
    if |sys.stored[k]| <= cfg.maxContext && k.StepKey? && k.step < cfg.steps {
      StepMatches(cfg, sys, w, k, outcome, lost);
    }
  }

  lemma StepMatches(cfg: Config, sys: Model.Sys, w: Wire, k: Key, outcome: Outcome, lost: set<Bytes>)
    requires Model.Proper(cfg) && Represents(sys, w) && k in sys.stored && k.StepKey? && Fits(k) && k.step < cfg.steps
    requires |sys.stored[k]| <= cfg.maxContext
    ensures Represents(Model.Deliver(cfg, sys, k, outcome, LostKeys(lost)),
                       Step(cfg, w, MsgId(k), TaskOf(k, sys.stored[k]), outcome, lost))
  {
    hide StoredMatch, AckedMatch, MsgId, EncodeTask;
    AckMatches(sys.acked, w.acked, k);
    match outcome
    case Done(c) =>
      if k.step + 1 < cfg.steps {
        PublishMatches(sys.stored, w.stored, StepKey(k.instance, k.step + 1, 0), c, lost);
      }
    case Failed =>
      if k.attempt >= cfg.maxRetries {
        CompensateMatches(sys.stored, w.stored, k.instance, k.step, sys.stored[k], lost);
      } else {
        PublishMatches(sys.stored, w.stored, StepKey(k.instance, k.step, k.attempt + 1), sys.stored[k], lost);
      }
  }

  /** A trigger is stored as itself exactly when its instance id is at most 65535 bytes long. */
  lemma TriggerIsFaithful(instance: Bytes, context: Bytes)
    ensures var w := Trigger(EMPTY, instance, context, {});
            DecodeTask(w.stored[MsgId(StepKey(instance, 0, 0))]) == Some(Task(instance, 0, 0, context)) <==> |instance| <= 0xFFFF
  {
    hide MsgId, EncodeTask, DecodeTask;
    TaskRoundTrip(Task(instance, 0, 0, context));
  }

  // ---------------------------------------------------------------------------
  // Runs
  // ---------------------------------------------------------------------------

  datatype Action =
    | Start(instance: Bytes, context: Bytes, lost: set<Bytes>)
    | Handle(mid: Bytes, outcome: Outcome, lost: set<Bytes>)

  predicate Encodable(act: Action) {
    act.Start? ==> |act.instance| <= 0xFFFF
  }

  function Act(cfg: Config, w: Wire, act: Action): Wire
    requires Model.Proper(cfg)
  {
    match act
    case Start(i, c, lost) => Trigger(w, i, c, lost)
    case Handle(mid, outcome, lost) => if mid in w.stored then Deliver(cfg, w, mid, outcome, lost) else w
  }

  function Run(cfg: Config, acts: seq<Action>): Wire
    requires Model.Proper(cfg)
  {
    if acts == [] then EMPTY else Act(cfg, Run(cfg, acts[..|acts| - 1]), acts[|acts| - 1])
  }

  ghost predicate Lawful(acts: seq<Model.Action>) {
    forall n | 0 <= n < |acts| :: Model.Encodable(acts[n])
  }

  /** `lifted` is `act` with its id read as a key, unless the id names nothing stored. */
  ghost predicate Lifts(act: Action, lifted: Model.Action) {
    match lifted
    case Start(i, c, _) => act.Start? && act.instance == i && act.context == c
    case Handle(k, outcome, _) =>
      act.Handle? && outcome == act.outcome && (k == CancelKey([]) || MsgId(k) == act.mid)
  }

  ghost predicate AllLift(acts: seq<Action>, lifted: seq<Model.Action>) {
    |lifted| == |acts| && forall n | 0 <= n < |acts| :: Lifts(acts[n], lifted[n])
  }

  lemma LiftsAppend(acts: seq<Action>, before: seq<Model.Action>, last: Model.Action)
    requires acts != [] && AllLift(acts[..|acts| - 1], before) && Lifts(acts[|acts| - 1], last)
    requires Lawful(before) && Model.Encodable(last)
    ensures AllLift(acts, before + [last]) && Lawful(before + [last])
  {
    hide Lifts, Model.Encodable;
    var front := acts[..|acts| - 1];
    assert forall n | 0 <= n < |front| :: acts[n] == front[n];
  }

  lemma ActMatches(cfg: Config, sys: Model.Sys, w: Wire, act: Action) returns (lifted: Model.Action)
    requires Model.Proper(cfg) && Represents(sys, w) && Encodable(act)
    ensures Lifts(act, lifted) && Model.Encodable(lifted) && Represents(Model.Act(cfg, sys, lifted), Act(cfg, w, act))
  {
    hide StoredMatch, AckedMatch, MsgId, EncodeTask, Deliver, Model.Deliver;
    match act
    case Start(i, c, lost) =>
      lifted := Model.Start(i, c, LostKeys(lost));
      PublishMatches(sys.stored, w.stored, StepKey(i, 0, 0), c, lost);
    case Handle(mid, outcome, lost) =>
      if mid in w.stored {
        var k := KeyNamed(sys.stored, w.stored, mid);
        lifted := Model.Handle(k, outcome, LostKeys(lost));
        DeliverMatches(cfg, sys, w, k, outcome, lost);
      } else {
        lifted := Model.Handle(CancelKey([]), outcome, iset{});
        CancelIsNotHeld(sys.stored, w.stored);
      }
  }

  lemma KeyNamed(stored: map<Key, Bytes>, wire: map<Bytes, Bytes>, mid: Bytes) returns (k: Key)
    requires StoredMatch(stored, wire) && mid in wire
    ensures k in stored && MsgId(k) == mid && Held(stored, wire, k)
  {
    hide MsgId, EncodeTask, TaskOf;
    assert Named(stored.Keys, mid);
    k :| k in stored.Keys && MsgId(k) == mid;
  }

  lemma CancelIsNotHeld(stored: map<Key, Bytes>, wire: map<Bytes, Bytes>)
    requires StoredMatch(stored, wire)
    ensures CancelKey([]) !in stored
  {
    hide MsgId, EncodeTask, TaskOf;
  }

  /** Every run on the bytes is a run on keys and contexts, represented. */
  lemma {:induction false} EveryRunMatches(cfg: Config, acts: seq<Action>) returns (lifted: seq<Model.Action>)
    requires Model.Proper(cfg) && forall n | 0 <= n < |acts| :: Encodable(acts[n])
    ensures Lawful(lifted) && Represents(Model.Run(cfg, lifted), Run(cfg, acts))
    ensures AllLift(acts, lifted)
  {
    if acts == [] {
      lifted := [];
    } else {
      hide Represents, Act, Model.Act, AllLift, Lawful, Lifts;
      var before := EveryRunMatches(cfg, acts[..|acts| - 1]);
      var last := ActMatches(cfg, Model.Run(cfg, before), Run(cfg, acts[..|acts| - 1]), acts[|acts| - 1]);
      lifted := before + [last];
      assert lifted[..|lifted| - 1] == before;
      LiftsAppend(acts, before, last);
    }
  }

  /** What the task stream holds after any run: each message decodes, its id is the id of what it
      decodes to, so no step attempt and no compensation is stored twice, its numbers are in range, and
      only a trigger can be too large. */
  lemma EveryStoredMessageIsSound(cfg: Config, acts: seq<Action>, mid: Bytes)
    requires Model.Proper(cfg) && forall n | 0 <= n < |acts| :: Encodable(acts[n])
    requires mid in Run(cfg, acts).stored
    ensures var r := DecodeTask(Run(cfg, acts).stored[mid]);
            && r.Some? && MsgId(KeyOf(r.value)) == mid
            && (match KeyOf(r.value)
                case StepKey(_, s, a) =>
                  && s < cfg.steps && a <= cfg.maxRetries
                  && (|r.value.context| > cfg.maxContext ==> s == 0 && a == 0)
                case CompKey(_, j) => j + 1 < cfg.steps && |r.value.context| <= cfg.maxContext)
  {
    hide MsgId, EncodeTask, DecodeTask, TaskOf, KeyOf, Run, Model.Run;
    var lifted := EveryRunMatches(cfg, acts);
    var sys, w := Model.Run(cfg, lifted), Run(cfg, acts);
    Model.EveryRunKeepsInv(cfg, lifted);
    var k := KeyNamed(sys.stored, w.stored, mid);
    PayloadDecodes(k, sys.stored[k]);
    Model.EntryIsOk(cfg, sys, k);
  }

  /** The message is stored and its context is too large. */
  predicate Oversize(cfg: Config, w: Wire, mid: Bytes) {
    && mid in w.stored
    && var r := DecodeTask(w.stored[mid]); r.Some? && |r.value.context| > cfg.maxContext
  }

  /** The delivery of `mid` in which a handler completed it. */
  predicate Completes(cfg: Config, act: Action, mid: Bytes) {
    act.Handle? && act.mid == mid && act.outcome.Done? && |act.outcome.context| <= cfg.maxContext
  }

  /** A delivery of `mid` in which the handler failed. */
  predicate Fails(act: Action, mid: Bytes) {
    act.Handle? && act.mid == mid && act.outcome.Failed?
  }

  /** The run completed a step task, or failed one, if the run it lifts to did. */
  lemma EndsAreLifted(cfg: Config, acts: seq<Action>, lifted: seq<Model.Action>, k: Key)
    requires AllLift(acts, lifted) && k.StepKey?
    ensures k in Model.Run(cfg, lifted).finished ==> exists n :: 0 <= n < |acts| && Completes(cfg, acts[n], MsgId(k))
    ensures k in Model.Run(cfg, lifted).dead ==> exists n :: 0 <= n < |acts| && Fails(acts[n], MsgId(k))
  {
    hide MsgId, Model.Run;
    Model.EndsHappened(cfg, lifted, k);
    if k in Model.Run(cfg, lifted).finished {
      var n :| 0 <= n < |acts| && Model.Completes(cfg, lifted[n], k);
      assert Lifts(acts[n], lifted[n]) && Completes(cfg, acts[n], MsgId(k));
    }
    if k in Model.Run(cfg, lifted).dead {
      var n :| 0 <= n < |acts| && Model.Fails(lifted[n], k);
      assert Lifts(acts[n], lifted[n]) && Fails(acts[n], MsgId(k));
    }
  }

  /** An acknowledged step task has its successor or its retry stored, or is of the last step and was
      completed, or is the last attempt and failed, or is a trigger that is too large. */
  lemma EveryAckIsSettled(cfg: Config, acts: seq<Action>, i: Bytes, s: nat, a: nat)
    requires Model.Proper(cfg) && forall n | 0 <= n < |acts| :: Encodable(acts[n])
    requires MsgId(StepKey(i, s, a)) in Run(cfg, acts).acked
    ensures MsgId(StepKey(i, s, a)) in Run(cfg, acts).stored
    ensures || MsgId(StepKey(i, s + 1, 0)) in Run(cfg, acts).stored
            || MsgId(StepKey(i, s, a + 1)) in Run(cfg, acts).stored
            || (s + 1 == cfg.steps && exists n :: 0 <= n < |acts| && Completes(cfg, acts[n], MsgId(StepKey(i, s, a))))
            || (a == cfg.maxRetries && exists n :: 0 <= n < |acts| && Fails(acts[n], MsgId(StepKey(i, s, a))))
            || (s == 0 && a == 0 && Oversize(cfg, Run(cfg, acts), MsgId(StepKey(i, s, a))))
  {
    hide MsgId, EncodeTask, DecodeTask, TaskOf, Run, Model.Run, Model.Inv, AllLift, Completes, Fails;
    var lifted := EveryRunMatches(cfg, acts);
    var sys, w := Model.Run(cfg, lifted), Run(cfg, acts);
    Model.EveryRunKeepsInv(cfg, lifted);
    var k := StepKey(i, s, a);
    AckIsOf(sys, w, k);
    Model.AckedIsSettled(cfg, sys, k);
    Model.EndIsProper(cfg, sys, k);
    EndsAreLifted(cfg, acts, lifted, k);
    IdIsTaken(sys.stored, w.stored, k);
    IdIsTaken(sys.stored, w.stored, StepKey(i, s + 1, 0));
    IdIsTaken(sys.stored, w.stored, StepKey(i, s, a + 1));
    assert Held(sys.stored, w.stored, k);
    PayloadDecodes(k, sys.stored[k]);
  }

  lemma AckIsOf(sys: Model.Sys, w: Wire, k: Key)
    requires Represents(sys, w) && MsgId(k) in w.acked
    ensures k in sys.acked
  {
    hide MsgId, StoredMatch;
    assert Named(sys.acked, MsgId(k));
    var j :| j in sys.acked && MsgId(j) == MsgId(k);
    MsgIdInjective(j, k);
  }

  /** A delivery of `mid` whose handler answers `c`. */
  predicate Answers(act: Action, mid: Bytes, c: Bytes) {
    act.Handle? && act.mid == mid && act.outcome == Model.Done(c)
  }

  /** A trigger of instance `i` with context `c`. */
  predicate Starts(act: Action, i: Bytes, c: Bytes) {
    act.Start? && act.instance == i && act.context == c
  }

  /** The context that the stored message carries. */
  function ContextOf(w: Wire, mid: Bytes): Option<Bytes>
    requires mid in w.stored
  {
    match DecodeTask(w.stored[mid])
    case None => None
    case Some(t) => Some(t.context)
  }

  /** After any run, the message of a later step carries what a handler answered in that run to a delivery
      of some attempt of the step before. */
  lemma EveryStepRunsOnAnAnswer(cfg: Config, acts: seq<Action>, i: Bytes, s: nat)
    requires Model.Proper(cfg) && forall n | 0 <= n < |acts| :: Encodable(acts[n])
    requires MsgId(StepKey(i, s + 1, 0)) in Run(cfg, acts).stored
    ensures var r := ContextOf(Run(cfg, acts), MsgId(StepKey(i, s + 1, 0)));
            r.Some? && exists n: nat, a: nat :: n < |acts| && Answers(acts[n], MsgId(StepKey(i, s, a)), r.value)
  {
    hide MsgId, DecodeTask, EncodeTask, TaskOf, Run, Model.Run, AllLift;
    var lifted := EveryRunMatches(cfg, acts);
    var k := StepKey(i, s + 1, 0);
    var n, c := SourceOf(cfg, acts, lifted, k);
    var key := lifted[n].key;
    LiftedAt(acts, lifted, n);
    assert key == StepKey(i, s, key.attempt);
    assert Answers(acts[n], MsgId(StepKey(i, s, key.attempt)), c);
  }

  /** After any run, the message of a trigger carries the context of some trigger of that instance. */
  lemma EveryTriggerIsAsGiven(cfg: Config, acts: seq<Action>, i: Bytes)
    requires Model.Proper(cfg) && forall n | 0 <= n < |acts| :: Encodable(acts[n])
    requires MsgId(StepKey(i, 0, 0)) in Run(cfg, acts).stored
    ensures var r := ContextOf(Run(cfg, acts), MsgId(StepKey(i, 0, 0)));
            r.Some? && exists n: nat :: n < |acts| && Starts(acts[n], i, r.value)
  {
    hide MsgId, DecodeTask, EncodeTask, TaskOf, Run, Model.Run, AllLift;
    var lifted := EveryRunMatches(cfg, acts);
    var n, c := SourceOf(cfg, acts, lifted, StepKey(i, 0, 0));
    LiftedAt(acts, lifted, n);
    assert Starts(acts[n], i, c);
  }

  lemma LiftedAt(acts: seq<Action>, lifted: seq<Model.Action>, n: nat)
    requires AllLift(acts, lifted) && n < |lifted|
    ensures n < |acts| && Lifts(acts[n], lifted[n])
  {
  }

  /** The context of a stored message, and the action that put it there. */
  lemma SourceOf(cfg: Config, acts: seq<Action>, lifted: seq<Model.Action>, k: Key) returns (n: nat, c: Bytes)
    requires Model.Proper(cfg) && Represents(Model.Run(cfg, lifted), Run(cfg, acts)) && MsgId(k) in Run(cfg, acts).stored
    ensures ContextOf(Run(cfg, acts), MsgId(k)) == Some(c)
    ensures n < |lifted| && Progress.Source(cfg, Model.Run(cfg, lifted[..n]), lifted[n], k, c)
  {
    hide MsgId, DecodeTask, EncodeTask, TaskOf, Run, Model.Run, Progress.Source;
    var sys, w := Model.Run(cfg, lifted), Run(cfg, acts);
    IdIsTaken(sys.stored, w.stored, k);
    assert Held(sys.stored, w.stored, k);
    PayloadDecodes(k, sys.stored[k]);
    c := sys.stored[k];
    Progress.EveryTaskHasASource(cfg, lifted, k);
    n :| 0 <= n < |lifted| && Progress.Source(cfg, Model.Run(cfg, lifted[..n]), lifted[n], k, sys.stored[k]);
  }
}
