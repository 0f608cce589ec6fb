/** Where stored tasks come from, and that instances get to an end: with handlers that succeed every
    step runs on the result of the one before, with one that keeps failing the retries run out and the
    earlier steps are compensated. */
module WorkflowProgress {
  import opened Machine
  import opened WorkflowCodec
  import opened WorkflowIds
  import opened WorkflowModel

  // ---------------------------------------------------------------------------
  // Where a stored task comes from
  // ---------------------------------------------------------------------------

  /** `act`, done in `sys`, is what puts task `k` with context `c` on the stream: a trigger with that
      context, the failure of the attempt before, which ran on that context, a handler's answer of that
      context for the step before, or the last failure of a later step that ran on that context. */
  ghost predicate Source(cfg: Config, sys: Sys, act: Action, k: Key, c: Bytes) {
    match k
    case StepKey(i, s, a) =>
      if a > 0 then Ran(sys, act, StepKey(i, s, a - 1), c) && act.outcome.Failed?
      else if s > 0 then
        act.Handle? && act.key in sys.stored && act.key.StepKey? && act.key.instance == i && act.key.step == s - 1
        && act.outcome == Done(c)
      else act.Start? && act.instance == i && act.context == c
    case CompKey(i, j) =>
      act.Handle? && act.key.StepKey? && act.key.instance == i && j < act.key.step && act.key.attempt >= cfg.maxRetries
      && Ran(sys, act, act.key, c) && act.outcome.Failed?
    case _ => false
  }

  /** `act` delivers the stored task `k`, whose context is `c`. */
  ghost predicate Ran(sys: Sys, act: Action, k: Key, c: Bytes) {
    act.Handle? && act.key == k && k in sys.stored && sys.stored[k] == c
  }

  lemma ActAdds(cfg: Config, sys: Sys, act: Action, k: Key)
    requires k in Act(cfg, sys, act).stored && k !in sys.stored
    ensures Source(cfg, sys, act, k, Act(cfg, sys, act).stored[k])
  {
    hide Compensate;
    if act.Handle? && act.key in sys.stored && act.key.StepKey? {
      CompensateAdds(sys.stored, act.key.instance, act.key.step, sys.stored[act.key], act.lost);
    }
  }

  /** Over every run, each stored task was put there by some action of the run, with the context that
      action calls for. In particular a step runs on what a handler of the step before answered. */
  lemma {:induction false} EveryTaskHasASource(cfg: Config, acts: seq<Action>, k: Key)
    requires k in Run(cfg, acts).stored
    ensures exists n :: 0 <= n < |acts| && Source(cfg, Run(cfg, acts[..n]), acts[n], k, Run(cfg, acts).stored[k])
  {
    hide Act, Source;
    if acts != [] {
      var last := |acts| - 1;
      var before := acts[..last];
      ActExtends(cfg, Run(cfg, before), acts[last]);
      if k in Run(cfg, before).stored {
        EveryTaskHasASource(cfg, before, k);
        var n :| 0 <= n < last && Source(cfg, Run(cfg, before[..n]), before[n], k, Run(cfg, before).stored[k]);
        assert before[..n] == acts[..n] && before[n] == acts[n];
      } else {
        ActAdds(cfg, Run(cfg, before), acts[last], k);
      }
    }
  }

  // ---------------------------------------------------------------------------
  // When a delivery is acknowledged
  // ---------------------------------------------------------------------------

  /** A delivery of `k` leaves nothing to redeliver: the task is discarded or finished, or its follow-up
      was taken. */
  ghost predicate Answered(cfg: Config, sys: Sys, k: Key, outcome: Outcome, lost: iset<Key>)
    requires k in sys.stored && (k.StepKey? || k.CompKey?)
  {
    || |sys.stored[k]| > cfg.maxContext
    || k.CompKey?
    || k.step >= cfg.steps
    || (outcome.Done? && |outcome.context| <= cfg.maxContext
        && (k.step + 1 < cfg.steps ==> StepKey(k.instance, k.step + 1, 0) !in lost))
    || (outcome.Failed? && (k.attempt < cfg.maxRetries ==> StepKey(k.instance, k.step, k.attempt + 1) !in lost))
  }

  /** A delivery acknowledges its own task, exactly when nothing is left to redeliver, and no other. */
  lemma DeliverAcknowledges(cfg: Config, sys: Sys, k: Key, outcome: Outcome, lost: iset<Key>)
    requires k in sys.stored && (k.StepKey? || k.CompKey?)
    ensures Deliver(cfg, sys, k, outcome, lost).acked ==
              if Answered(cfg, sys, k, outcome, lost) then sys.acked + {k} else sys.acked
    ensures !Answered(cfg, sys, k, outcome, lost) ==> Deliver(cfg, sys, k, outcome, lost) == sys
  {
    hide Compensate;
  }

  // ---------------------------------------------------------------------------
  // Handlers that succeed
  // ---------------------------------------------------------------------------

  const NONE: iset<Key> := iset{}

  /** The first attempts of the first `m` steps delivered in turn, step `s` answering `results[s]`. */
  ghost function Succeed(cfg: Config, sys: Sys, i: Bytes, results: seq<Bytes>, m: nat): Sys
    requires m <= |results|
  {
    if m == 0 then sys
    else Act(cfg, Succeed(cfg, sys, i, results, m - 1), Handle(StepKey(i, m - 1, 0), Done(results[m - 1]), NONE))
  }

  /** One success: the task is acknowledged, and the next step is on the stream or the last is finished. */
  lemma SuccessMovesOn(cfg: Config, sys: Sys, k: Key, c: Bytes)
    requires k in sys.stored && k.StepKey? && k.step < cfg.steps
    requires |sys.stored[k]| <= cfg.maxContext && |c| <= cfg.maxContext
    ensures var sys' := Act(cfg, sys, Handle(k, Done(c), NONE)); var next := StepKey(k.instance, k.step + 1, 0);
            && k in sys'.acked
            && (k.step + 1 < cfg.steps ==> next in sys'.stored && (next !in sys.stored ==> sys'.stored[next] == c))
            && (k.step + 1 == cfg.steps ==> k in sys'.finished)
  {
  }

  /** An instance whose trigger is on the stream completes when each step's handler succeeds once: every
      first attempt is acknowledged and the last step is finished. */
  lemma {:induction false} SuccessCompletes(cfg: Config, sys: Sys, i: Bytes, results: seq<Bytes>, m: nat)
    requires Proper(cfg) && Inv(cfg, sys) && |results| == cfg.steps && m <= cfg.steps
    requires StepKey(i, 0, 0) in sys.stored && |sys.stored[StepKey(i, 0, 0)]| <= cfg.maxContext
    requires forall s | 0 <= s < cfg.steps :: |results[s]| <= cfg.maxContext
    ensures var sys' := Succeed(cfg, sys, i, results, m);
            && Inv(cfg, sys') && Extends(sys.stored, sys'.stored)
            && (forall s: nat | s < m :: StepKey(i, s, 0) in sys'.acked)
            && (m < cfg.steps ==> StepKey(i, m, 0) in sys'.stored)
            && (m == cfg.steps ==> StepKey(i, cfg.steps - 1, 0) in sys'.finished)
    decreases m
  {
    hide Inv, Act;
    if m > 0 {
      SuccessCompletes(cfg, sys, i, results, m - 1);
      var before := Succeed(cfg, sys, i, results, m - 1);
      var k := StepKey(i, m - 1, 0);
      var act := Handle(k, Done(results[m - 1]), NONE);
      ContextFits(cfg, before, k);
      SuccessMovesOn(cfg, before, k, results[m - 1]);
      ActKeepsInv(cfg, before, act);
      ActExtends(cfg, before, act);
    }
  }

  lemma ContextFits(cfg: Config, sys: Sys, k: Key)
    requires Inv(cfg, sys) && k in sys.stored && k.StepKey?
    ensures k.step > 0 || k.attempt > 0 ==> |sys.stored[k]| <= cfg.maxContext
    ensures k.step < cfg.steps && k.attempt <= cfg.maxRetries
  {
    EntryIsOk(cfg, sys, k);
    hide Inv;
  }

  // ---------------------------------------------------------------------------
  // A handler that keeps failing
  // ---------------------------------------------------------------------------

  /** The first `m` attempts of step `s` delivered in turn, all failing. */
  ghost function Fail(cfg: Config, sys: Sys, i: Bytes, s: nat, m: nat): Sys {
    if m == 0 then sys
    else Act(cfg, Fail(cfg, sys, i, s, m - 1), Handle(StepKey(i, s, m - 1), Failed, NONE))
  }

  /** One failure: the task is acknowledged, and either its retry is on the stream, or, after the last
      attempt, it is dead and every earlier step has its compensation. */
  lemma FailureMovesOn(cfg: Config, sys: Sys, k: Key)
    requires k in sys.stored && k.StepKey? && k.step < cfg.steps && |sys.stored[k]| <= cfg.maxContext
    ensures var sys' := Act(cfg, sys, Handle(k, Failed, NONE)); var next := StepKey(k.instance, k.step, k.attempt + 1);
            && k in sys'.acked
            && (k.attempt < cfg.maxRetries ==>
                  next in sys'.stored && (next !in sys.stored ==> sys'.stored[next] == sys.stored[k]))
            && (k.attempt >= cfg.maxRetries ==>
                  k in sys'.dead && forall j: nat | j < k.step :: CompKey(k.instance, j) in sys'.stored)
  {
    hide Compensate;
    CompensateAdds(sys.stored, k.instance, k.step, sys.stored[k], NONE);
  }

  /** A step whose handler fails `max_retries + 1` times is dead, all its attempts acknowledged and every
      earlier step of the instance compensated. */
  lemma {:induction false} FailureCompensates(cfg: Config, sys: Sys, i: Bytes, s: nat, m: nat)
    requires Proper(cfg) && Inv(cfg, sys) && m <= cfg.maxRetries + 1
    requires StepKey(i, s, 0) in sys.stored && |sys.stored[StepKey(i, s, 0)]| <= cfg.maxContext
    ensures var sys' := Fail(cfg, sys, i, s, m);
            && Inv(cfg, sys') && Extends(sys.stored, sys'.stored)
            && (forall a: nat | a < m :: StepKey(i, s, a) in sys'.acked)
            && (m <= cfg.maxRetries ==> StepKey(i, s, m) in sys'.stored)
            && (m == cfg.maxRetries + 1 ==>
                  StepKey(i, s, cfg.maxRetries) in sys'.dead && forall j: nat | j < s :: CompKey(i, j) in sys'.stored)
    decreases m
  {
    hide Inv, Act;
    if m > 0 {
      FailureCompensates(cfg, sys, i, s, m - 1);
      var before := Fail(cfg, sys, i, s, m - 1);
      var k := StepKey(i, s, m - 1);
      ContextFits(cfg, before, k);
      FailureMovesOn(cfg, before, k);
      ActKeepsInv(cfg, before, Handle(k, Failed, NONE));
      ActExtends(cfg, before, Handle(k, Failed, NONE));
    }
  }
}
