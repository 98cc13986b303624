/** A verified address write reached the plan's incarnation of the link and was seen there (executor.rs, linux.rs). */
module VerifiedIncarnations {
  import opened Wrappers
  import opened Plan
  import opened Lifetimes
  import opened Executor
  import opened Freshness
  import opened VerifiedWrites
  import opened IdentityProtocol
  import opened ConfirmedWrites

  /** The step ends an inventory that returns the token. */
  ghost predicate HandsOut(s: System, step: Step, e: Exposure) {
    Enabled(s, step) && step.Finish? && e in Returned(s)
  }

  /** The step ends an inventory that returns the tokens of all observed devices. */
  ghost predicate Answers(s: System, step: Step, observation: Observation) {
    && Enabled(s, step) && step.Finish?
    && forall device | device in observation.devices :: exists e :: HandsOut(s, step, e) && Names(device.identity, e)
  }

  predicate Names(identity: InterfaceId, e: Exposure) {
    e.index == identity.index && e.generation == identity.generation
  }

  /** The step takes in the answer to a write that was confirmed for the target. */
  ghost predicate Acknowledges(s: System, step: Step, target: InterfaceId) {
    && Enabled(s, step) && step.Deliver?
    && s.phase.AwaitWrite? && s.phase.index == target.index && s.phase.generation == target.generation
    && Do(s, step).phase.Idle?
  }

  /** The exchanges of a log, in order, are those of a transport. */
  ghost predicate Carried(log: Log, at: seq<nat>, states: seq<System>, steps: seq<Step>) {
    && Behaviour(states, steps)
    && |at| == |log|
    && (forall t, u | 0 <= t <= u < |at| :: at[t] <= at[u])
    && forall t | 0 <= t < |log| :: Exchanged(log[t], at[t], states, steps)
  }

  ghost predicate Exchanged(event: Event, k: nat, states: seq<System>, steps: seq<Step>)
    requires |states| == |steps| + 1
  {
    match event
    case Observed(Success(observation)) => k < |steps| && Answers(states[k], steps[k], observation)
    case Wrote(_, target, _, None) => k < |steps| && Acknowledges(states[k], steps[k], target)
    case _ => true
  }

  lemma BehaviourLength(states: seq<System>, steps: seq<Step>)
    requires Behaviour(states, steps)
    ensures |states| == |steps| + 1
  {
  }

  lemma StepsFollow(states: seq<System>, steps: seq<Step>, k: nat)
    requires Behaviour(states, steps) && k < |steps|
    ensures |states| == |steps| + 1 && Enabled(states[k], steps[k]) && states[k + 1] == Do(states[k], steps[k])
  {
  }

  /** Two inventories that return one token return it for one incarnation. */
  lemma SameIncarnation(states: seq<System>, steps: seq<Step>, k: nat, n: nat, e: Exposure, plan: Exposure)
    requires Behaviour(states, steps) && k < |steps| && n < |states|
    requires HandsOut(states[k], steps[k], e)
    requires plan in states[n].exposed && plan.generation == e.generation
    ensures e == plan
  {
    hide Behaviour, Enabled, Returned;
    StepsFollow(states, steps, k);
    var last := if k + 1 < n then n else k + 1;
    HistoryGrows(states, steps, k + 1, last);
    HistoryGrows(states, steps, n, last);
    TokensNeverAlias(states, steps, last, e, plan);
  }

  /** A write that was answered, and whose token a later inventory returns, reached what that inventory shows. */
  lemma AnsweredAndReturned(states: seq<System>, steps: seq<Step>, w: nat, v: nat, target: InterfaceId, plan: Exposure)
    returns (landing: Landing)
    requires Behaviour(states, steps) && w <= v < |steps|
    requires Acknowledges(states[w], steps[w], target) && Names(target, plan)
    requires HandsOut(states[v], steps[v], plan)
    ensures landing in states[w].landed && LandedOn(landing, target, plan)
  {
    hide Behaviour, Enabled, Returned;
    StepsFollow(states, steps, w);
    landing := AnsweredWritesLanded(states, steps, w);
    HistoryGrows(states, steps, w, w + 1);
    ReturnedTokensWereReached(states, steps, w + 1, v, landing, plan);
  }

  /** The write for the target reached the incarnation. */
  ghost predicate LandedOn(landing: Landing, target: InterfaceId, e: Exposure) {
    && landing.write.index == target.index && landing.write.generation == target.generation
    && landing.reached == Some(e.incarnation)
  }

  lemma ReobservedOnItsIncarnation(states: seq<System>, steps: seq<Step>, w: nat, v: nat, n: nat,
                                   observation: Observation, device: DeviceObservation, plan: Exposure)
    returns (landing: Landing)
    requires Behaviour(states, steps) && w <= v < |steps| && n < |states|
    requires Acknowledges(states[w], steps[w], device.identity)
    requires Answers(states[v], steps[v], observation) && device in observation.devices
    requires plan in states[n].exposed && Names(device.identity, plan)
    ensures landing in states[w].landed && LandedOn(landing, device.identity, plan)
    ensures HandsOut(states[v], steps[v], plan)
  {
    hide Behaviour, Enabled, Returned, Acknowledges, HandsOut, LandedOn;
    BehaviourLength(states, steps);
    var e :| HandsOut(states[v], steps[v], e) && Names(device.identity, e);
    SameIncarnation(states, steps, v, n, e, plan);
    landing := AnsweredAndReturned(states, steps, w, v, device.identity, plan);
  }

  /** The event shows the effect of an operation on its target. */
  ghost predicate ShowsEffect(event: Event, op: Operation, now: Instant, device: DeviceObservation)
    requires op.kind.Addresses()
  {
    && event.Observed? && event.answer.Success? && device in event.answer.value.devices
    && device.identity == op.target && EffectShown(op.kind, device, Since(device.observedAt, now))
  }

  lemma SuccessIsWrittenAndShown(job: Job, i: nat) returns (w: nat, now: Instant, actual: DeviceObservation)
    requires i < |job.diff.operations| && !job.preview
    requires Run(job).verdicts[i].Succeeded? && job.diff.operations[i].kind.Addresses()
    ensures var log, op := Run(job).progress.log, job.diff.operations[i];
            && w + 2 < |log| && log[w] == Wrote(i, op.target, op.kind, None)
            && ShowsEffect(log[w + 2], op, now, actual)
  {
    hide RunTo, Established, EffectShown;
    var device, kind;
    device, kind, now, actual := SuccessIsVerified(job, i);
    LogIsPrefix(job, i + 1, |job.diff.operations|);
    w := |RunTo(job, i + 1).progress.log| - 3;
  }

  /**
   End to end: when the exchanges of a run are those of a transport and the plan's
   target was returned by some inventory, an address operation reported as succeeded
   was carried out on the very incarnation of the link that inventory saw, and its
   effect was verified on a later inventory that returns that same incarnation.
   */
  lemma SuccessIsOnItsIncarnation(job: Job, i: nat, at: seq<nat>, states: seq<System>, steps: seq<Step>, n: nat,
                                  plan: Exposure)
    returns (w: nat, landing: Landing, now: Instant, actual: DeviceObservation)
    requires i < |job.diff.operations| && !job.preview
    requires Run(job).verdicts[i].Succeeded? && job.diff.operations[i].kind.Addresses()
    requires Carried(Run(job).progress.log, at, states, steps)
    requires n < |states| && plan in states[n].exposed && Names(job.diff.operations[i].target, plan)
    ensures var log, op := Run(job).progress.log, job.diff.operations[i];
            && w + 2 < |log| && log[w] == Wrote(i, op.target, op.kind, None)
            && ShowsEffect(log[w + 2], op, now, actual)
            && at[w] <= at[w + 2] < |steps|
            && landing in states[at[w]].landed && LandedOn(landing, op.target, plan)
            && HandsOut(states[at[w + 2]], steps[at[w + 2]], plan)
  {
    hide RunTo, Behaviour, EffectShown, Acknowledges, HandsOut, LandedOn, Names;
    w, now, actual := SuccessIsWrittenAndShown(job, i);
    var log, v := Run(job).progress.log, w + 2;
    BehaviourLength(states, steps);
    assert Exchanged(log[w], at[w], states, steps);
    assert Exchanged(log[v], at[v], states, steps);
    landing := ReobservedOnItsIncarnation(states, steps, at[w], at[v], n, log[v].answer.value, actual, plan);
  }
}
