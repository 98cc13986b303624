/** Every write is decided on an observation taken after the previous write (executor.rs). */
module Freshness {
  import opened Wrappers
  import opened OrderedMaps
  import opened Values
  import opened Schemas
  import opened Plan
  import opened Executor

  /** The newest observation that no write has outdated. */
  ghost function Latest(log: Log): Option<Observation> {
    if log == [] then None
    else
      var last := log[|log| - 1];
      if last.Wrote? then None
      else if last.Observed? && last.answer.Success? then Some(last.answer.value)
      else Latest(log[..|log| - 1])
  }

  /** The newest observation is an answer in the log with no write after it. */
  lemma {:induction false} LatestWasObserved(log: Log) returns (m: nat)
    requires Latest(log).Some?
    ensures m < |log| && log[m] == Observed(Success(Latest(log).value))
    ensures forall k | m < k < |log| :: !log[k].Wrote?
  {
    var last := |log| - 1;
    if log[last].Observed? && log[last].answer.Success? {
      m := last;
    } else {
      m := LatestWasObserved(log[..last]);
    }
  }

  lemma LatestAfter(log: Log, event: Event)
    ensures Latest(log + [event]) ==
            if event.Wrote? then None
            else if event.Observed? && event.answer.Success? then Some(event.answer.value)
            else Latest(log)
  {
    assert (log + [event])[..|log|] == log;
  }

  /** The cached observation of an apply run is never outdated. */
  ghost predicate Cached(p: Progress) {
    p.current.Some? ==> Latest(p.log) == p.current
  }

  /** Neither dependencies nor cancellation keep an operation from being looked at. */
  ghost predicate Attempted(job: Job, start: Progress, eligible: seq<bool>, i: nat)
    requires i < |job.diff.operations| && i < |eligible|
  {
    && !Malformed(job.diff.operations[i], i)
    && Blockers(job.diff.operations[i].dependsOn, eligible) == []
    && !Poll(job, start).0
  }

  /** The decision that let a write through, on the newest observation. */
  ghost predicate Justified(job: Job, i: nat, eligible: seq<bool>, start: Progress, before: Log, kind: OperationKind)
    requires i < |job.diff.operations| && i < |eligible|
  {
    && Attempted(job, start, eligible, i)
    && Decode(job.diff.operations[i].kind, job.schema) == Success(Some(kind))
    && Latest(before).Some?
    && Observe(job, Poll(job, start).1).0 == Success(Latest(before).value)
    && Decide(job, i, eligible, start.groups, Latest(before).value, Some(kind)).0.Proceed?
    && before != []
    && before[|before| - 1] == Polled(false)
  }

  /** A log grows by the events of one operation: its polls are answers and its writes justified. */
  ghost predicate Grows(job: Job, i: nat, eligible: seq<bool>, start: Progress, earlier: Log, later: Log)
    requires i < |job.diff.operations| && i < |eligible|
  {
    && earlier <= later
    && (forall k | |earlier| <= k < |later| && later[k].Polled? :: later[k].cancelled == job.env.cancelled(k))
    && forall k | |earlier| <= k < |later| && later[k].Wrote? ::
         && !job.preview
         && later[k].index == i
         && later[k].target == job.diff.operations[i].target
         && Justified(job, i, eligible, start, later[..k], later[k].kind)
  }

  lemma GrowsBy(job: Job, i: nat, eligible: seq<bool>, start: Progress, log: Log, event: Event)
    requires i < |job.diff.operations| && i < |eligible|
    requires event.Polled? ==> event.cancelled == job.env.cancelled(|log|)
    requires event.Wrote? ==>
               && !job.preview
               && event.index == i
               && event.target == job.diff.operations[i].target
               && Justified(job, i, eligible, start, log, event.kind)
    ensures Grows(job, i, eligible, start, log, log + [event])
  {
    assert (log + [event])[..|log|] == log;
  }

  lemma GrowsTwice(job: Job, i: nat, eligible: seq<bool>, start: Progress, a: Log, b: Log, c: Log)
    requires i < |job.diff.operations| && i < |eligible|
    requires Grows(job, i, eligible, start, a, b) && Grows(job, i, eligible, start, b, c)
    ensures Grows(job, i, eligible, start, a, c)
  {
    forall k | |a| <= k < |c| && c[k].Polled? ensures c[k].cancelled == job.env.cancelled(k) {
      if k < |b| {
        assert b[k] == c[k];
      }
    }
    forall k | |a| <= k < |c| && c[k].Wrote?
      ensures !job.preview && c[k].index == i && c[k].target == job.diff.operations[i].target
      ensures Justified(job, i, eligible, start, c[..k], c[k].kind)
    {
      if k < |b| {
        assert b[..k] == c[..k] && b[k] == c[k];
      }
    }
  }

  lemma ConfirmGrows(job: Job, p: Progress, eligible: seq<bool>, i: nat, kind: OperationKind,
                     predicted: DeviceObservation, start: Progress)
    requires i < |job.diff.operations| && i < |eligible| && p.current.None?
    ensures var next := Confirm(job, p, eligible, i, kind, predicted).1;
            Cached(next) && Grows(job, i, eligible, start, p.log, next.log)
  {
    var event := Observed(job.env.inventory(|p.log|));
    LatestAfter(p.log, event);
    GrowsBy(job, i, eligible, start, p.log, event);
  }

  /** What Act is asked to carry out was decided on the newest observation. */
  ghost predicate Decided(job: Job, p: Progress, eligible: seq<bool>, i: nat, start: Progress,
                          observation: Observation, kind: OperationKind)
    requires i < |job.diff.operations| && i < |eligible|
  {
    && Attempted(job, start, eligible, i)
    && Latest(p.log) == Some(observation)
    && Observe(job, Poll(job, start).1).0 == Success(observation)
    && Decode(job.diff.operations[i].kind, job.schema) == Success(Some(kind))
    && Decide(job, i, eligible, start.groups, observation, Some(kind)).0.Proceed?
  }

  lemma ApplyWriteGrows(job: Job, p: Progress, eligible: seq<bool>, i: nat, observation: Observation,
                        device: DeviceObservation, kind: OperationKind, start: Progress)
    requires i < |job.diff.operations| && i < |eligible|
    requires !job.preview && p.current == Some(observation) && Decided(job, p, eligible, i, start, observation, kind)
    ensures var next := ApplyWrite(job, p, eligible, i, device, kind).1;
            Cached(next) && Grows(job, i, eligible, start, p.log, next.log)
  {
    var polled := Poll(job, p).1;
    LatestAfter(p.log, polled.log[|p.log|]);
    GrowsBy(job, i, eligible, start, p.log, polled.log[|p.log|]);
    if !Poll(job, p).0 {
      var written := SubmitWrite(job, polled, i, kind).1;
      GrowsBy(job, i, eligible, start, polled.log, written.log[|polled.log|]);
      GrowsTwice(job, i, eligible, start, p.log, polled.log, written.log);
      if SubmitWrite(job, polled, i, kind).0.None? {
        var (now, timed) := ReadClock(job, written);
        GrowsBy(job, i, eligible, start, written.log, timed.log[|written.log|]);
        GrowsTwice(job, i, eligible, start, p.log, written.log, timed.log);
        var predicted := Project(Rebase(device, now), kind);
        ConfirmGrows(job, timed, eligible, i, kind, predicted, start);
        GrowsTwice(job, i, eligible, start, p.log, timed.log, Confirm(job, timed, eligible, i, kind, predicted).1.log);
      }
    }
  }

  lemma PreviewWriteGrows(job: Job, p: Progress, eligible: seq<bool>, i: nat, observation: Observation, position: nat,
                          kind: OperationKind, start: Progress)
    requires i < |job.diff.operations| && i < |eligible| && position < |observation.devices|
    ensures Grows(job, i, eligible, start, p.log, PreviewWrite(job, p, i, observation, position, kind).1.log)
  {
    GrowsBy(job, i, eligible, start, p.log, Timed(job.env.now(|p.log|)));
  }

  lemma PerformGrows(job: Job, p: Progress, start: Progress, eligible: seq<bool>, i: nat,
                     decoded: Option<OperationKind>)
    requires i < |job.diff.operations| && i < |eligible|
    requires p == Poll(job, start).1 && Attempted(job, start, eligible, i)
    requires job.preview || Cached(p)
    requires Decode(job.diff.operations[i].kind, job.schema) == Success(decoded)
    ensures var next := Perform(job, p, eligible, i, decoded).1;
            && (job.preview || Cached(next))
            && Grows(job, i, eligible, start, p.log, next.log)
  {
    hide Decide, Attempted, Grows, Decode;
    var (answer, observed) := Observe(job, p);
    if p.current.None? {
      LatestAfter(p.log, Observed(answer));
      GrowsBy(job, i, eligible, start, p.log, Observed(answer));
    }
    if answer.Success? {
      var observation := answer.value;
      var (decision, groups) := Decide(job, i, eligible, observed.groups, observation, decoded);
      var decided := observed.(groups := groups);
      if decision.Proceed? {
        ProceedsWithDecoded(job, i, eligible, observed.groups, observation, decoded);
        if job.preview {
          PreviewWriteGrows(job, decided, eligible, i, observation, decision.position, decision.kind, start);
        } else {
          ApplyWriteGrows(job, decided, eligible, i, observation, observation.devices[decision.position],
                          decision.kind, start);
        }
      }
      GrowsTwice(job, i, eligible, start, p.log, decided.log,
                 Act(job, decided, eligible, i, observation, decision).1.log);
    }
  }

  lemma ProceedsWithDecoded(job: Job, i: nat, eligible: seq<bool>, groups: Groups, observation: Observation,
                            decoded: Option<OperationKind>)
    requires i < |job.diff.operations| && i < |eligible|
    requires Decide(job, i, eligible, groups, observation, decoded).0.Proceed?
    ensures decoded == Some(Decide(job, i, eligible, groups, observation, decoded).0.kind)
  {
  }

  lemma AttemptGrows(job: Job, p: Progress, eligible: seq<bool>, i: nat)
    requires i < |job.diff.operations| == |eligible|
    requires job.preview || Cached(p)
    ensures var next := Attempt(job, p, eligible, i).1;
            && (job.preview || Cached(next))
            && Grows(job, i, eligible, p, p.log, next.log)
  {
    var (cancelled, polled) := Poll(job, p);
    LatestAfter(p.log, Polled(cancelled));
    GrowsBy(job, i, eligible, p, p.log, Polled(cancelled));
    var decoded := Decode(job.diff.operations[i].kind, job.schema);
    if Attempted(job, p, eligible, i) && decoded.Success? {
      PerformGrows(job, polled, p, eligible, i, decoded.value);
      GrowsTwice(job, i, eligible, p, p.log, polled.log, Perform(job, polled, eligible, i, decoded.value).1.log);
    }
  }

  // ---------------------------------------------------------------- whole runs

  lemma {:induction false} RunIsCached(job: Job, n: nat)
    requires n <= |job.diff.operations|
    ensures job.preview || Cached(RunTo(job, n).progress)
  {
    hide Attempt;
    if n > 0 {
      var before := RunTo(job, n - 1);
      RunIsCached(job, n - 1);
      AttemptGrows(job, before.progress, EligibleAfter(job.diff, before.verdicts), n - 1);
    }
  }

  lemma LogGrows(job: Job, n: nat)
    requires n < |job.diff.operations|
    ensures var before := RunTo(job, n);
            Grows(job, n, EligibleAfter(job.diff, before.verdicts), before.progress,
                  before.progress.log, RunTo(job, n + 1).progress.log)
  {
    var before := RunTo(job, n);
    RunIsCached(job, n);
    AttemptGrows(job, before.progress, EligibleAfter(job.diff, before.verdicts), n);
  }

  lemma {:induction false} LogIsPrefix(job: Job, m: nat, n: nat)
    requires m <= n <= |job.diff.operations|
    ensures RunTo(job, m).progress.log <= RunTo(job, n).progress.log
    decreases n
  {
    hide Attempt;
    if m < n {
      LogIsPrefix(job, m, n - 1);
      LogGrows(job, n - 1);
    }
  }

  /** A write of a run was decided by its operation, on what the run knew at that operation. */
  lemma {:induction false} WritesAreJustified(job: Job, n: nat, k: nat)
    requires n <= |job.diff.operations| && k < |RunTo(job, n).progress.log|
    requires RunTo(job, n).progress.log[k].Wrote?
    ensures var log := RunTo(job, n).progress.log;
            var i := log[k].index;
            && !job.preview
            && i < n
            && log[k].target == job.diff.operations[i].target
            && |RunTo(job, i).progress.log| <= k < |RunTo(job, i + 1).progress.log|
            && Justified(job, i, EligibleAfter(job.diff, RunTo(job, i).verdicts), RunTo(job, i).progress,
                         log[..k], log[k].kind)
  {
    hide Attempt, Decide, Decode;
    var before, log := RunTo(job, n - 1), RunTo(job, n).progress.log;
    LogGrows(job, n - 1);
    if k < |before.progress.log| {
      WritesAreJustified(job, n - 1, k);
      assert before.progress.log[..k] == log[..k];
      LogIsPrefix(job, log[k].index + 1, n);
    }
  }

  lemma JustifiedTarget(job: Job, i: nat, eligible: seq<bool>, start: Progress, before: Log, kind: OperationKind)
    returns (position: nat)
    requires i < |job.diff.operations| && i < |eligible|
    requires Justified(job, i, eligible, start, before, kind)
    ensures var observation, target := Latest(before).value, job.diff.operations[i].target;
            && position < |observation.devices|
            && observation.devices[position].identity == target
            && target.namespace == job.env.namespace
            && target.deviceType == ETHERNET
            && ValidWrite(kind, job.schema)
  {
    position := Locate(Latest(before).value, job.diff.operations[i].target, job.env.namespace).value;
    DecodedKindsAreValid(job.diff.operations[i].kind, kind, job.schema);
  }

  /**
   Freshness: every write was decided on an inventory taken after the previous
   write, in which the target with its full identity is an Ethernet device of the
   backend's namespace, and its kind is decoded and valid.
   */
  lemma WritesAreFresh(job: Job, k: nat) returns (m: nat, position: nat)
    requires k < |Run(job).progress.log| && Run(job).progress.log[k].Wrote?
    ensures var log := Run(job).progress.log;
            && m < k
            && log[m].Observed? && log[m].answer.Success?
            && (forall j | m < j < k :: !log[j].Wrote?)
            && position < |log[m].answer.value.devices|
            && log[m].answer.value.devices[position].identity == log[k].target
            && log[k].target.namespace == job.env.namespace
            && log[k].target.deviceType == ETHERNET
            && log[k].index < |job.diff.operations|
            && log[k].target == job.diff.operations[log[k].index].target
            && ValidWrite(log[k].kind, job.schema)
  {
    hide RunTo, Decide, Decode, ValidWrite;
    var log := Run(job).progress.log;
    WritesAreJustified(job, |job.diff.operations|, k);
    var i := log[k].index;
    m := LatestWasObserved(log[..k]);
    position := JustifiedTarget(job, i, EligibleAfter(job.diff, RunTo(job, i).verdicts),
                                RunTo(job, i).progress, log[..k], log[k].kind);
  }

  /** A kind the transport accepts, with a value the schema or the kernel accepts. */
  ghost predicate ValidWrite(kind: OperationKind, schema: ValidatedRegistry) {
    match kind
    case SetMtu(mtu) => ValidateWritable(schema, NewState(Kernel).(fields := [Entry("mtu", U64(mtu))])) == []
    case SetEnabled(_) => true
    case AddIpv4(address) => address.Validate().None?
    case ReplaceIpv4(address) => address.Validate().None?
    case RemoveIpv4(address) => address.prefixLen <= 32
    case _ => false
  }

  lemma DecodedKindsAreValid(kind: OperationKind, decoded: OperationKind, schema: ValidatedRegistry)
    requires Decode(kind, schema) == Success(Some(decoded))
    ensures ValidWrite(decoded, schema)
    ensures kind.Addresses() ==> decoded == kind
    ensures decoded.Addresses() ==> decoded == kind
  {
  }

  /** A preview submits no write. */
  lemma PreviewNeverWrites(job: Job, k: nat)
    requires job.preview && k < |Run(job).progress.log|
    ensures !Run(job).progress.log[k].Wrote?
  {
    if Run(job).progress.log[k].Wrote? {
      WritesAreJustified(job, |job.diff.operations|, k);
    }
  }

  // ---------------------------------------------------------------- cancellation

  /** What the log records about cancellation is what the environment answered. */
  ghost predicate PollsAreAnswers(job: Job, log: Log) {
    forall k | 0 <= k < |log| && log[k].Polled? :: log[k].cancelled == job.env.cancelled(k)
  }

  lemma {:induction false} RunRecordsPolls(job: Job, n: nat)
    requires n <= |job.diff.operations|
    ensures PollsAreAnswers(job, RunTo(job, n).progress.log)
  {
    hide Attempt;
    if n > 0 {
      var before, log := RunTo(job, n - 1).progress.log, RunTo(job, n).progress.log;
      RunRecordsPolls(job, n - 1);
      LogGrows(job, n - 1);
      forall k | 0 <= k < |log| && log[k].Polled? ensures log[k].cancelled == job.env.cancelled(k) {
        if k < |before| {
          assert before[k] == log[k];
        }
      }
    }
  }

  /** Every write directly follows a poll that said the plan goes on. */
  lemma WritesFollowAPoll(job: Job, k: nat)
    requires k < |Run(job).progress.log| && Run(job).progress.log[k].Wrote?
    ensures k > 0 && Run(job).progress.log[k - 1] == Polled(false) && !job.env.cancelled(k - 1)
  {
    var log := Run(job).progress.log;
    WritesAreJustified(job, |job.diff.operations|, k);
    RunRecordsPolls(job, |job.diff.operations|);
    assert log[..k][k - 1] == log[k - 1];
  }

  /** An operation whose first poll is answered with cancellation neither succeeds nor is satisfied. */
  lemma CancelledAttempt(job: Job, p: Progress, eligible: seq<bool>, i: nat)
    requires i < |job.diff.operations| == |eligible| && job.env.cancelled(|p.log|)
    ensures !Attempt(job, p, eligible, i).0.Unblocks()
  {
    hide Perform, Decode;
  }

  /** After cancellation for good, nothing is submitted and no operation succeeds or is satisfied. */
  lemma CancellationIsFinal(job: Job, from: nat)
    requires forall t | t >= from :: job.env.cancelled(t)
    ensures forall k | from < k < |Run(job).progress.log| :: !Run(job).progress.log[k].Wrote?
    ensures forall i | 0 <= i < |job.diff.operations| && |RunTo(job, i).progress.log| >= from ::
              !RunTo(job, i + 1).verdicts[i].Unblocks()
  {
    hide Attempt;
    forall k | from < k < |Run(job).progress.log| ensures !Run(job).progress.log[k].Wrote? {
      if Run(job).progress.log[k].Wrote? {
        WritesFollowAPoll(job, k);
      }
    }
    forall i | 0 <= i < |job.diff.operations| && |RunTo(job, i).progress.log| >= from
      ensures !RunTo(job, i + 1).verdicts[i].Unblocks()
    {
      CancelledAttempt(job, RunTo(job, i).progress, EligibleAfter(job.diff, RunTo(job, i).verdicts), i);
    }
  }
}
