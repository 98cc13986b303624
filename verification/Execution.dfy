/**
 The executor as the program runs it: fields updated step by step, loops over the
 plan, and one outside world. Every method is proved against the functions of
 module Executor, which the theorems about runs speak of.
 */
module Execution {
  import opened Wrappers
  import opened Plan
  import opened Lifetimes
  import opened Report
  import opened Executor
  import opened Reports

  /** The transport, the clock and the cancellation flag, with a record of what they were asked. */
  class World {
    const env: Environment
    var log: Log

    constructor (env: Environment)
      ensures this.env == env && log == []
    {
      this.env := env;
      log := [];
    }

    method Cancelled() returns (answer: bool)
      modifies this
      ensures answer == env.cancelled(|old(log)|) && log == old(log) + [Polled(answer)]
    {
      answer := env.cancelled(|log|);
      log := log + [Polled(answer)];
    }

    method Now() returns (now: Instant)
      modifies this
      ensures now == env.now(|old(log)|) && log == old(log) + [Timed(now)]
    {
      now := env.now(|log|);
      log := log + [Timed(now)];
    }

    method Inventory() returns (answer: Result<Observation, BackendErrorKind>)
      modifies this
      ensures answer == env.inventory(|old(log)|) && log == old(log) + [Observed(answer)]
    {
      answer := env.inventory(|log|);
      log := log + [Observed(answer)];
    }

    method Execute(index: nat, target: InterfaceId, kind: OperationKind) returns (error: Option<BackendErrorKind>)
      modifies this
      ensures error == env.execute(|old(log)|) && log == old(log) + [Wrote(index, target, kind, error)]
    {
      error := env.execute(|log|);
      log := log + [Wrote(index, target, kind, error)];
    }
  }

  /** Rebase the lifetimes of a device's addresses, one entry after the other. */
  method RebaseLifetimes(device: DeviceObservation, now: Instant) returns (rebased: DeviceObservation)
    ensures rebased == Rebase(device, now)
  {
    var elapsed := WholeSeconds(Since(now, device.observedAt));
    var entries := device.addresses;
    for i := 0 to |entries|
      invariant |entries| == |device.addresses|
      invariant forall k | 0 <= k < i :: entries[k] == RebaseEntry(device.addresses[k], elapsed)
      invariant forall k | i <= k < |entries| :: entries[k] == device.addresses[k]
    {
      var entry := entries[i];
      var preferred := Decay(entry.address.PreferredLifetime(), elapsed);
      var valid := Decay(entry.address.ValidLifetime(), elapsed);
      entry := entry.(address := entry.address.(validLft := Some(valid), preferredLft := Some(preferred)));
      if preferred == 0 {
        entry := entry.(flags := entry.flags | IFA_F_DEPRECATED);
      }
      entries := entries[i := entry];
    }
    assert entries == RebaseAddresses(device.addresses, elapsed);
    rebased := device.(addresses := entries, observedAt := now);
  }

  lemma StartOfRun(job: Job)
    ensures RunTo(job, 0) == Stage(START, [])
    ensures ReportOf(job.diff, []) == ApplyReport([], [], [])
    ensures EligibleAfter(job.diff, []) == seq(|job.diff.operations|, _ => false)
  {
  }

  lemma NextEligible(diff: StateDiff, before: seq<Verdict>, verdict: Verdict)
    requires |before| < |diff.operations|
    ensures EligibleAfter(diff, before + [verdict]) ==
            if verdict.Unblocks() then EligibleAfter(diff, before)[|before| := true] else EligibleAfter(diff, before)
  {
  }

  /** How one attempt extends the stage, the report and the eligibility vector. */
  lemma NextStage(job: Job, index: nat, before: seq<Verdict>, verdict: Verdict)
    requires index < |job.diff.operations| && before == RunTo(job, index).verdicts
    requires verdict == Executor.Attempt(job, RunTo(job, index).progress, EligibleAfter(job.diff, before), index).0
    ensures RunTo(job, index + 1) ==
            Stage(Executor.Attempt(job, RunTo(job, index).progress, EligibleAfter(job.diff, before), index).1,
                  before + [verdict])
    ensures ReportOf(job.diff, before + [verdict]) == Reported(job.diff, ReportOf(job.diff, before), index, verdict)
    ensures EligibleAfter(job.diff, before + [verdict]) ==
            if verdict.Unblocks() then EligibleAfter(job.diff, before)[index := true]
            else EligibleAfter(job.diff, before)
  {
    hide Executor.Attempt, Reported, EligibleAfter;
    assert (before + [verdict])[..index] == before;
    NextEligible(job.diff, before, verdict);
  }

  lemma AwaitedOfNone(diff: StateDiff, index: nat, target: InterfaceId, eligible: seq<bool>,
                      actual: seq<AddressObservation>)
    requires index < |diff.operations| && index < |eligible|
    ensures Awaited(diff, index, target, eligible, [], actual) == []
  {
  }

  lemma AwaitedHead(diff: StateDiff, index: nat, target: InterfaceId, eligible: seq<bool>,
                    expected: seq<AddressObservation>, actual: seq<AddressObservation>)
    requires index < |diff.operations| && index < |eligible| && expected != []
    ensures Awaited(diff, index, target, eligible, expected, actual)
         == (if MayBeAbsent(diff, index, target, eligible, expected[0], actual) then [] else [expected[0]]) +
            Awaited(diff, index, target, eligible, expected[1..], actual)
  {
    hide MayBeAbsent;
  }

  class Execution {
    const job: Job
    const world: World
    const eligible: array<bool>
    var groups: Groups
    var current: Option<Observation>

    ghost predicate Valid()
      reads this
    {
      world.env == job.env && eligible.Length == |job.diff.operations|
    }

    ghost function State(): Progress
      reads this, world
    {
      Progress(world.log, groups, current)
    }

    constructor (job: Job, world: World)
      requires world.env == job.env
      ensures Valid() && this.job == job && this.world == world && fresh(eligible)
      ensures groups == map[] && current == None
      ensures forall i | 0 <= i < eligible.Length :: !eligible[i]
    {
      this.job := job;
      this.world := world;
      eligible := new bool[|job.diff.operations|](_ => false);
      groups := map[];
      current := None;
    }

    method Observe() returns (answer: Result<Observation, BackendErrorKind>)
      requires Valid()
      modifies this, world
      ensures Valid() && (answer, State()) == Executor.Observe(job, old(State()))
    {
      if current.Some? {
        answer := Success(current.value);
      } else {
        answer := world.Inventory();
        if answer.Success? {
          current := Some(answer.value);
        }
      }
    }

    /** Look at the snapshot of a group, adopting the operation's precondition if it is the first. */
    method ValidateGroup(op: Operation, device: DeviceObservation, kind: OperationKind)
      returns (refused: Option<BackendErrorKind>)
      modifies this`groups
      ensures (refused, groups) == Executor.ValidateGroup(op, device, kind, old(groups))
    {
      if !kind.Addresses() {
        return None;
      }
      if !device.addressesComplete {
        return Some(QueryFailed);
      }
      var named := KeyOf(op.target, kind.address);
      if named.None? {
        return Some(UnsupportedOperation);
      }
      var key := named.value;
      if op.addressGroup.Some? {
        if ForeignGuard(op, key) {
          return Some(StaleState);
        }
        if key !in groups {
          groups := groups[key := ExpectedGroup(op.addressGroup.value.addresses, op.addressGroup.value.observedAt)];
        }
      }
      if key in groups {
        if !GroupMatches(groups[key], Members(device.addresses, key), device.observedAt) {
          return Some(StaleState);
        }
      } else if (kind.RemoveIpv4? || kind.ReplaceIpv4?) && Present(device.addresses, kind.address) {
        return Some(StaleState);
      }
      return None;
    }

    /** Fill in which later operations can still run, then look for one that removes the address. */
    method RemovalIsCovered(index: nat, target: InterfaceId, address: Ipv4Address) returns (covered: bool)
      requires Valid() && index < |job.diff.operations|
      ensures covered == Executor.RemovalIsCovered(job.diff, index, target, address, eligible[..])
    {
      var operations := job.diff.operations;
      var runnable := eligible[..index] + [true];
      for position := index + 1 to |operations|
        invariant runnable == Runnable(job.diff, index, eligible[..], position)
      {
        runnable := runnable + [AllHold(operations[position].dependsOn, runnable)];
      }
      for position := index + 1 to |operations|
        invariant forall k | index < k < position ::
                    !(&& runnable[k]
                      && operations[k].target == target
                      && operations[k].kind.RemoveIpv4?
                      && address.SameIdentity(operations[k].kind.address))
      {
        var op := operations[position];
        if runnable[position] && op.target == target && op.kind.RemoveIpv4? && address.SameIdentity(op.kind.address) {
          return true;
        }
      }
      return false;
    }

    method CheckCascade(index: nat, device: DeviceObservation, kind: OperationKind) returns (refused: bool)
      requires Valid() && index < |job.diff.operations|
      ensures refused == CascadeRefused(job.diff, index, device, kind, eligible[..])
    {
      if !kind.RemoveIpv4? {
        return false;
      }
      var found := FindPrimary(device.addresses, kind.address);
      if found.None? {
        return false;
      }
      for i := 0 to |device.addresses|
        invariant forall k | 0 <= k < i ::
                    !Endangers(job.diff, index, device.identity, kind.address, found.value, device.addresses[k],
                               eligible[..])
      {
        var secondary := device.addresses[i];
        if Exposed(found.value, secondary) {
          if secondary.address.Group() != kind.address.Group() {
            assert Endangers(job.diff, index, device.identity, kind.address, found.value, secondary, eligible[..]);
            return true;
          }
          var covered := RemovalIsCovered(index, device.identity, secondary.address);
          if !covered {
            assert Endangers(job.diff, index, device.identity, kind.address, found.value, secondary, eligible[..]);
            return true;
          }
        }
      }
      return false;
    }

    /** The members a removal leaves to be awaited, keeping each one that is not excused. */
    method RetainAwaited(index: nat, expected: seq<AddressObservation>, actual: seq<AddressObservation>)
      returns (awaited: seq<AddressObservation>)
      requires Valid() && index < |job.diff.operations|
      ensures awaited == Awaited(job.diff, index, job.diff.operations[index].target, eligible[..], expected, actual)
    {
      hide MayBeAbsent, Awaited;
      var target := job.diff.operations[index].target;
      awaited := [];
      AwaitedOfNone(job.diff, index, target, eligible[..], actual);
      for i := 0 to |expected|
        invariant awaited + Awaited(job.diff, index, target, eligible[..], expected[i..], actual)
               == Awaited(job.diff, index, target, eligible[..], expected, actual)
      {
        var excused := IsExcused(index, expected[i], actual);
        if !excused {
          awaited := awaited + [expected[i]];
        }
        assert expected[i..][1..] == expected[i + 1..];
        AwaitedHead(job.diff, index, target, eligible[..], expected[i..], actual);
      }
      assert expected[|expected|..] == [];
    }

    method IsExcused(index: nat, entry: AddressObservation, actual: seq<AddressObservation>) returns (excused: bool)
      requires Valid() && index < |job.diff.operations|
      ensures excused == MayBeAbsent(job.diff, index, job.diff.operations[index].target, eligible[..], entry, actual)
    {
      hide Executor.RemovalIsCovered;
      excused := false;
      if !Present(actual, entry.address) && entry.Secondary() {
        excused := RemovalIsCovered(index, job.diff.operations[index].target, entry.address);
      }
    }

    method VerifyAddressWrite(index: nat, kind: OperationKind, predicted: DeviceObservation)
      returns (verified: Result<DeviceObservation, BackendErrorKind>)
      requires Valid() && index < |job.diff.operations| && kind.Addresses()
      modifies this`current, world
      ensures Valid() && (verified, State()) == VerifyWrite(job, old(State()), eligible[..], index, kind, predicted)
    {
      var answer := world.Inventory();
      if answer.Failure? {
        return Failure(OutcomeUnknown);
      }
      var after, target := answer.value, job.diff.operations[index].target;
      var located := Locate(after, target, job.env.namespace);
      if located.Failure? {
        return Failure(located.error);
      }
      var actual := after.devices[located.value];
      if !actual.addressesComplete {
        return Failure(OutcomeUnknown);
      }
      var named := KeyOf(target, kind.address);
      if named.None? {
        return Failure(UnsupportedOperation);
      }
      var key := named.value;
      var expected, members := Members(predicted.addresses, key), Members(actual.addresses, key);
      if kind.RemoveIpv4? {
        expected := RetainAwaited(index, expected, members);
        expected := Promote(expected, members);
      }
      if !GroupMatches(ExpectedGroup(expected, predicted.observedAt), members, actual.observedAt)
         || !OutsideSurvives(predicted.addresses, key, actual.addresses)
      {
        return Failure(StaleState);
      }
      current := Some(after);
      return Success(actual);
    }

    /** Replace the snapshot of the written group, if the group has one. */
    method AdvanceGroup(target: InterfaceId, kind: OperationKind, device: DeviceObservation) returns (verdict: Verdict)
      modifies this`groups
      ensures (verdict, State()) == Advance(old(State()), target, kind, device)
    {
      if kind.Addresses() {
        var named := KeyOf(target, kind.address);
        if named.None? {
          return Failed(UnsupportedOperation);
        }
        if named.value in groups {
          groups := groups[named.value := ExpectedGroup(Members(device.addresses, named.value), device.observedAt)];
        }
      }
      return Succeeded;
    }

    method Preview(index: nat, observation: Observation, position: nat, kind: OperationKind) returns (verdict: Verdict)
      requires Valid() && index < |job.diff.operations| && position < |observation.devices|
      requires current == Some(observation)
      modifies this, world
      ensures Valid() && (verdict, State()) == PreviewWrite(job, old(State()), index, observation, position, kind)
    {
      hide Project, Rebase;
      var now := world.Now();
      var predicted := RebaseLifetimes(observation.devices[position], now);
      predicted := Project(predicted, kind);
      current := Some(Observation(observation.devices[position := predicted]));
      verdict := AdvanceGroup(job.diff.operations[index].target, kind, predicted);
    }

    method Apply(index: nat, device: DeviceObservation, kind: OperationKind) returns (verdict: Verdict)
      requires Valid() && index < |job.diff.operations|
      modifies this, world
      ensures Valid() && (verdict, State()) == ApplyWrite(job, old(State()), eligible[..], index, device, kind)
    {
      hide Project, Rebase, Verify, Advance;
      var target := job.diff.operations[index].target;
      var cancelled := world.Cancelled();
      if cancelled {
        return Failed(ApplyFailed);
      }
      current := None;
      var error := world.Execute(index, target, kind);
      if error.Some? {
        return Failed(error.value);
      }
      var now := world.Now();
      var predicted := RebaseLifetimes(device, now);
      predicted := Project(predicted, kind);
      if kind.Addresses() {
        var verified := VerifyAddressWrite(index, kind, predicted);
        if verified.Failure? {
          return Failed(verified.error);
        }
        predicted := verified.value;
      }
      verdict := AdvanceGroup(target, kind, predicted);
    }

    method Decided(index: nat, observation: Observation, decoded: Option<OperationKind>) returns (decision: Decision)
      requires Valid() && index < |job.diff.operations|
      modifies this`groups
      ensures Valid() && (decision, groups) == Decide(job, index, eligible[..], old(groups), observation, decoded)
    {
      hide Satisfied, Locate, Executor.ValidateGroup, CascadeRefused;
      var op := job.diff.operations[index];
      var located := Locate(observation, op.target, job.env.namespace);
      if located.Failure? {
        return Refuse(located.error);
      }
      var device := observation.devices[located.value];
      if decoded.None? {
        return Leave(ReadOnly);
      }
      var kind := decoded.value;
      var refused := ValidateGroup(op, device, kind);
      if refused.Some? {
        return Refuse(refused.value);
      }
      var satisfied := Satisfied(kind, device, op);
      if satisfied.Failure? {
        return Refuse(satisfied.error);
      }
      if satisfied.value {
        return Leave(AlreadySatisfied);
      }
      var cascade := CheckCascade(index, device, kind);
      if cascade {
        return Refuse(StaleState);
      }
      return Proceed(located.value, kind);
    }

    method Step(index: nat) returns (verdict: Verdict)
      requires Valid() && index < |job.diff.operations|
      modifies this, world
      ensures Valid() && (verdict, State()) == Executor.Step(job, old(State()), eligible[..], index)
    {
      hide Decode, Decide, ApplyWrite, PreviewWrite;
      var cancelled := world.Cancelled();
      if cancelled {
        return Failed(ApplyFailed);
      }
      var kind := Decode(job.diff.operations[index].kind, job.schema);
      if kind.Failure? {
        return Failed(kind.error);
      }
      var answer := Observe();
      if answer.Failure? {
        return Failed(answer.error);
      }
      var decision := Decided(index, answer.value, kind.value);
      match decision {
        case Refuse(e) => verdict := Failed(e);
        case Leave(reason) => verdict := Skipped(reason);
        case Proceed(position, kind) =>
          if job.preview {
            verdict := Preview(index, answer.value, position, kind);
          } else {
            verdict := Apply(index, answer.value.devices[position], kind);
          }
      }
    }

    /** Attempt one operation unless its dependencies forbid it. */
    method Attempt(index: nat) returns (verdict: Verdict)
      requires Valid() && index < |job.diff.operations|
      modifies this, world
      ensures Valid() && (verdict, State()) == Executor.Attempt(job, old(State()), eligible[..], index)
    {
      hide Executor.Step;
      var op := job.diff.operations[index];
      if Malformed(op, index) {
        return Failed(UnsupportedOperation);
      }
      var blocked := Blockers(op.dependsOn, eligible[..]);
      if blocked != [] {
        return Skipped(DependencyFailed(blocked));
      }
      verdict := Step(index);
    }

    /** Run the plan in order, recording the report and the eligibility vector as it goes. */
    method Run() returns (report: ApplyReport, ghost verdicts: seq<Verdict>)
      requires Valid() && State() == START && forall i | 0 <= i < eligible.Length :: !eligible[i]
      modifies this, world, eligible
      ensures Valid() && Stage(State(), verdicts) == Executor.Run(job)
      ensures report == ReportOf(job.diff, verdicts)
      ensures eligible[..] == EligibleAfter(job.diff, verdicts)
    {
      hide Executor.Attempt, Reported, RunTo, ReportOf, EligibleAfter;
      StartOfRun(job);
      report := ApplyReport([], [], []);
      verdicts := [];
      for index := 0 to |job.diff.operations|
        invariant Valid()
        invariant Stage(State(), verdicts) == RunTo(job, index)
        invariant report == ReportOf(job.diff, verdicts)
        invariant eligible[..] == EligibleAfter(job.diff, verdicts)
      {
        ghost var before := verdicts;
        var verdict := Attempt(index);
        if verdict.Unblocks() {
          eligible[index] := true;
        }
        report := Reported(job.diff, report, index, verdict);
        verdicts := verdicts + [verdict];
        NextStage(job, index, before, verdict);
      }
    }
  }

  /** Apply a plan: the report accounts for the run the theorems are about. */
  method ApplyPlan(job: Job, world: World) returns (report: ApplyReport)
    requires !job.preview && world.env == job.env && world.log == []
    modifies world
    ensures world.log == Executor.Run(job).progress.log
    ensures report == ReportOf(job.diff, Executor.Run(job).verdicts)
  {
    var execution := new Execution(job, world);
    ghost var verdicts;
    report, verdicts := execution.Run();
  }

  /** Preview a plan: never cancelled, and reported in plan order. */
  method PreviewPlan(job: Job, world: World) returns (report: DryRunReport)
    requires job.preview && world.env == job.env && world.log == []
    requires forall t: nat :: !job.env.cancelled(t)
    modifies world
    ensures report.operations == InPlanOrder(job.diff, Executor.Run(job).verdicts)
    ensures report.IsSuccess() <==> ReportOf(job.diff, Executor.Run(job).verdicts).IsSuccess()
  {
    var execution := new Execution(job, world);
    var applied, verdicts := execution.Run();
    report := PreviewReport(applied);
    PreviewReportIsInPlanOrder(job.diff, verdicts);
  }

  /** Report a plan that an unreachable worker never ran. */
  method FailPlan(diff: StateDiff, failure: BackendErrorKind) returns (report: ApplyReport)
    ensures report == FailedReport(diff, |diff.operations|, failure)
  {
    report := ApplyReport([], [], []);
    for index := 0 to |diff.operations|
      invariant report == FailedReport(diff, index, failure)
    {
      var op, context := diff.operations[index], ContextOf(diff, index);
      if op.dependsOn == [] {
        report := report.(failed := report.failed + [FailedOperation(context, failure)]);
      } else {
        report := report.(skipped := report.skipped + [SkippedOperation(context, DependencyFailed(op.dependsOn))]);
      }
    }
  }
}
