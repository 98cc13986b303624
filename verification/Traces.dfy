/** What every operation asks of the outside world, in which order, and which verdict follows (executor.rs). */
module Traces {
  import opened Wrappers
  import opened Plan
  import opened Report
  import opened Executor
  import opened Decisions
  import opened Subsequences

  // ---------------------------------------------------------------- decisions in words

  /** What is wrong with the target, if anything. */
  ghost predicate TargetTrouble(job: Job, observation: Observation, target: InterfaceId, error: BackendErrorKind) {
    if target.namespace != job.env.namespace then error == StaleState
    else if NoneOfIndex(observation, target.index) then error == NotFound
    else exists p: nat | FirstOfIndex(observation, target.index, p) ::
      if observation.devices[p].identity != target then error == StaleState
      else target.deviceType != "ethernet" && error == UnsupportedEntityType
  }

  /** What is wrong with the prefix group, if anything. */
  ghost predicate GroupTrouble(op: Operation, device: DeviceObservation, kind: OperationKind, groups: Groups,
                               error: BackendErrorKind) {
    && kind.Addresses()
    && if !device.addressesComplete then error == QueryFailed
       else if kind.address.prefixLen > 32 then error == UnsupportedOperation
       else IsStale(op, device, kind, groups, GroupKey(op.target, kind.address.Group().value)) && error == StaleState
  }

  /** An addition over other lifetimes, a replacement of nothing. */
  ghost predicate AddressTrouble(op: Operation, device: DeviceObservation, kind: OperationKind,
                                 error: BackendErrorKind) {
    match kind
    case AddIpv4(address) =>
      error == ApplyFailed && exists e | StandsFor(device, address, e) :: !HasLifetimes(op, device, address, e)
    case ReplaceIpv4(address) => error == NotFound && !Executor.Present(device.addresses, address)
    case _ => false
  }

  /** An operation is refused for the first thing that is wrong, looked at from the target inwards. */
  ghost predicate IsRefused(job: Job, index: nat, eligible: seq<bool>, groups: Groups, observation: Observation,
                            decoded: Option<OperationKind>, error: BackendErrorKind)
    requires index < |job.diff.operations| && index < |eligible|
  {
    var op := job.diff.operations[index];
    || TargetTrouble(job, observation, op.target, error)
    || (decoded.Some? && exists p: nat | IsThere(job, observation, op.target, p) ::
          var device := observation.devices[p];
          || GroupTrouble(op, device, decoded.value, groups, error)
          || (IsAsPlanned(op, device, decoded.value, groups) &&
              (|| AddressTrouble(op, device, decoded.value, error)
               || (error == StaleState && IsMissing(op, device, decoded.value)
                   && CascadeRefused(job.diff, index, device, decoded.value, eligible)))))
  }

  ghost predicate IsSkipped(job: Job, index: nat, groups: Groups, observation: Observation,
                            decoded: Option<OperationKind>, reason: SkipReason)
    requires index < |job.diff.operations|
  {
    var op := job.diff.operations[index];
    exists p: nat | IsThere(job, observation, op.target, p) ::
      match decoded
      case None => reason == ReadOnly
      case Some(kind) =>
        var device := observation.devices[p];
        && reason == AlreadySatisfied
        && IsAsPlanned(op, device, kind, groups) && !IsMissing(op, device, kind)
        && forall error :: !AddressTrouble(op, device, kind, error)
  }

  lemma TargetTroubleMeans(job: Job, observation: Observation, target: InterfaceId)
    ensures forall error ::
              Locate(observation, target, job.env.namespace) == Failure(error)
              <==> TargetTrouble(job, observation, target, error)
    ensures forall p: nat :: Locate(observation, target, job.env.namespace) == Success(p)
                        <==> IsThere(job, observation, target, p)
  {
    hide Locate, FirstOfIndex;
    LocateMeans(observation, target, job.env.namespace);
    OneFirst(observation, target.index);
    LocateIsTotal(observation, target, job.env.namespace);
  }

  lemma OneFirst(observation: Observation, index: u32)
    ensures forall p: nat, q: nat | FirstOfIndex(observation, index, p) && FirstOfIndex(observation, index, q) :: p == q
    ensures NoneOfIndex(observation, index) ==> forall p: nat :: !FirstOfIndex(observation, index, p)
  {
    forall p: nat | FirstOfIndex(observation, index, p) ensures !NoneOfIndex(observation, index) {
      assert observation.devices[p] in observation.devices;
    }
  }

  lemma LocateIsTotal(observation: Observation, target: InterfaceId, namespace: NamespaceId)
    ensures var located := Locate(observation, target, namespace);
            located.Failure? ==> located.error in {StaleState, NotFound, UnsupportedEntityType}
  {
  }

  lemma GroupTroubleMeans(op: Operation, device: DeviceObservation, kind: OperationKind, groups: Groups)
    ensures forall error ::
              ValidateGroup(op, device, kind, groups).0 == Some(error)
              <==> GroupTrouble(op, device, kind, groups, error)
    ensures ValidateGroup(op, device, kind, groups).0 == None <==> IsAsPlanned(op, device, kind, groups)
  {
    hide ValidateGroup, IsStale, Masked, GuardsAnother, IsSnapshot;
    AdmissionMeans(op, device, kind, groups);
  }

  lemma AddressTroubleMeans(kind: OperationKind, device: DeviceObservation, op: Operation)
    ensures forall error :: Satisfied(kind, device, op) == Failure(error) <==> AddressTrouble(op, device, kind, error)
  {
    hide Satisfied, StandsFor, HasLifetimes;
    SatisfiedMeans(kind, device, op);
    if kind.AddIpv4? || kind.ReplaceIpv4? {
      StandsOnce(device, kind.address);
      PresentMeans(device, kind.address);
    }
  }

  /** The decision is a refusal, a skip, or a write, each exactly when it is said to be. */
  lemma DecisionMeans(job: Job, index: nat, eligible: seq<bool>, groups: Groups, observation: Observation,
                      decoded: Option<OperationKind>)
    requires index < |job.diff.operations| && index < |eligible|
    ensures var decision := Decide(job, index, eligible, groups, observation, decoded).0;
            && (forall error :: decision == Refuse(error) <==>
                                IsRefused(job, index, eligible, groups, observation, decoded, error))
            && (forall reason :: decision == Leave(reason) <==>
                                 IsSkipped(job, index, groups, observation, decoded, reason))
  {
    hide Locate, ValidateGroup, Satisfied, CascadeRefused, TargetTrouble, GroupTrouble, AddressTrouble, IsThere,
      IsAsPlanned, IsMissing;
    var op := job.diff.operations[index];
    TargetTroubleMeans(job, observation, op.target);
    if Locate(observation, op.target, job.env.namespace).Success? && decoded.Some? {
      var device := observation.devices[Locate(observation, op.target, job.env.namespace).value];
      GroupTroubleMeans(op, device, decoded.value, groups);
      AddressTroubleMeans(decoded.value, device, op);
      MissingMeans(decoded.value, device, op);
    }
  }

  // ---------------------------------------------------------------- verification in words

  /** The group that the re-observation has to show, and everything outside it that must survive. */
  ghost predicate ShowsExpected(job: Job, index: nat, eligible: seq<bool>, kind: OperationKind,
                                predicted: DeviceObservation, actual: DeviceObservation)
    requires index < |job.diff.operations| && index < |eligible| && kind.Addresses() && kind.address.prefixLen <= 32
  {
    var target := job.diff.operations[index].target;
    var key := GroupKey(target, kind.address.Group().value);
    var expected := ExpectedMembers(job.diff, index, kind, target, eligible, Members(predicted.addresses, key),
                                    Members(actual.addresses, key));
    && StillAsIn(ExpectedGroup(expected, predicted.observedAt), actual, key)
    && forall entry | entry in predicted.addresses && entry.address.Group() != Some(key.group) ::
         Decisions.Holds(actual, entry.address)
  }

  /** The errors of a verification, each with its condition. */
  lemma VerificationMeans(job: Job, index: nat, eligible: seq<bool>, kind: OperationKind,
                          predicted: DeviceObservation, after: Observation)
    requires index < |job.diff.operations| && index < |eligible| && kind.Addresses() && kind.address.prefixLen <= 32
    ensures var target := job.diff.operations[index].target;
            var verified := Verify(job, index, eligible, kind, predicted, after);
            && (forall error :: TargetTrouble(job, after, target, error) ==> verified == Failure(error))
            && (forall p: nat | IsThere(job, after, target, p) ::
                  var actual := after.devices[p];
                  verified == if !actual.addressesComplete then Failure(OutcomeUnknown)
                              else if ShowsExpected(job, index, eligible, kind, predicted, actual) then Success(actual)
                              else Failure(StaleState))
            && (|| (exists p: nat :: IsThere(job, after, target, p))
                || exists error :: TargetTrouble(job, after, target, error))
  {
    hide Locate, TargetTrouble, IsThere, Masked, Members, ExpectedMembers, GroupMatches, StillAsIn;
    var target := job.diff.operations[index].target;
    TargetTroubleMeans(job, after, target);
    GroupExists(kind.address);
    var located := Locate(after, target, job.env.namespace);
    if located.Success? {
      var actual := after.devices[located.value];
      var key := GroupKey(target, kind.address.Group().value);
      var expected := ExpectedMembers(job.diff, index, kind, target, eligible, Members(predicted.addresses, key),
                                      Members(actual.addresses, key));
      GroupMatchesMeans(ExpectedGroup(expected, predicted.observedAt), actual, key);
      SurvivorsMean(predicted.addresses, key, actual);
      assert IsThere(job, after, target, located.value);
    } else {
      assert TargetTrouble(job, after, target, located.error);
    }
  }

  lemma SurvivorsMean(predicted: seq<AddressObservation>, key: GroupKey, actual: DeviceObservation)
    ensures OutsideSurvives(predicted, key, actual.addresses) <==>
            forall entry | entry in predicted && entry.address.Group() != Some(key.group) ::
              Decisions.Holds(actual, entry.address)
  {
    hide Masked, Decisions.Holds, Executor.Present;
    forall entry | entry in predicted
      ensures Executor.Present(actual.addresses, entry.address) <==> Decisions.Holds(actual, entry.address)
    {
      PresentMeans(actual, entry.address);
    }
  }

  // ---------------------------------------------------------------- the course of one operation

  /** The cached observation is used; without one, an inventory is asked for. */
  ghost predicate Looks(held: Option<Observation>, read: Log, answer: Result<Observation, BackendErrorKind>) {
    match held
    case Some(observation) => read == [] && answer == Success(observation)
    case None => read == [Observed(answer)]
  }

  /** An acknowledged write of an address is looked at again; any other is taken as done. */
  ghost predicate Confirms(job: Job, index: nat, eligible: seq<bool>, kind: OperationKind,
                           predicted: DeviceObservation, events: Log, verdict: Verdict, held: Option<Observation>)
    requires index < |job.diff.operations| && index < |eligible|
  {
    if !kind.Addresses() then events == [] && verdict == Succeeded && held == None
    else
      && |events| == 1 && events[0].Observed?
      && match events[0].answer
         case Failure(_) => verdict == Failed(OutcomeUnknown) && held == None
         case Success(after) =>
           match Verify(job, index, eligible, kind, predicted, after)
           case Failure(error) => verdict == Failed(error) && held == None
           case Success(_) => verdict == Succeeded && held == Some(after)
  }

  /** What is done about a decision to write, in a run that writes. */
  ghost predicate Writes(job: Job, index: nat, eligible: seq<bool>, observation: Observation, position: nat,
                         kind: OperationKind, events: Log, verdict: Verdict, held: Option<Observation>)
    requires index < |job.diff.operations| && index < |eligible| && position < |observation.devices|
  {
    var target := job.diff.operations[index].target;
    && events != [] && events[0].Polled?
    && if events[0].cancelled then |events| == 1 && verdict == Failed(ApplyFailed) && held == Some(observation)
       else
         && |events| > 1 && events[1].Wrote?
         && events[1].index == index && events[1].target == target && events[1].kind == kind
         && if events[1].error.Some?
            then |events| == 2 && verdict == Failed(events[1].error.value) && held == None
            else
              && |events| > 2 && events[2].Timed?
              && Confirms(job, index, eligible, kind,
                          Project(Rebase(observation.devices[position], events[2].now), kind), events[3..], verdict,
                          held)
  }

  /** A preview reads the clock and puts the prediction in the place of the device. */
  ghost predicate Predicts(observation: Observation, position: nat, kind: OperationKind, events: Log,
                           verdict: Verdict, held: Option<Observation>)
    requires position < |observation.devices|
  {
    && |events| == 1 && events[0].Timed? && verdict == Succeeded
    && var predicted := Project(Rebase(observation.devices[position], events[0].now), kind);
       held == Some(Observation(observation.devices[position := predicted]))
  }

  /** From the observation on. */
  ghost predicate Acts(job: Job, index: nat, eligible: seq<bool>, groups: Groups, observation: Observation,
                       decoded: Option<OperationKind>, events: Log, verdict: Verdict, held: Option<Observation>)
    requires index < |job.diff.operations| && index < |eligible|
  {
    match Decide(job, index, eligible, groups, observation, decoded).0
    case Refuse(error) => events == [] && verdict == Failed(error) && held == Some(observation)
    case Leave(reason) => events == [] && verdict == Skipped(reason) && held == Some(observation)
    case Proceed(position, kind) =>
      if job.preview then Predicts(observation, position, kind, events, verdict, held)
      else Writes(job, index, eligible, observation, position, kind, events, verdict, held)
  }

  /** An inventory that fails is the operation's failure. */
  ghost predicate Follows(job: Job, index: nat, eligible: seq<bool>, groups: Groups,
                          answer: Result<Observation, BackendErrorKind>, decoded: Option<OperationKind>,
                          events: Log, verdict: Verdict, held: Option<Observation>)
    requires index < |job.diff.operations| && index < |eligible|
  {
    match answer
    case Failure(error) => events == [] && verdict == Failed(error) && held == None
    case Success(observation) => Acts(job, index, eligible, groups, observation, decoded, events, verdict, held)
  }

  /**
   The course of one operation whose dependencies are eligible: a poll, an
   observation, a decision; then in a preview the clock, and otherwise another
   poll, the write, the clock, and for addresses one more inventory.
   */
  ghost predicate Courses(job: Job, index: nat, eligible: seq<bool>, groups: Groups, held: Option<Observation>,
                          events: Log, verdict: Verdict, left: Option<Observation>)
    requires index < |job.diff.operations| && index < |eligible|
  {
    && events != [] && events[0].Polled?
    && if events[0].cancelled then |events| == 1 && verdict == Failed(ApplyFailed) && left == held
       else match Decode(job.diff.operations[index].kind, job.schema)
         case Failure(error) => |events| == 1 && verdict == Failed(error) && left == held
         case Success(decoded) =>
           exists read: Log, rest: Log, answer ::
             && events == [events[0]] + read + rest && Looks(held, read, answer)
             && Follows(job, index, eligible, groups, answer, decoded, rest, verdict, left)
  }

  /** Which dependencies block. */
  function Ineligible(dependencies: seq<nat>, eligible: seq<bool>): (r: seq<bool>)
    ensures |r| == |dependencies|
    ensures forall i | 0 <= i < |r| :: r[i] <==> dependencies[i] < |eligible| && !eligible[dependencies[i]]
  {
    seq(|dependencies|, i requires 0 <= i < |dependencies| =>
      dependencies[i] < |eligible| && !eligible[dependencies[i]])
  }

  lemma {:induction false} BlockersArePicked(dependencies: seq<nat>, eligible: seq<bool>)
    requires forall d | d in dependencies :: d < |eligible|
    ensures Blockers(dependencies, eligible) == Picked(dependencies, Ineligible(dependencies, eligible))
  {
    if dependencies != [] {
      var tail := dependencies[1..];
      assert dependencies[0] in dependencies && forall d | d in tail :: d in dependencies;
      BlockersArePicked(tail, eligible);
      PickedHead(dependencies, Ineligible(dependencies, eligible));
      assert Ineligible(dependencies, eligible)[1..] == Ineligible(tail, eligible);
    }
  }

  /** Nothing is asked for an operation with a wrong dependency or a blocked one, which is skipped with its blockers. */
  ghost predicate Settles(job: Job, index: nat, eligible: seq<bool>, groups: Groups, held: Option<Observation>,
                          events: Log, verdict: Verdict, left: Option<Observation>)
    requires index < |job.diff.operations| == |eligible|
  {
    var dependencies := job.diff.operations[index].dependsOn;
    if exists d | d in dependencies :: d >= index
    then events == [] && verdict == Failed(UnsupportedOperation) && left == held
    else if exists d | d in dependencies :: d < index && !eligible[d]
    then
      && events == [] && left == held
      && verdict == Skipped(DependencyFailed(Picked(dependencies, Ineligible(dependencies, eligible))))
    else Courses(job, index, eligible, groups, held, events, verdict, left)
  }

  // ---------------------------------------------------------------- runs follow their courses

  lemma AdvanceKeeps(p: Progress, target: InterfaceId, kind: OperationKind, device: DeviceObservation)
    requires kind.Addresses() ==> kind.address.prefixLen <= 32
    ensures var (verdict, after) := Advance(p, target, kind, device);
            verdict == Succeeded && after.log == p.log && after.current == p.current
  {
    hide Members, Masked;
    if kind.Addresses() {
      GroupExists(kind.address);
    }
  }

  lemma ConfirmCourse(job: Job, p: Progress, eligible: seq<bool>, index: nat, kind: OperationKind,
                      predicted: DeviceObservation) returns (events: Log)
    requires index < |job.diff.operations| && index < |eligible| && p.current == None
    requires kind.Addresses() ==> kind.address.prefixLen <= 32
    ensures var (verdict, after) := Executor.Confirm(job, p, eligible, index, kind, predicted);
            && after.log == p.log + events
            && Confirms(job, index, eligible, kind, predicted, events, verdict, after.current)
  {
    hide Verify, Advance;
    var target := job.diff.operations[index].target;
    if !kind.Addresses() {
      AdvanceKeeps(p, target, kind, predicted);
      events := [];
      assert p.log + [] == p.log;
    } else {
      var (verified, read) := VerifyWrite(job, p, eligible, index, kind, predicted);
      events := [Observed(job.env.inventory(|p.log|))];
      if verified.Success? {
        AdvanceKeeps(read, target, kind, verified.value);
      }
    }
  }

  lemma ApplyCourse(job: Job, p: Progress, eligible: seq<bool>, index: nat, observation: Observation, position: nat,
                    kind: OperationKind) returns (events: Log)
    requires index < |job.diff.operations| && index < |eligible| && position < |observation.devices|
    requires p.current == Some(observation)
    requires kind.Addresses() ==> kind.address.prefixLen <= 32
    ensures var (verdict, after) := ApplyWrite(job, p, eligible, index, observation.devices[position], kind);
            && after.log == p.log + events
            && Writes(job, index, eligible, observation, position, kind, events, verdict, after.current)
  {
    hide Executor.Confirm, Project, Rebase, Confirms;
    var (cancelled, polled) := Poll(job, p);
    if cancelled {
      return [Polled(true)];
    }
    var (error, written) := SubmitWrite(job, polled, index, kind);
    var target := job.diff.operations[index].target;
    if error.Some? {
      events := [Polled(false), Wrote(index, target, kind, error)];
      assert polled.log + [events[1]] == p.log + events;
    } else {
      var (now, timed) := ReadClock(job, written);
      var predicted := Project(Rebase(observation.devices[position], now), kind);
      var rest := ConfirmCourse(job, timed, eligible, index, kind, predicted);
      var first := [Polled(false), Wrote(index, target, kind, error), Timed(now)];
      events := first + rest;
      assert timed.log == p.log + first;
      assert timed.log + rest == p.log + events;
      assert events[3..] == rest;
    }
  }

  /** What is decided to be written can be: its group exists. */
  lemma ProceedHasGroup(job: Job, index: nat, eligible: seq<bool>, groups: Groups, observation: Observation,
                        kind: OperationKind, position: nat)
    requires index < |job.diff.operations| && index < |eligible|
    requires Decide(job, index, eligible, groups, observation, Some(kind)).0 == Proceed(position, kind)
    ensures position < |observation.devices| && (kind.Addresses() ==> kind.address.prefixLen <= 32)
  {
    hide Decide, IsStale, IsThere, IsMissing, CascadeRefused;
    WritesWhenAllHolds(job, index, eligible, groups, observation, kind, position);
  }

  lemma ActCourse(job: Job, p: Progress, eligible: seq<bool>, index: nat, groups: Groups, observation: Observation,
                  decoded: Option<OperationKind>) returns (events: Log)
    requires index < |job.diff.operations| && index < |eligible| && p.current == Some(observation)
    ensures var (decision, after) := Decide(job, index, eligible, groups, observation, decoded);
            var (verdict, left) := Act(job, p, eligible, index, observation, decision);
            && left.log == p.log + events
            && Acts(job, index, eligible, groups, observation, decoded, events, verdict, left.current)
  {
    hide Locate, ValidateGroup, DecideWrite, ApplyWrite, Project, Rebase, Writes, Advance;
    var decision := Decide(job, index, eligible, groups, observation, decoded).0;
    events := [];
    assert p.log + [] == p.log;
    if decision.Proceed? {
      ProceedsWithKind(job, index, eligible, groups, observation, decoded);
      ProceedHasGroup(job, index, eligible, groups, observation, decision.kind, decision.position);
      if job.preview {
        var (now, timed) := ReadClock(job, p);
        var predicted := Project(Rebase(observation.devices[decision.position], now), decision.kind);
        events := [Timed(now)];
        AdvanceKeeps(timed.(current := Some(Observation(observation.devices[decision.position := predicted]))),
                     job.diff.operations[index].target, decision.kind, predicted);
      } else {
        events := ApplyCourse(job, p, eligible, index, observation, decision.position, decision.kind);
      }
    }
  }

  lemma ProceedsWithKind(job: Job, index: nat, eligible: seq<bool>, groups: Groups, observation: Observation,
                         decoded: Option<OperationKind>)
    requires index < |job.diff.operations| && index < |eligible|
    ensures var decision := Decide(job, index, eligible, groups, observation, decoded).0;
            decision.Proceed? ==> decoded == Some(decision.kind)
  {
    hide Locate, ValidateGroup, Satisfied, CascadeRefused;
  }

  lemma PerformCourse(job: Job, p: Progress, eligible: seq<bool>, index: nat, decoded: Option<OperationKind>)
    returns (read: Log, rest: Log, answer: Result<Observation, BackendErrorKind>)
    requires index < |job.diff.operations| && index < |eligible|
    ensures var (verdict, after) := Perform(job, p, eligible, index, decoded);
            && after.log == p.log + read + rest
            && Looks(p.current, read, answer)
            && Follows(job, index, eligible, p.groups, answer, decoded, rest, verdict, after.current)
  {
    hide Decide, Act, Acts;
    var (looked, observed) := Executor.Observe(job, p);
    answer := looked;
    read := if p.current.Some? then [] else [Observed(looked)];
    rest := [];
    assert observed.log == p.log + read && p.log + read + [] == p.log + read;
    if looked.Success? {
      var (decision, groups) := Decide(job, index, eligible, observed.groups, looked.value, decoded);
      rest := ActCourse(job, observed.(groups := groups), eligible, index, observed.groups, looked.value, decoded);
    }
  }

  lemma StepCourse(job: Job, p: Progress, eligible: seq<bool>, index: nat) returns (events: Log)
    requires index < |job.diff.operations| && index < |eligible|
    ensures var (verdict, after) := Executor.Step(job, p, eligible, index);
            && after.log == p.log + events
            && Courses(job, index, eligible, p.groups, p.current, events, verdict, after.current)
  {
    hide Perform, Decode, Follows, Looks;
    var (cancelled, polled) := Poll(job, p);
    events := [Polled(cancelled)];
    var decoded := Decode(job.diff.operations[index].kind, job.schema);
    if !cancelled && decoded.Success? {
      var read, rest, answer := PerformCourse(job, polled, eligible, index, decoded.value);
      events := [Polled(cancelled)] + read + rest;
      assert polled.log + read + rest == p.log + events;
    }
  }

  /** Every operation of a run follows its course, from where the one before it ended. */
  lemma RunsFollowTheirCourses(job: Job, i: nat) returns (events: Log)
    requires i < |job.diff.operations|
    ensures var before, after := RunTo(job, i), RunTo(job, i + 1);
            && after.progress.log == before.progress.log + events
            && Settles(job, i, EligibleAfter(job.diff, before.verdicts), before.progress.groups,
                       before.progress.current, events, after.verdicts[i], after.progress.current)
  {
    hide Executor.Step, Courses, EligibleAfter, RunTo;
    var before := RunTo(job, i);
    var eligible := EligibleAfter(job.diff, before.verdicts);
    NextStage(job, i);
    events := [];
    assert before.progress.log + [] == before.progress.log;
    var op := job.diff.operations[i];
    if !Malformed(op, i) {
      var blocked := Blockers(op.dependsOn, eligible);
      if blocked == [] {
        assert forall d | d in op.dependsOn :: d !in blocked;
        events := StepCourse(job, before.progress, eligible, i);
      } else {
        assert blocked[0] in blocked;
        BlockersArePicked(op.dependsOn, eligible);
      }
    }
  }

  lemma NextStage(job: Job, i: nat)
    requires i < |job.diff.operations|
    ensures var before := RunTo(job, i);
            var (verdict, progress) := Attempt(job, before.progress, EligibleAfter(job.diff, before.verdicts), i);
            RunTo(job, i + 1) == Stage(progress, before.verdicts + [verdict])
  {
    hide Attempt, EligibleAfter;
  }

  /** An operation counts as eligible for its dependents when it succeeded or had nothing to do. */
  lemma EligibleMeans(diff: StateDiff, verdicts: seq<Verdict>, i: nat)
    requires i < |diff.operations|
    ensures EligibleAfter(diff, verdicts)[i] <==>
            i < |verdicts| && verdicts[i] in {Succeeded, Skipped(AlreadySatisfied), Skipped(ReadOnly)}
  {
    if i < |verdicts| && verdicts[i].Skipped? {
      match verdicts[i].reason {
        case AlreadySatisfied =>
        case ReadOnly =>
        case DependencyFailed(_) =>
      }
    }
  }
}
