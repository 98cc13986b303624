/** Where the authority for destructive address operations comes from (executor.rs). */
module Authority {
  import opened Wrappers
  import opened Plan
  import opened Executor
  import opened Freshness

  /** The group an operation addresses once it is decoded. */
  ghost function AddressedGroup(job: Job, i: nat): Option<GroupKey>
    requires i < |job.diff.operations|
  {
    var op := job.diff.operations[i];
    match Decode(op.kind, job.schema)
    case Failure(_) => None
    case Success(None) => None
    case Success(Some(kind)) => if kind.Addresses() then KeyOf(op.target, kind.address) else None
  }

  /** The precondition of an operation, when a complete inventory of its target lets it count. */
  ghost function GuardOn(job: Job, i: nat, observation: Observation): Option<GroupKey>
    requires i < |job.diff.operations|
  {
    var op, key := job.diff.operations[i], AddressedGroup(job, i);
    match Locate(observation, op.target, job.env.namespace)
    case Failure(_) => None
    case Success(position) =>
      if && observation.devices[position].addressesComplete
         && key.Some?
         && op.addressGroup.Some?
         && !ForeignGuard(op, key.value)
      then key else None
  }

  /** The precondition an operation gets to present at all. */
  ghost function GuardShown(job: Job, p: Progress, eligible: seq<bool>, i: nat): Option<GroupKey>
    requires i < |job.diff.operations| == |eligible|
  {
    var op := job.diff.operations[i];
    if Malformed(op, i) || Blockers(op.dependsOn, eligible) != [] || Poll(job, p).0 then None
    else match Observe(job, Poll(job, p).1).0
      case Failure(_) => None
      case Success(observation) => GuardOn(job, i, observation)
  }

  ghost function Adopted(job: Job, i: nat, shown: Option<GroupKey>, groups: Groups): Groups
    requires i < |job.diff.operations|
  {
    if shown.Some? then Adopt(job.diff.operations[i], shown.value, groups) else groups
  }

  /** The group as the newest observation of the target has it. */
  ghost function CurrentGroup(job: Job, current: Option<Observation>, key: GroupKey): Option<ExpectedGroup> {
    match current
    case None => None
    case Some(observation) =>
      match Locate(observation, key.target, job.env.namespace)
      case Failure(_) => None
      case Success(position) =>
        var device := observation.devices[position];
        Some(ExpectedGroup(Members(device.addresses, key), device.observedAt))
  }

  /** An own successful write advances a snapshot that exists, to what was observed after it. */
  ghost predicate Advanced(job: Job, i: nat, before: Groups, verdict: Verdict, after: Progress)
    requires i < |job.diff.operations|
  {
    var key := AddressedGroup(job, i);
    if verdict.Succeeded? && key.Some? && key.value in before then
      var group := CurrentGroup(job, after.current, key.value);
      group.Some? && after.groups == before[key.value := group.value]
    else after.groups == before
  }

  lemma DecideGroups(job: Job, i: nat, eligible: seq<bool>, groups: Groups, observation: Observation,
                     decoded: Option<OperationKind>)
    requires i < |job.diff.operations| && i < |eligible|
    requires Decode(job.diff.operations[i].kind, job.schema) == Success(decoded)
    ensures Decide(job, i, eligible, groups, observation, decoded).1
      == Adopted(job, i, GuardOn(job, i, observation), groups)
  {
    hide DecideWrite, GroupMatches, Decode;
  }

  lemma AdvanceAdvances(job: Job, p: Progress, i: nat, kind: OperationKind, position: nat)
    requires i < |job.diff.operations|
    requires Decode(job.diff.operations[i].kind, job.schema) == Success(Some(kind))
    requires p.current.Some?
    requires Locate(p.current.value, job.diff.operations[i].target, job.env.namespace) == Success(position)
    ensures var (verdict, after) := Advance(p, job.diff.operations[i].target, kind, p.current.value.devices[position]);
            Advanced(job, i, p.groups, verdict, after)
  {
    hide Decode;
  }

  lemma LocateAfterProjection(observation: Observation, position: nat, device: DeviceObservation,
                              target: InterfaceId, namespace: NamespaceId)
    requires position < |observation.devices| && device.identity == observation.devices[position].identity
    requires Locate(observation, target, namespace) == Success(position)
    ensures Locate(Observation(observation.devices[position := device]), target, namespace) == Success(position)
  {
    var devices := observation.devices[position := device];
    assert devices[position] in devices;
  }

  lemma ConfirmAdvances(job: Job, p: Progress, eligible: seq<bool>, i: nat, kind: OperationKind,
                        predicted: DeviceObservation)
    requires i < |job.diff.operations| && i < |eligible|
    requires Decode(job.diff.operations[i].kind, job.schema) == Success(Some(kind))
    ensures var (verdict, after) := Confirm(job, p, eligible, i, kind, predicted);
            Advanced(job, i, p.groups, verdict, after)
  {
    hide Decode, ExpectedMembers, GroupMatches, OutsideSurvives;
    if kind.Addresses() {
      var (verified, read) := VerifyWrite(job, p, eligible, i, kind, predicted);
      if verified.Success? {
        var position := Locate(read.current.value, job.diff.operations[i].target, job.env.namespace).value;
        AdvanceAdvances(job, read, i, kind, position);
      }
    }
  }

  lemma ActAdvances(job: Job, p: Progress, eligible: seq<bool>, i: nat, observation: Observation, decision: Decision)
    requires i < |job.diff.operations| && i < |eligible|
    requires decision.Proceed? ==>
               && Locate(observation, job.diff.operations[i].target, job.env.namespace) == Success(decision.position)
               && Decode(job.diff.operations[i].kind, job.schema) == Success(Some(decision.kind))
    ensures var (verdict, after) := Act(job, p, eligible, i, observation, decision);
            Advanced(job, i, p.groups, verdict, after)
  {
    hide Decode, Confirm, Project, Rebase;
    if decision.Proceed? {
      var target, device, kind := job.diff.operations[i].target, observation.devices[decision.position], decision.kind;
      if job.preview {
        var (now, timed) := ReadClock(job, p);
        var predicted := Project(Rebase(device, now), kind);
        assert predicted.identity == device.identity by { ProjectionKeepsIdentity(device, now, kind); }
        LocateAfterProjection(observation, decision.position, predicted, target, job.env.namespace);
        AdvanceAdvances(job, timed.(current := Some(Observation(observation.devices[decision.position := predicted]))),
                        i, kind, decision.position);
      } else {
        var polled := Poll(job, p).1;
        var written := SubmitWrite(job, polled, i, kind).1;
        var (now, timed) := ReadClock(job, written);
        ConfirmAdvances(job, timed, eligible, i, kind, Project(Rebase(device, now), kind));
      }
    }
  }

  lemma ProjectionKeepsIdentity(device: DeviceObservation, now: Instant, kind: OperationKind)
    ensures Project(Rebase(device, now), kind).identity == device.identity
    ensures Project(Rebase(device, now), kind).addressesComplete == device.addressesComplete
    ensures Project(Rebase(device, now), kind).observedAt == now
  {
  }

  lemma DecidedPosition(job: Job, i: nat, eligible: seq<bool>, groups: Groups, observation: Observation,
                        decoded: Option<OperationKind>)
    requires i < |job.diff.operations| && i < |eligible|
    ensures var decision := Decide(job, i, eligible, groups, observation, decoded).0;
            decision.Proceed? ==>
              && Locate(observation, job.diff.operations[i].target, job.env.namespace) == Success(decision.position)
              && decoded == Some(decision.kind)
  {
    hide Satisfied, CascadeRefused, GroupMatches, Locate;
  }

  lemma AttemptGroups(job: Job, p: Progress, eligible: seq<bool>, i: nat)
    requires i < |job.diff.operations| == |eligible|
    ensures var (verdict, after) := Attempt(job, p, eligible, i);
            Advanced(job, i, Adopted(job, i, GuardShown(job, p, eligible, i), p.groups), verdict, after)
  {
    hide Act, Decide, GuardOn, Decode;
    var decoded := Decode(job.diff.operations[i].kind, job.schema);
    var (cancelled, polled) := Poll(job, p);
    var (answer, observed) := Observe(job, polled);
    if decoded.Failure? {
      NoGuardUndecoded(job, i);
    } else if !cancelled && answer.Success? {
      DecideGroups(job, i, eligible, observed.groups, answer.value, decoded.value);
      DecidedPosition(job, i, eligible, observed.groups, answer.value, decoded.value);
      var (decision, groups) := Decide(job, i, eligible, observed.groups, answer.value, decoded.value);
      ActAdvances(job, observed.(groups := groups), eligible, i, answer.value, decision);
    }
  }

  lemma NoGuardUndecoded(job: Job, i: nat)
    requires i < |job.diff.operations| && Decode(job.diff.operations[i].kind, job.schema).Failure?
    ensures AddressedGroup(job, i).None?
    ensures forall observation :: GuardOn(job, i, observation).None?
  {
    hide Decode;
  }

  // ---------------------------------------------------------------- whole runs

  /** An operation of a run presents a precondition for a group. */
  ghost predicate Shows(job: Job, i: nat, key: GroupKey)
    requires i < |job.diff.operations|
  {
    GuardShown(job, RunTo(job, i).progress, EligibleAfter(job.diff, RunTo(job, i).verdicts), i) == Some(key)
  }

  /** A successful operation of a run wrote to a group. */
  ghost predicate OwnWrite(job: Job, i: nat, key: GroupKey)
    requires i < |job.diff.operations|
  {
    RunTo(job, i + 1).verdicts[i].Succeeded? && AddressedGroup(job, i) == Some(key)
  }

  /** The first of the first n operations that presents a precondition for a group. */
  ghost function FirstGuard(job: Job, n: nat, key: GroupKey): (r: Option<nat>)
    requires n <= |job.diff.operations|
    ensures r.Some? ==> r.value < n
  {
    if n == 0 then None
    else if FirstGuard(job, n - 1, key).Some? then FirstGuard(job, n - 1, key)
    else if Shows(job, n - 1, key) then Some(n - 1)
    else None
  }

  /** The last own write to a group from one operation on, before another. */
  ghost function LastOwnWrite(job: Job, from: nat, n: nat, key: GroupKey): (r: Option<nat>)
    requires n <= |job.diff.operations|
    ensures r.Some? ==> from <= r.value < n
  {
    if n <= from then None
    else if OwnWrite(job, n - 1, key) then Some(n - 1)
    else LastOwnWrite(job, from, n - 1, key)
  }

  lemma {:induction false} FirstGuardIsFirst(job: Job, n: nat, key: GroupKey, i: nat)
    requires i < n <= |job.diff.operations|
    ensures var first := FirstGuard(job, n, key);
            if first.Some? then Shows(job, first.value, key) && (i < first.value ==> !Shows(job, i, key))
            else !Shows(job, i, key)
  {
    hide Shows;
    if i < n - 1 {
      FirstGuardIsFirst(job, n - 1, key, i);
    } else if n > 1 {
      FirstGuardIsFirst(job, n - 1, key, 0);
    }
  }

  lemma {:induction false} LastOwnWriteIsLast(job: Job, from: nat, n: nat, key: GroupKey, i: nat)
    requires from <= i < n <= |job.diff.operations|
    ensures var last := LastOwnWrite(job, from, n, key);
            if last.Some? then OwnWrite(job, last.value, key) && (i > last.value ==> !OwnWrite(job, i, key))
            else !OwnWrite(job, i, key)
  {
    hide OwnWrite;
    if i < n - 1 {
      LastOwnWriteIsLast(job, from, n - 1, key, i);
    } else if from < n - 1 {
      LastOwnWriteIsLast(job, from, n - 1, key, from);
    }
  }

  /**
   The snapshot a group has before operation n when its first precondition came
   at operation j: what was observed after the last own write since, or else
   that first precondition.
   */
  ghost function Traced(job: Job, j: nat, n: nat, key: GroupKey): Option<ExpectedGroup>
    requires j < |job.diff.operations| && n <= |job.diff.operations|
  {
    match LastOwnWrite(job, j, n, key)
    case Some(w) => CurrentGroup(job, RunTo(job, w + 1).progress.current, key)
    case None =>
      match job.diff.operations[j].addressGroup
      case Some(guard) => Some(ExpectedGroup(guard.addresses, guard.observedAt))
      case None => None
  }

  /**
   Snapshots exist exactly for groups some operation presented a precondition
   for, the first precondition wins, and only own successful writes advance it.
   */
  lemma {:induction false} SnapshotsAreTraced(job: Job, n: nat, key: GroupKey)
    requires n <= |job.diff.operations|
    ensures var groups, first := RunTo(job, n).progress.groups, FirstGuard(job, n, key);
            && (key in groups <==> first.Some?)
            && (first.Some? ==> Traced(job, first.value, n, key) == Some(groups[key]))
  {
    hide Attempt, GuardShown, CurrentGroup, AddressedGroup;
    if n > 0 {
      SnapshotsAreTraced(job, n - 1, key);
      AdoptionIsTraced(job, n - 1, key);
      var before := RunTo(job, n - 1);
      AttemptGroups(job, before.progress, EligibleAfter(job.diff, before.verdicts), n - 1);
      AdvanceIsTraced(job, n - 1, key);
    }
  }

  /** What operation i checks against: its own precondition counts if none came before. */
  lemma AdoptionIsTraced(job: Job, i: nat, key: GroupKey)
    requires i < |job.diff.operations|
    requires var groups, first := RunTo(job, i).progress.groups, FirstGuard(job, i, key);
             && (key in groups <==> first.Some?)
             && (first.Some? ==> Traced(job, first.value, i, key) == Some(groups[key]))
    ensures var adopted, first := AdoptedAt(job, i), FirstGuard(job, i + 1, key);
            && (key in adopted <==> first.Some?)
            && (first.Some? ==> Traced(job, first.value, i, key) == Some(adopted[key]))
  {
    hide Attempt, RunTo, CurrentGroup, AddressedGroup;
  }

  ghost function AdoptedAt(job: Job, i: nat): Groups
    requires i < |job.diff.operations|
  {
    var before := RunTo(job, i);
    Adopted(job, i, GuardShown(job, before.progress, EligibleAfter(job.diff, before.verdicts), i),
            before.progress.groups)
  }

  lemma AdvanceIsTraced(job: Job, i: nat, key: GroupKey)
    requires i < |job.diff.operations|
    requires Advanced(job, i, AdoptedAt(job, i), RunTo(job, i + 1).verdicts[i], RunTo(job, i + 1).progress)
    requires var adopted, first := AdoptedAt(job, i), FirstGuard(job, i + 1, key);
             && (key in adopted <==> first.Some?)
             && (first.Some? ==> Traced(job, first.value, i, key) == Some(adopted[key]))
    ensures var groups, first := RunTo(job, i + 1).progress.groups, FirstGuard(job, i + 1, key);
            && (key in groups <==> first.Some?)
            && (first.Some? ==> Traced(job, first.value, i + 1, key) == Some(groups[key]))
  {
    hide Attempt, RunTo, CurrentGroup, AddressedGroup, AdoptedAt, FirstGuard;
  }

  /** The device a write was decided on matches the snapshot of its group, if there is one. */
  lemma ProceedingMatchesSnapshot(job: Job, i: nat, eligible: seq<bool>, groups: Groups, observation: Observation,
                                  kind: OperationKind)
    returns (position: nat)
    requires i < |job.diff.operations| && i < |eligible|
    requires Decode(job.diff.operations[i].kind, job.schema) == Success(Some(kind)) && kind.Addresses()
    requires Decide(job, i, eligible, groups, observation, Some(kind)).0.Proceed?
    ensures var target, adopted := job.diff.operations[i].target, Adopted(job, i, GuardOn(job, i, observation), groups);
            && Locate(observation, target, job.env.namespace) == Success(position)
            && observation.devices[position].addressesComplete
            && AddressedGroup(job, i).Some?
            && var device, key := observation.devices[position], AddressedGroup(job, i).value;
               && (key in adopted ==> GroupMatches(adopted[key], Members(device.addresses, key), device.observedAt))
               && ((kind.RemoveIpv4? || kind.ReplaceIpv4?)
                   ==> Present(device.addresses, kind.address) && key in adopted)
  {
    hide GroupMatches, CascadeRefused, LifetimesEqual, Decode;
    position := Locate(observation, job.diff.operations[i].target, job.env.namespace).value;
  }

  /**
   Snapshot authority: a removal or replacement that reaches the transport is of
   a present address whose group traces to the first precondition some operation
   up to this one presented, and the device it was decided on still matches it.
   */
  lemma DestructionIsAuthorised(job: Job, k: nat) returns (j: nat, position: nat)
    requires k < |Run(job).progress.log| && Run(job).progress.log[k].Wrote?
    requires Run(job).progress.log[k].kind.RemoveIpv4? || Run(job).progress.log[k].kind.ReplaceIpv4?
    ensures var log := Run(job).progress.log;
            var i := log[k].index;
            && j <= i < |job.diff.operations|
            && Latest(log[..k]).Some?
            && position < |Latest(log[..k]).value.devices|
            && var device := Latest(log[..k]).value.devices[position];
               && device.identity == log[k].target
               && device.addressesComplete
               && Present(device.addresses, log[k].kind.address)
               && KeyOf(log[k].target, log[k].kind.address).Some?
               && var key := KeyOf(log[k].target, log[k].kind.address).value;
                  && FirstGuard(job, i + 1, key) == Some(j)
                  && Traced(job, j, i, key).Some?
                  && GroupMatches(Traced(job, j, i, key).value, Members(device.addresses, key), device.observedAt)
  {
    hide RunTo, GuardOn, Decide, Decode, GroupMatches, CurrentGroup, Shows, Members;
    var log := Run(job).progress.log;
    WritesAreJustified(job, |job.diff.operations|, k);
    var i, kind := log[k].index, log[k].kind;
    var before := RunTo(job, i);
    var eligible := EligibleAfter(job.diff, before.verdicts);
    position := ProceedingMatchesSnapshot(job, i, eligible, before.progress.groups, Latest(log[..k]).value, kind);
    var key := AddressedGroup(job, i).value;
    JustifiedGuard(job, i, eligible, before.progress, log[..k], kind);
    SnapshotsAreTraced(job, i, key);
    AdoptionIsTraced(job, i, key);
    j := FirstGuard(job, i + 1, key).value;
  }

  lemma JustifiedGuard(job: Job, i: nat, eligible: seq<bool>, start: Progress, before: Log, kind: OperationKind)
    requires i < |job.diff.operations| == |eligible|
    requires Justified(job, i, eligible, start, before, kind)
    ensures GuardShown(job, start, eligible, i) == GuardOn(job, i, Latest(before).value)
  {
  }
}
