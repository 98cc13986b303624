/** A refused removal is refused for a reason that no continuation of the run could lift (executor.rs). */
module Refusals {
  import opened Wrappers
  import opened Plan
  import opened Report
  import opened Executor
  import opened Runs
  import opened KernelWrites

  // ---------------------------------------------------------------- continuations

  /** A complete run that continues a given beginning with a success of the next operation. */
  ghost predicate Continuation(diff: StateDiff, before: seq<Verdict>, verdicts: seq<Verdict>) {
    && |before| < |verdicts| == |diff.operations|
    && before <= verdicts
    && Possible(diff, verdicts)
    && verdicts[|before|].Unblocks()
  }

  /** The operation after the beginning is attempted: its dependencies are in order and eligible. */
  ghost predicate Attempted(diff: StateDiff, before: seq<Verdict>) {
    && Possible(diff, before) && |before| < |diff.operations|
    && !Malformed(diff.operations[|before|], |before|)
    && Blockers(diff.operations[|before|].dependsOn, EligibleAfter(diff, before)) == []
  }

  /** The verdict of an operation whose attempt, if there is one, succeeds. */
  function Unhindered(diff: StateDiff, before: seq<Verdict>): Verdict
    requires |before| < |diff.operations|
  {
    var op := diff.operations[|before|];
    if Malformed(op, |before|) then Failed(UnsupportedOperation)
    else
      var blocked := Blockers(op.dependsOn, EligibleAfter(diff, before));
      if blocked == [] then Succeeded else Skipped(DependencyFailed(blocked))
  }

  /** The continuation in which every later attempt succeeds. */
  function Finished(diff: StateDiff, before: seq<Verdict>): (r: seq<Verdict>)
    requires |before| <= |diff.operations|
    ensures |r| == |diff.operations| && before <= r
    decreases |diff.operations| - |before|
  {
    if |before| == |diff.operations| then before else Finished(diff, before + [Unhindered(diff, before)])
  }

  lemma UnhinderedIsPossible(diff: StateDiff, before: seq<Verdict>)
    requires Possible(diff, before) && |before| < |diff.operations|
    ensures Possible(diff, before + [Unhindered(diff, before)])
  {
    hide Malformed;
    var next := before + [Unhindered(diff, before)];
    forall i | 0 <= i < |next| ensures ObeysDependencies(diff, next, i) {
      assert next[..|before|] == before;
      if i < |before| {
        assert ObeysDependencies(diff, before, i);
        ObeysInPrefix(diff, before, next, i);
      }
    }
  }

  /** Nothing that is attempted from here on fails, and what comes before stays. */
  lemma {:induction false} FinishedIsPossible(diff: StateDiff, before: seq<Verdict>, from: nat)
    requires Possible(diff, before) && NoAttemptFailsFrom(diff, before, from)
    ensures Possible(diff, Finished(diff, before)) && NoAttemptFailsFrom(diff, Finished(diff, before), from)
    decreases |diff.operations| - |before|
  {
    hide Possible;
    PossibleFits(diff, before);
    if |before| < |diff.operations| {
      UnhinderedIsPossible(diff, before);
      FinishedIsPossible(diff, before + [Unhindered(diff, before)], from);
    }
  }

  lemma PossibleFits(diff: StateDiff, before: seq<Verdict>)
    requires Possible(diff, before)
    ensures |before| <= |diff.operations|
  {
  }

  /** An attempted operation can succeed and let everything that depends on it run. */
  lemma ContinuationExists(diff: StateDiff, before: seq<Verdict>)
    requires Attempted(diff, before)
    ensures Continuation(diff, before, Finished(diff, before))
    ensures NoAttemptFailsFrom(diff, Finished(diff, before), |before|)
  {
    hide Possible, Malformed;
    FinishedIsPossible(diff, before, |before|);
    assert Unhindered(diff, before) == Succeeded;
  }

  // ---------------------------------------------------------------- coverage

  /** Some continuation goes on to remove the address from the target. */
  ghost predicate Removable(diff: StateDiff, before: seq<Verdict>, target: InterfaceId, address: Ipv4Address) {
    exists verdicts, position ::
      Continuation(diff, before, verdicts) && RemovedLater(diff, verdicts, |before|, target, address, position)
  }

  /** An address is covered exactly when its own removal is still possible. */
  lemma CoveredIffRemovable(diff: StateDiff, before: seq<Verdict>, target: InterfaceId, address: Ipv4Address)
    requires Attempted(diff, before)
    ensures RemovalIsCovered(diff, |before|, target, address, EligibleAfter(diff, before))
      <==> Removable(diff, before, target, address)
  {
    hide Possible, Malformed, RemovalIsCovered, RemovedLater, NoAttemptFailsFrom;
    var i := |before|;
    if Removable(diff, before, target, address) {
      var verdicts, position :| Continuation(diff, before, verdicts)
        && RemovedLater(diff, verdicts, i, target, address, position);
      assert verdicts[..i] == before;
      CoverageMeansRemoval(diff, verdicts, i, target, address);
    }
    ContinuationExists(diff, before);
    var verdicts := Finished(diff, before);
    assert verdicts[..i] == before;
    CoverageMeansRemoval(diff, verdicts, i, target, address);
  }

  // ---------------------------------------------------------------- refusals

  /** The entry that the kernel deletes: the first of that identity that is not secondary. */
  ghost predicate IsPrimary(entries: seq<AddressObservation>, address: Ipv4Address, primary: AddressObservation) {
    exists i | 0 <= i < |entries| && entries[i] == primary ::
      && Is(primary, address) && !Second(primary)
      && forall j | 0 <= j < i && Is(entries[j], address) :: Second(entries[j])
  }

  /** A secondary that the removal would expose and that nothing would take away afterwards. */
  ghost predicate LeftExposed(diff: StateDiff, before: seq<Verdict>, device: DeviceObservation, removed: Ipv4Address,
                              primary: AddressObservation, secondary: AddressObservation) {
    && secondary in device.addresses && Second(secondary)
    && secondary.KernelGroup() == primary.KernelGroup() && secondary.scope == primary.scope
    && (|| secondary.address.Group() != removed.Group()
        || !Removable(diff, before, device.identity, secondary.address))
  }

  lemma {:induction false} PrimaryIsFirst(entries: seq<AddressObservation>, address: Ipv4Address)
    ensures forall primary :: IsPrimary(entries, address, primary) <==> FindPrimary(entries, address) == Some(primary)
  {
    hide Second, Is;
    if entries != [] {
      var tail := entries[1..];
      PrimaryIsFirst(tail, address);
      StandingOf(entries[0], address);
      forall primary ensures IsPrimary(entries, address, primary) <==> FindPrimary(entries, address) == Some(primary) {
        PrimaryTail(entries, address, primary);
      }
    }
  }

  lemma StandingOf(entry: AddressObservation, address: Ipv4Address)
    ensures PrimaryOf(entry, address) <==> Is(entry, address) && !Second(entry)
    ensures entry.Secondary() <==> Second(entry)
  {
    SecondaryBit(entry);
  }

  lemma PrimaryTail(entries: seq<AddressObservation>, address: Ipv4Address, primary: AddressObservation)
    requires entries != []
    ensures IsPrimary(entries, address, primary) <==>
            if Is(entries[0], address) && !Second(entries[0]) then primary == entries[0]
            else IsPrimary(entries[1..], address, primary)
  {
    hide Second, Is;
    var tail := entries[1..];
    if i :| && 0 <= i < |tail| && tail[i] == primary && Is(primary, address) && !Second(primary)
            && forall j | 0 <= j < i && Is(tail[j], address) :: Second(tail[j])
    {
      assert entries[i + 1] == primary;
      assert forall j | 0 < j < i + 1 :: entries[j] == tail[j - 1];
    }
    if i :| && 0 <= i < |entries| && entries[i] == primary && Is(primary, address) && !Second(primary)
            && forall j | 0 <= j < i && Is(entries[j], address) :: Second(entries[j])
    {
      if i > 0 {
        assert tail[i - 1] == primary;
        assert forall j | 0 <= j < i - 1 :: tail[j] == entries[j + 1];
      }
    }
  }

  /**
   A removal is refused exactly when it removes a primary with a secondary outside
   the removed address's group, or one that no continuation in which the removal
   succeeds would still remove.
   */
  lemma RefusalIsExact(diff: StateDiff, before: seq<Verdict>, device: DeviceObservation, kind: OperationKind)
    requires Attempted(diff, before) && kind.RemoveIpv4?
    ensures CascadeRefused(diff, |before|, device, kind, EligibleAfter(diff, before)) <==>
            exists primary, secondary ::
              && IsPrimary(device.addresses, kind.address, primary)
              && LeftExposed(diff, before, device, kind.address, primary, secondary)
  {
    hide Attempted, RemovalIsCovered, Removable, EligibleAfter, Second, FindPrimary, IsPrimary, Masked;
    AttemptedIsWithin(diff, before);
    PrimaryIsFirst(device.addresses, kind.address);
    var i, eligible := |before|, EligibleAfter(diff, before);
    var found := FindPrimary(device.addresses, kind.address);
    if found.Some? {
      var primary := found.value;
      forall secondary | secondary in device.addresses
        ensures Endangers(diff, i, device.identity, kind.address, primary, secondary, eligible)
           <==> LeftExposed(diff, before, device, kind.address, primary, secondary)
      {
        StandingOf(secondary, kind.address);
        CoveredIffRemovable(diff, before, device.identity, secondary.address);
      }
    }
  }

  lemma AttemptedIsWithin(diff: StateDiff, before: seq<Verdict>)
    requires Attempted(diff, before)
    ensures |before| < |diff.operations|
  {
  }

  /** In a run, every operation that is neither malformed nor skipped for its dependencies is attempted. */
  lemma RunsAttempt(job: Job, i: nat)
    requires i < |job.diff.operations|
    ensures Attempted(job.diff, RunTo(job, i).verdicts)
       <==> !Malformed(job.diff.operations[i], i) && !Blames(RunTo(job, i + 1).verdicts[i])
  {
    hide Attempt, Malformed, Blockers;
    RunIsPossible(job, i);
    RunIsPossible(job, i + 1);
    VerdictsGrow(job, i, i + 1);
    assert ObeysDependencies(job.diff, RunTo(job, i + 1).verdicts, i);
  }
}
