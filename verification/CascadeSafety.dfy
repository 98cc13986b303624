/** No run loses an address that its plan does not name (executor.rs). */
module CascadeSafety {
  import opened Wrappers
  import opened Plan
  import opened Executor
  import opened Freshness

  // ---------------------------------------------------------------- the kernel

  /** What the kernel keeps about an address; lifetimes may run in the meantime. */
  datatype KernelAddress = KernelAddress(ip: u32, prefixLen: u8, scope: u8, peer: Option<u32>, secondary: bool)
  {
    predicate Is(address: Ipv4Address) {
      ip == address.ip && prefixLen == address.prefixLen
    }

    function Group(): Option<PrefixGroup> {
      Masked(if peer.Some? then peer.value else ip, prefixLen)
    }
  }

  type Kernel = map<InterfaceId, seq<KernelAddress>>

  ghost function Seen(entry: AddressObservation): KernelAddress {
    KernelAddress(entry.address.ip, entry.address.prefixLen, entry.scope, entry.peer, entry.Secondary())
  }

  /** Deleting an address may take along the secondaries of a deleted primary. */
  ghost predicate MayVanish(before: seq<KernelAddress>, removed: Ipv4Address, a: KernelAddress) {
    || a.Is(removed)
    || exists p | p in before ::
         p.Is(removed) && !p.secondary && a.secondary && p.Group() == a.Group() && p.scope == a.scope
  }

  /** A write changes its target only; apart from a removal it loses nothing. Failed writes may have happened. */
  ghost predicate WriteAllowed(before: Kernel, target: InterfaceId, kind: OperationKind, after: Kernel) {
    && before.Keys <= after.Keys
    && (forall link | link in before && link != target :: after[link] == before[link])
    && (target in before ==>
          forall a | a in before[target] ::
            (exists b | b in after[target] :: b.ip == a.ip && b.prefixLen == a.prefixLen)
            || (kind.RemoveIpv4? && MayVanish(before[target], kind.address, a)))
  }

  /**
   A complete inventory of a link reports exactly its addresses, each identity once: the
   transport marks a link whose dump repeats an identity as incomplete.
   */
  ghost predicate Reports(observation: Observation, kernel: Kernel) {
    forall device | device in observation.devices && device.addressesComplete && device.identity in kernel ::
      && (forall entry | entry in device.addresses :: Seen(entry) in kernel[device.identity])
      && (forall a | a in kernel[device.identity] :: exists entry | entry in device.addresses :: Seen(entry) == a)
      && (forall x, y | x in device.addresses && y in device.addresses && x.address.SameIdentity(y.address) :: x == y)
  }

  /** Only the executor changes addresses, and inventories tell the truth. */
  ghost predicate KernelStep(before: Kernel, event: Event, after: Kernel) {
    match event
    case Wrote(_, target, kind, _) => WriteAllowed(before, target, kind, after)
    case Observed(Success(observation)) => after == before && Reports(observation, before)
    case _ => after == before
  }

  /** The kernel before each event of a log, and after the last one. */
  ghost predicate Behaves(log: Log, kernels: seq<Kernel>) {
    && |kernels| == |log| + 1
    && forall k | 0 <= k < |log| :: KernelStep(kernels[k], log[k], kernels[k + 1])
  }

  // ---------------------------------------------------------------- one write

  /** The plan names the removal of an address on a link. */
  ghost predicate Named(diff: StateDiff, link: InterfaceId, ip: u32, prefixLen: u8) {
    exists op | op in diff.operations ::
      && op.target == link
      && op.kind.RemoveIpv4?
      && op.kind.address.ip == ip
      && op.kind.address.prefixLen == prefixLen
  }

  lemma CoveredIsNamed(diff: StateDiff, i: nat, target: InterfaceId, address: Ipv4Address, eligible: seq<bool>)
    requires i < |diff.operations| && i < |eligible|
    requires RemovalIsCovered(diff, i, target, address, eligible)
    ensures Named(diff, target, address.ip, address.prefixLen)
  {
    var position: nat :| i < position < |diff.operations|
      && Runnable(diff, i, eligible, |diff.operations|)[position]
      && diff.operations[position].target == target
      && diff.operations[position].kind.RemoveIpv4?
      && address.SameIdentity(diff.operations[position].kind.address);
    assert diff.operations[position] in diff.operations;
  }

  /** The guards a removal passes before it is submitted. */
  lemma RemovalIsGuarded(job: Job, i: nat, eligible: seq<bool>, start: Progress, before: Log, kind: OperationKind)
    returns (device: DeviceObservation)
    requires i < |job.diff.operations| == |eligible|
    requires Justified(job, i, eligible, start, before, kind) && kind.RemoveIpv4?
    ensures device in Latest(before).value.devices
    ensures device.identity == job.diff.operations[i].target && device.addressesComplete
    ensures !CascadeRefused(job.diff, i, device, kind, eligible)
    ensures job.diff.operations[i].kind == kind
  {
    hide GroupMatches, CascadeRefused, Decode, LifetimesEqual;
    var observation := Latest(before).value;
    device := observation.devices[Locate(observation, job.diff.operations[i].target, job.env.namespace).value];
    DecodedKindsAreValid(job.diff.operations[i].kind, kind, job.schema);
  }

  /** What the kernel may delete along with a primary that passed the check is named. */
  lemma VanishingIsNamed(diff: StateDiff, i: nat, eligible: seq<bool>, device: DeviceObservation,
                         kind: OperationKind, addresses: seq<KernelAddress>, a: KernelAddress)
    requires i < |diff.operations| && i < |eligible| && kind.RemoveIpv4?
    requires diff.operations[i].kind == kind && diff.operations[i].target == device.identity
    requires !CascadeRefused(diff, i, device, kind, eligible)
    requires Reports(Observation([device]), map[device.identity := addresses]) && device.addressesComplete
    requires a in addresses && MayVanish(addresses, kind.address, a)
    ensures Named(diff, device.identity, a.ip, a.prefixLen)
  {
    if a.Is(kind.address) {
      assert diff.operations[i] in diff.operations;
    } else {
      var p :| p in addresses && p.Is(kind.address) && !p.secondary && a.secondary && p.Group() == a.Group()
        && p.scope == a.scope;
      assert device in [device];
      var primary :| primary in device.addresses && Seen(primary) == p;
      var secondary :| secondary in device.addresses && Seen(secondary) == a;
      PrimaryIsFound(device, kind.address, primary);
      assert !Endangers(diff, i, device.identity, kind.address, primary, secondary, eligible);
      CoveredIsNamed(diff, i, device.identity, secondary.address, eligible);
    }
  }

  lemma PrimaryIsFound(device: DeviceObservation, address: Ipv4Address, primary: AddressObservation)
    requires forall x, y | x in device.addresses && y in device.addresses && x.address.SameIdentity(y.address) :: x == y
    requires primary in device.addresses && PrimaryOf(primary, address)
    ensures FindPrimary(device.addresses, address) == Some(primary)
  {
  }

  /** The newest observation of a log still reports the kernel at its end. */
  lemma {:induction false} LatestReports(log: Log, kernels: seq<Kernel>)
    requires Behaves(log, kernels) && Latest(log).Some?
    ensures Reports(Latest(log).value, kernels[|log|])
  {
    var last := |log| - 1;
    assert KernelStep(kernels[last], log[last], kernels[last + 1]);
    if !(log[last].Observed? && log[last].answer.Success?) {
      LatestReports(log[..last], kernels[..last + 1]);
    }
  }

  /** An address a step loses is named by the plan. */
  lemma LossIsNamed(job: Job, kernels: seq<Kernel>, k: nat, link: InterfaceId, a: KernelAddress)
    requires var log := Run(job).progress.log; k < |log| && Behaves(log, kernels)
    requires link in kernels[k] && a in kernels[k][link]
    ensures link in kernels[k + 1]
    ensures || Named(job.diff, link, a.ip, a.prefixLen)
            || exists b | b in kernels[k + 1][link] :: b.ip == a.ip && b.prefixLen == a.prefixLen
  {
    hide RunTo, Latest, CascadeRefused, Justified, Named, Reports, MayVanish;
    var log := Run(job).progress.log;
    assert KernelStep(kernels[k], log[k], kernels[k + 1]);
    if log[k].Wrote? && link == log[k].target && log[k].kind.RemoveIpv4?
      && MayVanish(kernels[k][link], log[k].kind.address, a)
    {
      WritesAreJustified(job, |job.diff.operations|, k);
      var i, before := log[k].index, RunTo(job, log[k].index);
      var eligible := EligibleAfter(job.diff, before.verdicts);
      var device := RemovalIsGuarded(job, i, eligible, before.progress, log[..k], log[k].kind);
      JustifiedIsInformed(job, i, eligible, before.progress, log[..k], log[k].kind);
      assert Behaves(log[..k], kernels[..k + 1]);
      LatestReports(log[..k], kernels[..k + 1]);
      ReportsOne(Latest(log[..k]).value, kernels[k], device);
      VanishingIsNamed(job.diff, i, eligible, device, log[k].kind, kernels[k][link], a);
    }
  }

  lemma JustifiedIsInformed(job: Job, i: nat, eligible: seq<bool>, start: Progress, before: Log, kind: OperationKind)
    requires i < |job.diff.operations| == |eligible|
    requires Justified(job, i, eligible, start, before, kind)
    ensures Latest(before).Some?
  {
  }

  lemma ReportsOne(observation: Observation, kernel: Kernel, device: DeviceObservation)
    requires Reports(observation, kernel) && device in observation.devices && device.identity in kernel
    ensures Reports(Observation([device]), map[device.identity := kernel[device.identity]])
  {
  }

  // ---------------------------------------------------------------- whole runs

  /**
   Cascade safety: every address that is on a link at some point of a run and is
   not at a later point, whatever failed in between, is named by a removal of the
   plan for that same link.
   */
  lemma {:induction false} LostAddressesAreNamed(job: Job, kernels: seq<Kernel>, s: nat, t: nat, link: InterfaceId,
                                                 a: KernelAddress)
    requires var log := Run(job).progress.log; s <= t <= |log| && Behaves(log, kernels)
    requires link in kernels[s] && a in kernels[s][link]
    ensures link in kernels[t]
    ensures || Named(job.diff, link, a.ip, a.prefixLen)
            || exists b | b in kernels[t][link] :: b.ip == a.ip && b.prefixLen == a.prefixLen
    decreases t
  {
    hide RunTo, KernelStep, Named;
    if s < t {
      LostAddressesAreNamed(job, kernels, s, t - 1, link, a);
      var before := kernels[t - 1][link];
      LinksStay(Run(job).progress.log, kernels, t - 1, link);
      if b :| b in before && b.ip == a.ip && b.prefixLen == a.prefixLen {
        LossIsNamed(job, kernels, t - 1, link, b);
      }
    }
  }

  lemma LinksStay(log: Log, kernels: seq<Kernel>, k: nat, link: InterfaceId)
    requires k < |log| && Behaves(log, kernels) && link in kernels[k]
    ensures link in kernels[k + 1]
  {
    assert KernelStep(kernels[k], log[k], kernels[k + 1]);
  }
}
