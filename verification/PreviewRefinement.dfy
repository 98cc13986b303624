/** A preview gives every operation the verdict an apply gets on a kernel that does what is projected (executor.rs). */
module PreviewRefinement {
  import opened Wrappers
  import opened Plan
  import opened Lifetimes
  import opened Executor
  import opened Freshness

  // ---------------------------------------------------------------- resolved observations

  /** The same entry with its lifetimes written out, as a kernel reports them. */
  function Resolved(entry: AddressObservation): AddressObservation {
    entry.(address := entry.address.(
      validLft := Some(entry.address.ValidLifetime()),
      preferredLft := Some(entry.address.PreferredLifetime())))
  }

  function ResolvedAll(entries: seq<AddressObservation>): (r: seq<AddressObservation>)
    ensures |r| == |entries|
    ensures forall i | 0 <= i < |r| :: r[i] == Resolved(entries[i])
  {
    seq(|entries|, i requires 0 <= i < |entries| => Resolved(entries[i]))
  }

  function ResolvedDevice(device: DeviceObservation): DeviceObservation {
    device.(addresses := ResolvedAll(device.addresses))
  }

  function ResolvedObservation(observation: Observation): (r: Observation)
    ensures |r.devices| == |observation.devices|
    ensures forall i | 0 <= i < |r.devices| :: r.devices[i] == ResolvedDevice(observation.devices[i])
  {
    Observation(seq(|observation.devices|,
                    i requires 0 <= i < |observation.devices| => ResolvedDevice(observation.devices[i])))
  }

  /** Snapshots that say the same once lifetimes are written out. */
  ghost predicate SameGroup(a: ExpectedGroup, b: ExpectedGroup) {
    a.observedAt == b.observedAt && ResolvedAll(a.addresses) == ResolvedAll(b.addresses)
  }

  ghost predicate SameGroups(a: Groups, b: Groups) {
    a.Keys == b.Keys && forall key | key in a :: SameGroup(a[key], b[key])
  }

  // ---------------------------------------------------------------- decisions ignore resolution

  lemma MembersHead(entries: seq<AddressObservation>, key: GroupKey)
    requires entries != []
    ensures Members(entries, key)
         == (if key.Contains(entries[0].address) then [entries[0]] else []) + Members(entries[1..], key)
  {
  }

  lemma ResolvedHead(entry: AddressObservation, rest: seq<AddressObservation>)
    ensures ResolvedAll([entry] + rest) == [Resolved(entry)] + ResolvedAll(rest)
  {
    hide Resolved;
  }

  lemma {:induction false} MembersResolve(entries: seq<AddressObservation>, key: GroupKey)
    ensures Members(ResolvedAll(entries), key) == ResolvedAll(Members(entries, key))
  {
    if entries == [] {
      assert ResolvedAll(entries) == [];
    } else {
      hide Members, ResolvedAll, Masked;
      var first, rest := entries[0], entries[1..];
      assert entries == [first] + rest;
      ResolvedHead(first, rest);
      MembersResolve(rest, key);
      MembersHead(entries, key);
      MembersHead(ResolvedAll(entries), key);
      assert key.Contains(Resolved(first).address) <==> key.Contains(first.address);
      ResolvedHead(first, Members(rest, key));
      assert [] + Members(rest, key) == Members(rest, key);
    }
  }

  lemma PresenceResolves(entries: seq<AddressObservation>, address: Ipv4Address)
    ensures Present(ResolvedAll(entries), address) <==> Present(entries, address)
  {
    var resolved := ResolvedAll(entries);
    if Present(entries, address) {
      var i :| 0 <= i < |entries| && entries[i].address.SameIdentity(address);
      assert resolved[i] in resolved;
    }
    if Present(resolved, address) {
      var i :| 0 <= i < |resolved| && resolved[i].address.SameIdentity(address);
      assert entries[i] in entries;
    }
  }

  lemma MatchResolves(a: AddressObservation, b: AddressObservation, elapsed: Duration)
    ensures AddressMatches(Resolved(a), Resolved(b), elapsed) <==> AddressMatches(a, b, elapsed)
  {
    hide LifetimeMatches, FlagsMatch;
  }

  lemma GroupMatchResolves(a: ExpectedGroup, b: ExpectedGroup, entries: seq<AddressObservation>, now: Instant)
    requires SameGroup(a, b)
    ensures GroupMatches(a, ResolvedAll(entries), now) <==> GroupMatches(b, entries, now)
  {
    assert |a.addresses| == |ResolvedAll(a.addresses)| == |b.addresses|;
    var elapsed := Since(now, a.observedAt);
    forall i | 0 <= i < |entries| && |entries| == |a.addresses|
      ensures AddressMatches(a.addresses[i], ResolvedAll(entries)[i], elapsed)
        <==> AddressMatches(b.addresses[i], entries[i], elapsed)
    {
      MatchResolves(a.addresses[i], Resolved(entries[i]), elapsed);
      MatchResolves(b.addresses[i], entries[i], elapsed);
      assert ResolvedAll(a.addresses)[i] == ResolvedAll(b.addresses)[i];
    }
  }

  lemma {:induction false} FindResolves(entries: seq<AddressObservation>, address: Ipv4Address)
    ensures var found := Find(entries, address);
            Find(ResolvedAll(entries), address) == if found.Some? then Some(Resolved(found.value)) else None
  {
    if entries != [] {
      FindResolves(entries[1..], address);
      assert ResolvedAll(entries)[1..] == ResolvedAll(entries[1..]);
    }
  }

  lemma {:induction false} PrimaryResolves(entries: seq<AddressObservation>, address: Ipv4Address)
    ensures var found := FindPrimary(entries, address);
            FindPrimary(ResolvedAll(entries), address) == if found.Some? then Some(Resolved(found.value)) else None
  {
    if entries != [] {
      PrimaryResolves(entries[1..], address);
      assert ResolvedAll(entries)[1..] == ResolvedAll(entries[1..]);
    }
  }

  lemma EndangersResolves(diff: StateDiff, index: nat, target: InterfaceId, removed: Ipv4Address,
                          primary: AddressObservation, secondary: AddressObservation, eligible: seq<bool>)
    requires index < |diff.operations| && index < |eligible|
    ensures Endangers(diff, index, target, removed, Resolved(primary), Resolved(secondary), eligible)
       <==> Endangers(diff, index, target, removed, primary, secondary, eligible)
  {
  }

  lemma CascadeResolves(diff: StateDiff, index: nat, device: DeviceObservation, kind: OperationKind,
                        eligible: seq<bool>)
    requires index < |diff.operations| && index < |eligible|
    ensures CascadeRefused(diff, index, ResolvedDevice(device), kind, eligible)
      <==> CascadeRefused(diff, index, device, kind, eligible)
  {
    hide Endangers;
    if kind.RemoveIpv4? {
      PrimaryResolves(device.addresses, kind.address);
      var entries, resolved := device.addresses, ResolvedAll(device.addresses);
      if primary :| FindPrimary(entries, kind.address) == Some(primary) {
        forall i | 0 <= i < |entries|
          ensures Endangers(diff, index, device.identity, kind.address, Resolved(primary), resolved[i], eligible)
             <==> Endangers(diff, index, device.identity, kind.address, primary, entries[i], eligible)
          ensures resolved[i] in resolved && entries[i] in entries
        {
          EndangersResolves(diff, index, device.identity, kind.address, primary, entries[i], eligible);
        }
      }
    }
  }

  lemma LifetimesResolve(wanted: Ipv4Address, entry: AddressObservation, elapsed: Option<Duration>)
    ensures LifetimesEqual(wanted, Resolved(entry).address, elapsed) <==> LifetimesEqual(wanted, entry.address, elapsed)
  {
    hide LifetimeMatches;
  }

  lemma SatisfiedResolves(kind: OperationKind, device: DeviceObservation, op: Operation)
    ensures Satisfied(kind, ResolvedDevice(device), op) == Satisfied(kind, device, op)
  {
    hide LifetimesEqual, Present;
    if kind.Addresses() {
      FindResolves(device.addresses, kind.address);
      PresenceResolves(device.addresses, kind.address);
      var found := Find(device.addresses, kind.address);
      if found.Some? {
        LifetimesResolve(kind.address, found.value, GuardElapsed(op, device, kind.address));
      }
    }
  }

  lemma LocateResolves(observation: Observation, identity: InterfaceId, namespace: NamespaceId)
    ensures Locate(ResolvedObservation(observation), identity, namespace) == Locate(observation, identity, namespace)
  {
    FirstResolves(observation.devices, ResolvedObservation(observation).devices, identity.index);
  }

  lemma {:induction false} FirstResolves(a: seq<DeviceObservation>, b: seq<DeviceObservation>, index: u32)
    requires |a| == |b| && forall i | 0 <= i < |a| :: a[i].identity == b[i].identity
    ensures FirstWithIndex(a, index) == FirstWithIndex(b, index)
  {
    if a != [] {
      FirstResolves(a[1..], b[1..], index);
    }
  }

  lemma GroupValidationResolves(op: Operation, device: DeviceObservation, kind: OperationKind, a: Groups, b: Groups)
    requires SameGroups(a, b)
    ensures var (refusedA, adoptedA) := ValidateGroup(op, ResolvedDevice(device), kind, a);
            var (refusedB, adoptedB) := ValidateGroup(op, device, kind, b);
            refusedA == refusedB && SameGroups(adoptedA, adoptedB)
  {
    hide GroupMatches, Members;
    if kind.Addresses() && KeyOf(op.target, kind.address).Some? {
      var key := KeyOf(op.target, kind.address).value;
      var adoptedA, adoptedB := Adopt(op, key, a), Adopt(op, key, b);
      assert SameGroups(adoptedA, adoptedB);
      MembersResolve(device.addresses, key);
      PresenceResolves(device.addresses, kind.address);
      if key in adoptedA {
        GroupMatchResolves(adoptedA[key], adoptedB[key], Members(device.addresses, key), device.observedAt);
      }
    }
  }

  lemma DecisionsResolve(a: Job, b: Job, index: nat, eligible: seq<bool>, groupsA: Groups, groupsB: Groups,
                         observation: Observation, decoded: Option<OperationKind>)
    requires a.diff == b.diff && a.env.namespace == b.env.namespace
    requires index < |a.diff.operations| && index < |eligible|
    requires SameGroups(groupsA, groupsB)
    ensures var (decisionA, adoptedA) := Decide(a, index, eligible, groupsA, ResolvedObservation(observation), decoded);
            var (decisionB, adoptedB) := Decide(b, index, eligible, groupsB, observation, decoded);
            decisionA == decisionB && SameGroups(adoptedA, adoptedB)
  {
    hide ValidateGroup, Satisfied, CascadeRefused, Locate;
    var op := a.diff.operations[index];
    LocateResolves(observation, op.target, a.env.namespace);
    var located := Locate(observation, op.target, a.env.namespace);
    if located.Success? && decoded.Some? {
      var device := observation.devices[located.value];
      assert ResolvedObservation(observation).devices[located.value] == ResolvedDevice(device);
      GroupValidationResolves(op, device, decoded.value, groupsA, groupsB);
      SatisfiedResolves(decoded.value, device, op);
      CascadeResolves(a.diff, index, device, decoded.value, eligible);
    }
  }

  // ---------------------------------------------------------------- writes

  /** A lapsed preferred lifetime shows as the deprecated flag, as the kernel keeps it. */
  ghost predicate Normal(entry: AddressObservation) {
    entry.address.PreferredLifetime() == 0 ==> entry.flags & IFA_F_DEPRECATED != 0
  }

  /** Observed at the frozen instant, with consistent flags. */
  ghost predicate NormalDevice(device: DeviceObservation, at: Instant) {
    device.observedAt == at && forall entry | entry in device.addresses :: Normal(entry)
  }

  ghost predicate NormalObservation(observation: Observation, at: Instant) {
    forall device | device in observation.devices :: NormalDevice(device, at)
  }

  lemma DeprecatedBit(flags: bv32)
    ensures flags & IFA_F_DEPRECATED != 0 ==> flags | IFA_F_DEPRECATED == flags
    ensures flags | IFA_F_DEPRECATED | IFA_F_SECONDARY == (flags | IFA_F_SECONDARY) | IFA_F_DEPRECATED
    ensures (flags | IFA_F_DEPRECATED) & IFA_F_DEPRECATED != 0
  {
  }

  /** With the clock frozen, rebasing only writes lifetimes out. */
  lemma RebaseResolves(device: DeviceObservation, at: Instant)
    requires NormalDevice(device, at)
    ensures Rebase(device, at) == ResolvedDevice(device)
  {
    forall i | 0 <= i < |device.addresses|
      ensures RebaseEntry(device.addresses[i], 0) == Resolved(device.addresses[i])
    {
      assert device.addresses[i] in device.addresses;
      DeprecatedBit(device.addresses[i].flags);
    }
    assert WholeSeconds(0) == 0;
    assert RebaseAddresses(device.addresses, 0) == ResolvedAll(device.addresses);
  }

  lemma LifetimeFlagsAreNormal(address: Ipv4Address, other: bv32)
    ensures address.PreferredLifetime() == 0 ==> (LifetimeFlags(address) | other) & IFA_F_DEPRECATED != 0
    ensures address.PreferredLifetime() == 0 ==> (other | LifetimeFlags(address)) & IFA_F_DEPRECATED != 0
  {
  }

  lemma {:induction false} ReplacementIsNormal(entries: seq<AddressObservation>, address: Ipv4Address)
    requires forall entry | entry in entries :: Normal(entry)
    ensures forall entry | entry in ReplaceFirst(entries, address) :: Normal(entry)
  {
    if entries != [] {
      ReplacementIsNormal(entries[1..], address);
      LifetimeFlagsAreNormal(address, entries[0].flags & !(IFA_F_PERMANENT | IFA_F_DEPRECATED));
    }
  }

  lemma ProjectionIsNormal(device: DeviceObservation, kind: OperationKind, at: Instant)
    requires NormalDevice(device, at)
    ensures NormalDevice(Project(device, kind), at)
  {
    if kind.AddIpv4? {
      LifetimeFlagsAreNormal(kind.address, 0);
      LifetimeFlagsAreNormal(kind.address, IFA_F_SECONDARY);
    } else if kind.ReplaceIpv4? {
      ReplacementIsNormal(device.addresses, kind.address);
    }
  }

  lemma ResolutionIsNormal(device: DeviceObservation, at: Instant)
    requires NormalDevice(device, at)
    ensures NormalDevice(ResolvedDevice(device), at)
    ensures ResolvedDevice(ResolvedDevice(device)) == ResolvedDevice(device)
  {
    var once := ResolvedAll(device.addresses);
    assert ResolvedAll(once) == once;
    forall entry | entry in once ensures Normal(entry) {
      var i :| 0 <= i < |once| && once[i] == entry;
      assert device.addresses[i] in device.addresses;
    }
  }

  /** Observing what was predicted passes the verification. */
  lemma PredictionVerifies(job: Job, index: nat, eligible: seq<bool>, kind: OperationKind,
                           predicted: DeviceObservation, after: Observation, position: nat)
    requires index < |job.diff.operations| && index < |eligible| && kind.Addresses()
    requires kind.address.Group().Some? && predicted.addressesComplete
    requires Locate(after, job.diff.operations[index].target, job.env.namespace) == Success(position)
    requires after.devices[position] == ResolvedDevice(predicted)
    ensures Verify(job, index, eligible, kind, predicted, after) == Success(ResolvedDevice(predicted))
  {
    hide AddressMatches, Present, Members, Locate;
    var target := job.diff.operations[index].target;
    var key := KeyOf(target, kind.address).value;
    var members := Members(predicted.addresses, key);
    MembersResolve(predicted.addresses, key);
    NothingIsAwaited(job.diff, index, target, eligible, members, members);
    NothingIsPromoted(members);
    forall i | 0 <= i < |members| ensures AddressMatches(members[i], ResolvedAll(members)[i], 0) {
      UnchangedMatches(members[i]);
    }
    forall entry | entry in predicted.addresses ensures Present(ResolvedAll(predicted.addresses), entry.address) {
      PresenceResolves(predicted.addresses, entry.address);
      PresentInItself(predicted.addresses, entry);
    }
  }

  lemma PresentInItself(entries: seq<AddressObservation>, entry: AddressObservation)
    requires entry in entries
    ensures Present(entries, entry.address)
  {
  }

  lemma UnchangedMatches(entry: AddressObservation)
    ensures AddressMatches(entry, Resolved(entry), 0)
  {
    assert WholeSeconds(0) == 0;
  }

  lemma {:induction false} NothingIsAwaited(diff: StateDiff, index: nat, target: InterfaceId, eligible: seq<bool>,
                                            expected: seq<AddressObservation>, members: seq<AddressObservation>)
    requires index < |diff.operations| && index < |eligible|
    requires forall entry | entry in expected :: entry in members
    ensures Awaited(diff, index, target, eligible, expected, ResolvedAll(members)) == expected
  {
    hide RemovalIsCovered;
    if expected != [] {
      PresenceResolves(members, expected[0].address);
      PresentInItself(members, expected[0]);
      NothingIsAwaited(diff, index, target, eligible, expected[1..], members);
    }
  }

  lemma PrimaryBits(flags: bv32)
    requires flags & IFA_F_SECONDARY == 0
    ensures flags & !IFA_F_SECONDARY == flags
  {
  }

  lemma NothingIsPromoted(members: seq<AddressObservation>)
    ensures Promote(members, ResolvedAll(members)) == members
  {
    if members != [] && !members[0].Secondary() {
      PrimaryBits(members[0].flags);
      assert members == [members[0]] + members[1..];
    }
  }

  // ---------------------------------------------------------------- the ideal kernel

  /** A kernel whose writes do exactly what is projected, on the link with the index. */
  ghost function Written(kernel: Observation, target: InterfaceId, kind: OperationKind): Observation {
    match FirstWithIndex(kernel.devices, target.index)
    case None => kernel
    case Some(position) =>
      Observation(kernel.devices[position := ResolvedDevice(Project(kernel.devices[position], kind))])
  }

  /** The kernel after the writes of a log. */
  ghost function KernelAfter(initial: Observation, log: Log): Observation {
    if log == [] then initial
    else
      var before, last := KernelAfter(initial, log[..|log| - 1]), log[|log| - 1];
      if last.Wrote? then Written(before, last.target, last.kind) else before
  }

  lemma KernelAfterEvent(initial: Observation, log: Log, event: Event)
    ensures KernelAfter(initial, log + [event]) ==
            if event.Wrote? then Written(KernelAfter(initial, log), event.target, event.kind)
            else KernelAfter(initial, log)
  {
    assert (log + [event])[..|log|] == log;
  }

  /** No failure, no cancellation, and a clock that stands still. */
  ghost predicate Frozen(env: Environment, at: Instant) {
    forall t: nat :: !env.cancelled(t) && env.now(t) == at && env.execute(t) == None
  }

  /** Every inventory answers with the kernel as the writes so far left it. */
  ghost predicate Truthful(initial: Observation, log: Log) {
    forall t | 0 <= t < |log| && log[t].Observed? :: log[t].answer == Success(KernelAfter(initial, log[..t]))
  }

  /** A frozen world in which an apply meets the ideal kernel and a preview its initial state. */
  ghost predicate Ideal(apply: Job, preview: Job, initial: Observation, at: Instant) {
    && !apply.preview && preview.preview
    && apply.diff == preview.diff
    && apply.schema == preview.schema
    && apply.env.namespace == preview.env.namespace
    && Frozen(apply.env, at) && Frozen(preview.env, at)
    && (forall t: nat :: preview.env.inventory(t) == Success(initial))
    && ResolvedObservation(initial) == initial
    && NormalObservation(initial, at)
  }

  ghost function Projected(initial: Observation, p: Progress): Observation {
    if p.current.Some? then p.current.value else initial
  }

  /** The kernel is what the preview projects, once lifetimes are written out. */
  ghost predicate Simulates(initial: Observation, at: Instant, a: Progress, b: Progress) {
    && KernelAfter(initial, a.log) == ResolvedObservation(Projected(initial, b))
    && NormalObservation(Projected(initial, b), at)
    && SameGroups(a.groups, b.groups)
    && (a.current.Some? ==> a.current.value == KernelAfter(initial, a.log))
  }

  lemma AdvanceSimulates(a: Progress, b: Progress, target: InterfaceId, kind: OperationKind, device: DeviceObservation)
    requires SameGroups(a.groups, b.groups)
    ensures var (verdictA, nextA) := Advance(a, target, kind, ResolvedDevice(device));
            var (verdictB, nextB) := Advance(b, target, kind, device);
            && verdictA == verdictB
            && SameGroups(nextA.groups, nextB.groups)
            && nextA.log == a.log && nextA.current == a.current
            && nextB.log == b.log && nextB.current == b.current
  {
    hide Members;
    if kind.Addresses() && KeyOf(target, kind.address).Some? {
      var key := KeyOf(target, kind.address).value;
      MembersResolve(device.addresses, key);
      var members := Members(device.addresses, key);
      assert ResolvedAll(ResolvedAll(members)) == ResolvedAll(members);
    }
  }

  lemma KeepsIdentity(device: DeviceObservation, now: Instant, kind: OperationKind)
    ensures Project(Rebase(device, now), kind).identity == device.identity
    ensures Project(Rebase(device, now), kind).addressesComplete == device.addressesComplete
  {
  }

  /** What a write leaves is the same on both sides. */
  lemma WrittenIsProjected(seen: Observation, target: InterfaceId, namespace: NamespaceId, kind: OperationKind,
                           position: nat, at: Instant)
    requires NormalObservation(seen, at) && Locate(seen, target, namespace) == Success(position)
    ensures var predicted := Project(Rebase(seen.devices[position], at), kind);
            var after := Observation(seen.devices[position := predicted]);
            && Project(Rebase(ResolvedDevice(seen.devices[position]), at), kind) == predicted
            && Written(ResolvedObservation(seen), target, kind) == ResolvedObservation(after)
            && NormalObservation(after, at)
            && Locate(after, target, namespace) == Success(position)
            && Locate(ResolvedObservation(after), target, namespace) == Success(position)
  {
    hide Project, Rebase, Normal;
    var device := seen.devices[position];
    assert device in seen.devices;
    KeepsIdentity(device, at, kind);
    RebaseResolves(device, at);
    ResolutionIsNormal(device, at);
    RebaseResolves(ResolvedDevice(device), at);
    ProjectionIsNormal(ResolvedDevice(device), kind, at);
    var predicted := Project(Rebase(device, at), kind);
    var after := Observation(seen.devices[position := predicted]);
    LocateResolves(seen, target, namespace);
    PositionIsKept(seen, predicted, target, namespace, position, kind);
    LocateResolves(after, target, namespace);
    FirstResolves(seen.devices, ResolvedObservation(seen).devices, target.index);
    assert ResolvedObservation(seen).devices[position := ResolvedDevice(predicted)]
      == ResolvedObservation(after).devices;
    forall d | d in after.devices ensures NormalDevice(d, at) {
      assert d == predicted || d in seen.devices;
    }
  }

  lemma PositionIsKept(seen: Observation, predicted: DeviceObservation, target: InterfaceId, namespace: NamespaceId,
                       position: nat, kind: OperationKind)
    requires Locate(seen, target, namespace) == Success(position)
      && predicted.identity == seen.devices[position].identity
    ensures FirstWithIndex(seen.devices, target.index) == Some(position)
    ensures Locate(Observation(seen.devices[position := predicted]), target, namespace) == Success(position)
  {
    var devices := seen.devices[position := predicted];
    FirstResolves(seen.devices, devices, target.index);
  }

  // ---------------------------------------------------------------- simulation

  /** Both sides are about to write on what they see. */
  ghost predicate AboutToWrite(apply: Job, preview: Job, initial: Observation, at: Instant, a: Progress, b: Progress,
                               index: nat, seen: Observation, position: nat, kind: OperationKind)
  {
    && Ideal(apply, preview, initial, at)
    && index < |apply.diff.operations|
    && Simulates(initial, at, a, b)
    && b.current == Some(seen)
    && Locate(seen, apply.diff.operations[index].target, apply.env.namespace) == Success(position)
    && (kind.Addresses() ==> kind.address.Group().Some? && seen.devices[position].addressesComplete)
  }

  lemma ConfirmIsVerified(apply: Job, initial: Observation, a: Progress, eligible: seq<bool>, index: nat,
                          kind: OperationKind, predicted: DeviceObservation, position: nat)
    requires index < |apply.diff.operations| && index < |eligible|
    requires kind.Addresses() ==> kind.address.Group().Some? && predicted.addressesComplete
    requires var kernel := KernelAfter(initial, a.log);
             && Locate(kernel, apply.diff.operations[index].target, apply.env.namespace) == Success(position)
             && kernel.devices[position] == ResolvedDevice(predicted)
    requires a.current.None?
    requires Truthful(initial, Confirm(apply, a, eligible, index, kind, predicted).1.log)
    ensures var (verdict, next) := Confirm(apply, a, eligible, index, kind, predicted);
            && KernelAfter(initial, next.log) == KernelAfter(initial, a.log)
            && (next.current.Some? ==> next.current.value == KernelAfter(initial, a.log))
            && (!kind.Addresses() ==> (verdict, next.groups) == (Succeeded, a.groups))
            && (kind.Addresses() ==>
                  var advanced := Advance(a, apply.diff.operations[index].target, kind, ResolvedDevice(predicted));
                  verdict == advanced.0 && next.groups == advanced.1.groups)
  {
    hide Members, Locate, Verify, Advance;
    var target := apply.diff.operations[index].target;
    if kind.Addresses() {
      var kernel := KernelAfter(initial, a.log);
      var answer := apply.env.inventory(|a.log|);
      var log := a.log + [Observed(answer)];
      KernelAfterEvent(initial, a.log, Observed(answer));
      var read := VerifyWrite(apply, a, eligible, index, kind, predicted).1;
      AdvanceIsLocal(read, a, target, kind, ResolvedDevice(predicted));
      assert read.log == log && read.groups == a.groups;
      forall actual ensures Advance(read, target, kind, actual).1.log == log {
        AdvanceIsLocal(read, a, target, kind, actual);
      }
      assert Confirm(apply, a, eligible, index, kind, predicted).1.log == log;
      assert log[..|a.log|] == a.log && log[|a.log|].Observed?;
      assert answer == Success(kernel);
      PredictionVerifies(apply, index, eligible, kind, predicted, kernel, position);
    } else {
      AdvanceOther(a, target, kind, predicted);
    }
  }

  /** Advancing a snapshot reads and writes snapshots only. */
  lemma AdvanceIsLocal(p: Progress, q: Progress, target: InterfaceId, kind: OperationKind, device: DeviceObservation)
    requires p.groups == q.groups
    ensures var (verdict, next) := Advance(p, target, kind, device);
            && next.log == p.log && next.current == p.current
            && verdict == Advance(q, target, kind, device).0 && next.groups == Advance(q, target, kind, device).1.groups
  {
  }

  lemma WriteSimulates(apply: Job, preview: Job, initial: Observation, at: Instant, a: Progress, b: Progress,
                       eligible: seq<bool>, index: nat, seen: Observation, position: nat, kind: OperationKind)
    requires AboutToWrite(apply, preview, initial, at, a, b, index, seen, position, kind)
    requires index < |eligible|
    requires Truthful(initial,
                      ApplyWrite(apply, a, eligible, index, ResolvedDevice(seen.devices[position]), kind).1.log)
    ensures var (verdictA, nextA) := ApplyWrite(apply, a, eligible, index, ResolvedDevice(seen.devices[position]),
                                                kind);
            var (verdictB, nextB) := PreviewWrite(preview, b, index, seen, position, kind);
            verdictA == verdictB && Simulates(initial, at, nextA, nextB)
  {
    hide Members, Locate, Confirm, Project, Rebase, Written, Advance;
    var target := apply.diff.operations[index].target;
    var polled := Poll(apply, a).1;
    KernelAfterEvent(initial, a.log, Polled(false));
    var written := SubmitWrite(apply, polled, index, kind).1;
    KernelAfterEvent(initial, polled.log, Wrote(index, target, kind, None));
    var timed := ReadClock(apply, written).1;
    KernelAfterEvent(initial, written.log, Timed(at));
    WrittenIsProjected(seen, target, apply.env.namespace, kind, position, at);
    var predicted := Project(Rebase(seen.devices[position], at), kind);
    var after := Observation(seen.devices[position := predicted]);
    assert KernelAfter(initial, timed.log) == ResolvedObservation(after);
    KeepsIdentity(seen.devices[position], at, kind);
    ConfirmIsVerified(apply, initial, timed, eligible, index, kind, predicted, position);
    var previewed := ReadClock(preview, b).1.(current := Some(after));
    AdvanceSimulates(timed, previewed, target, kind, predicted);
    if !kind.Addresses() {
      AdvanceOther(previewed, target, kind, predicted);
    }
  }

  lemma AdvanceOther(p: Progress, target: InterfaceId, kind: OperationKind, device: DeviceObservation)
    requires !kind.Addresses()
    ensures Advance(p, target, kind, device) == (Succeeded, p)
  {
  }

  lemma ObservationSimulates(apply: Job, preview: Job, initial: Observation, at: Instant, a: Progress, b: Progress)
    requires Ideal(apply, preview, initial, at) && Simulates(initial, at, a, b)
    requires Truthful(initial, Observe(apply, a).1.log)
    ensures var seen := Projected(initial, b);
            var (answerA, nextA) := Observe(apply, a);
            var (answerB, nextB) := Observe(preview, b);
            && answerA == Success(ResolvedObservation(seen))
            && answerB == Success(seen)
            && nextB.current == Some(seen)
            && nextA.current == Some(ResolvedObservation(seen))
            && Simulates(initial, at, nextA, nextB)
  {
    hide KernelAfter, NormalObservation, SameGroups, ResolvedObservation;
    var answer := apply.env.inventory(|a.log|);
    var log := a.log + [Observed(answer)];
    KernelAfterEvent(initial, a.log, Observed(answer));
    if a.current.None? {
      assert Observe(apply, a).1.log == log;
      assert log[..|a.log|] == a.log && log[|a.log|].Observed?;
    }
  }

  lemma ProceedingFacts(job: Job, index: nat, eligible: seq<bool>, groups: Groups, observation: Observation,
                        decoded: Option<OperationKind>)
    requires index < |job.diff.operations| && index < |eligible|
    requires Decide(job, index, eligible, groups, observation, decoded).0.Proceed?
    ensures var decision := Decide(job, index, eligible, groups, observation, decoded).0;
            && decoded == Some(decision.kind)
            && Locate(observation, job.diff.operations[index].target, job.env.namespace) == Success(decision.position)
            && (decision.kind.Addresses() ==>
                  decision.kind.address.Group().Some? && observation.devices[decision.position].addressesComplete)
  {
    hide Satisfied, CascadeRefused, GroupMatches, Locate, Members;
  }

  lemma ActExtendsLog(job: Job, p: Progress, eligible: seq<bool>, index: nat, observation: Observation,
                      decision: Decision)
    requires index < |job.diff.operations| && index < |eligible|
    requires decision.Proceed? ==> decision.position < |observation.devices|
    ensures p.log <= Act(job, p, eligible, index, observation, decision).1.log
  {
    hide Project, Rebase, Verify, Members;
  }

  lemma PrefixIsTruthful(initial: Observation, before: Log, log: Log)
    requires before <= log && Truthful(initial, log)
    ensures Truthful(initial, before)
  {
    hide KernelAfter;
    forall t | 0 <= t < |before| && before[t].Observed?
      ensures before[t].answer == Success(KernelAfter(initial, before[..t]))
    {
      assert log[t] == before[t] && log[..t] == before[..t];
    }
  }

  lemma PerformSimulates(apply: Job, preview: Job, initial: Observation, at: Instant, a: Progress, b: Progress,
                         eligible: seq<bool>, index: nat, decoded: Option<OperationKind>)
    requires Ideal(apply, preview, initial, at) && Simulates(initial, at, a, b)
    requires index < |apply.diff.operations| && index < |eligible|
    requires Truthful(initial, Perform(apply, a, eligible, index, decoded).1.log)
    ensures var (verdictA, nextA) := Perform(apply, a, eligible, index, decoded);
            var (verdictB, nextB) := Perform(preview, b, eligible, index, decoded);
            verdictA == verdictB && Simulates(initial, at, nextA, nextB)
  {
    hide Locate, Decide, ApplyWrite, PreviewWrite, Truthful, KernelAfter;
    var (answer, observedA) := Observe(apply, a);
    if answer.Success? {
      var (decision, groups) := Decide(apply, index, eligible, observedA.groups, answer.value, decoded);
      ActExtendsLog(apply, observedA.(groups := groups), eligible, index, answer.value, decision);
    }
    PrefixIsTruthful(initial, observedA.log, Perform(apply, a, eligible, index, decoded).1.log);
    ObservationSimulates(apply, preview, initial, at, a, b);
    var seen, observedB := Projected(initial, b), Observe(preview, b).1;
    DecisionsResolve(apply, preview, index, eligible, observedA.groups, observedB.groups, seen, decoded);
    var (decision, groupsB) := Decide(preview, index, eligible, observedB.groups, seen, decoded);
    var groupsA := Decide(apply, index, eligible, observedA.groups, ResolvedObservation(seen), decoded).1;
    if decision.Proceed? {
      ProceedingFacts(preview, index, eligible, observedB.groups, seen, decoded);
      WriteSimulates(apply, preview, initial, at, observedA.(groups := groupsA), observedB.(groups := groupsB),
                     eligible, index, seen, decision.position, decision.kind);
    }
  }

  lemma AttemptSimulates(apply: Job, preview: Job, initial: Observation, at: Instant, a: Progress, b: Progress,
                         eligible: seq<bool>, index: nat)
    requires Ideal(apply, preview, initial, at) && Simulates(initial, at, a, b)
    requires index < |apply.diff.operations| == |eligible|
    requires Truthful(initial, Attempt(apply, a, eligible, index).1.log)
    ensures var (verdictA, nextA) := Attempt(apply, a, eligible, index);
            var (verdictB, nextB) := Attempt(preview, b, eligible, index);
            verdictA == verdictB && Simulates(initial, at, nextA, nextB)
  {
    hide Perform, Decode, Truthful;
    KernelAfterEvent(initial, a.log, Polled(false));
    var decoded := Decode(apply.diff.operations[index].kind, apply.schema);
    if Attempted(apply, a, eligible, index) && decoded.Success? {
      PerformSimulates(apply, preview, initial, at, Poll(apply, a).1, Poll(preview, b).1, eligible, index,
                       decoded.value);
    }
  }

  /**
   Preview refines apply: on a kernel whose writes do exactly what is projected,
   with nothing else changing, every operation of every plan gets the same verdict
   in both modes, and what the preview projects is the final kernel state up to
   resolved lifetimes.
   */
  lemma {:induction false} PreviewRefinesApply(apply: Job, preview: Job, initial: Observation, at: Instant, n: nat)
    requires Ideal(apply, preview, initial, at) && n <= |apply.diff.operations|
    requires Truthful(initial, RunTo(apply, n).progress.log)
    ensures RunTo(apply, n).verdicts == RunTo(preview, n).verdicts
    ensures Simulates(initial, at, RunTo(apply, n).progress, RunTo(preview, n).progress)
  {
    hide Attempt, Truthful, Simulates;
    if n == 0 {
      StartSimulates(apply, preview, initial, at);
    } else {
      var before := RunTo(apply, n - 1);
      LogGrows(apply, n - 1);
      PrefixIsTruthful(initial, before.progress.log, RunTo(apply, n).progress.log);
      PreviewRefinesApply(apply, preview, initial, at, n - 1);
      AttemptSimulates(apply, preview, initial, at, before.progress, RunTo(preview, n - 1).progress,
                       EligibleAfter(apply.diff, before.verdicts), n - 1);
    }
  }

  lemma StartSimulates(apply: Job, preview: Job, initial: Observation, at: Instant)
    requires Ideal(apply, preview, initial, at)
    ensures Simulates(initial, at, START, START)
  {
  }
}
