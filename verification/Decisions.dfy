/**
 What the executor decides about one operation from what it observes: where the
 target is, whether its prefix group is as planned, whether anything is left to
 do, and with which error it refuses (executor.rs).
 */
module Decisions {
  import opened Wrappers
  import opened OrderedMaps
  import opened Values
  import opened Plan
  import opened Report
  import opened Lifetimes
  import opened Executor
  import opened KernelWrites
  import opened Subsequences

  // ---------------------------------------------------------------- where the target is

  /** The first device of that index. */
  ghost predicate FirstOfIndex(observation: Observation, index: u32, position: nat) {
    && position < |observation.devices| && observation.devices[position].identity.index == index
    && forall i | 0 <= i < position :: observation.devices[i].identity.index != index
  }

  ghost predicate NoneOfIndex(observation: Observation, index: u32) {
    forall d | d in observation.devices :: d.identity.index != index
  }

  /** The errors of locating a target, each with its condition, and the one success. */
  lemma LocateMeans(observation: Observation, identity: InterfaceId, namespace: NamespaceId)
    ensures var located := Locate(observation, identity, namespace);
            var here := identity.namespace == namespace;
            && (located == Failure(StaleState) <==>
                  || !here
                  || exists p: nat | FirstOfIndex(observation, identity.index, p) ::
                       observation.devices[p].identity != identity)
            && (located == Failure(NotFound) <==> here && NoneOfIndex(observation, identity.index))
            && (located == Failure(UnsupportedEntityType) <==>
                  && here && identity.deviceType != "ethernet"
                  && exists p: nat | FirstOfIndex(observation, identity.index, p) ::
                       observation.devices[p].identity == identity)
            && (forall p: nat ::
                  located == Success(p) <==>
                  && here && identity.deviceType == "ethernet"
                  && FirstOfIndex(observation, identity.index, p) && observation.devices[p].identity == identity)
  {
    forall p: nat, q: nat
      | FirstOfIndex(observation, identity.index, p) && FirstOfIndex(observation, identity.index, q)
      ensures p == q
    {
    }
    var found := FirstWithIndex(observation.devices, identity.index);
    if found.Some? {
      assert FirstOfIndex(observation, identity.index, found.value);
      assert observation.devices[found.value] in observation.devices;
    }
  }

  // ---------------------------------------------------------------- the prefix group

  /** The positions of the group's members, in order, none left out. */
  ghost predicate ArePositions(entries: seq<AddressObservation>, key: GroupKey, at: seq<nat>) {
    && (forall k | 0 <= k < |at| :: at[k] < |entries| && key.Contains(entries[at[k]].address))
    && (forall k, l | 0 <= k < l < |at| :: at[k] < at[l])
    && (forall i: nat | i < |entries| && key.Contains(entries[i].address) :: i in at)
  }

  function Keeps(entries: seq<AddressObservation>, key: GroupKey): (r: seq<bool>)
    ensures |r| == |entries|
    ensures forall i | 0 <= i < |r| :: r[i] == key.Contains(entries[i].address)
  {
    seq(|entries|, i requires 0 <= i < |entries| => key.Contains(entries[i].address))
  }

  lemma PositionsAreSelected(entries: seq<AddressObservation>, key: GroupKey, at: seq<nat>)
    ensures ArePositions(entries, key, at) <==> Selects(Keeps(entries, key), at)
  {
    hide GroupKey.Contains;
  }

  lemma {:induction false} MembersArePicked(entries: seq<AddressObservation>, key: GroupKey)
    ensures Members(entries, key) == Picked(entries, Keeps(entries, key))
  {
    hide GroupKey.Contains;
    if entries != [] {
      MembersArePicked(entries[1..], key);
      PickedHead(entries, Keeps(entries, key));
      assert Keeps(entries, key)[1..] == Keeps(entries[1..], key);
    }
  }

  lemma MemberPositions(entries: seq<AddressObservation>, key: GroupKey) returns (at: seq<nat>)
    ensures ArePositions(entries, key, at)
    ensures |Members(entries, key)| == |at|
    ensures forall k | 0 <= k < |at| :: at[k] < |entries| && Members(entries, key)[k] == entries[at[k]]
  {
    hide GroupKey.Contains, Members, Picked, Keeps, ArePositions;
    MembersArePicked(entries, key);
    at := PickedAt(entries, Keeps(entries, key));
    PositionsAreSelected(entries, key, at);
  }

  /** The same address with the same attributes, its lifetimes run down; a lapsed preference may have deprecated it. */
  ghost predicate SameButAged(expected: AddressObservation, actual: AddressObservation, elapsed: Duration) {
    && expected.address.ip == actual.address.ip && expected.address.prefixLen == actual.address.prefixLen
    && expected.scope == actual.scope && expected.peer == actual.peer
    && (|| expected.flags == actual.flags
        || (&& Toggled(expected.flags, actual.flags) && Preferred(actual.address) == 0
            && LifetimeMatches(Preferred(expected.address), 0, elapsed)))
    && LifetimeMatches(Valid(expected.address), Valid(actual.address), elapsed)
    && LifetimeMatches(Preferred(expected.address), Preferred(actual.address), elapsed)
  }

  lemma MatchesMeans(expected: AddressObservation, actual: AddressObservation, elapsed: Duration)
    ensures AddressMatches(expected, actual, elapsed) <==> SameButAged(expected, actual, elapsed)
  {
    hide FlagsMatch, Toggled, LifetimeMatches;
    LifetimesMean(expected.address);
    LifetimesMean(actual.address);
    FlagsMatchMeans(expected.flags, actual.flags,
                    actual.address.PreferredLifetime() == 0
                      && LifetimeMatches(expected.address.PreferredLifetime(), 0, elapsed));
  }

  /** The device shows the snapshot's members, these and no others, in their order. */
  ghost predicate StillAsIn(snapshot: ExpectedGroup, device: DeviceObservation, key: GroupKey) {
    exists at: seq<nat> | ArePositions(device.addresses, key, at) ::
      && |at| == |snapshot.addresses|
      && forall k | 0 <= k < |at| ::
           SameButAged(snapshot.addresses[k], device.addresses[at[k]],
                       if device.observedAt < snapshot.observedAt then 0
                       else device.observedAt - snapshot.observedAt)
  }

  lemma OnePositions(entries: seq<AddressObservation>, key: GroupKey, a: seq<nat>, b: seq<nat>)
    requires ArePositions(entries, key, a) && ArePositions(entries, key, b)
    ensures a == b
  {
    hide ArePositions, Selects, Keeps;
    PositionsAreSelected(entries, key, a);
    PositionsAreSelected(entries, key, b);
    SelectsOnce(Keeps(entries, key), a, b);
  }

  lemma GroupMatchesMeans(snapshot: ExpectedGroup, device: DeviceObservation, key: GroupKey)
    ensures GroupMatches(snapshot, Members(device.addresses, key), device.observedAt)
            <==> StillAsIn(snapshot, device, key)
  {
    hide AddressMatches, SameButAged, Members, ArePositions;
    var at := MemberPositions(device.addresses, key);
    var elapsed := Since(device.observedAt, snapshot.observedAt);
    forall b | ArePositions(device.addresses, key, b) ensures b == at {
      OnePositions(device.addresses, key, at, b);
    }
    if |at| == |snapshot.addresses| {
      forall k | 0 <= k < |at|
        ensures AddressMatches(snapshot.addresses[k], device.addresses[at[k]], elapsed)
                <==> SameButAged(snapshot.addresses[k], device.addresses[at[k]], elapsed)
      {
        MatchesMeans(snapshot.addresses[k], device.addresses[at[k]], elapsed);
      }
    }
  }

  /** The snapshot a group is compared with: the one already held, else the operation's own guard. */
  ghost predicate IsSnapshot(op: Operation, key: GroupKey, groups: Groups, s: ExpectedGroup) {
    if key in groups then s == groups[key]
    else
      && op.addressGroup.Some?
      && s.addresses == op.addressGroup.value.addresses && s.observedAt == op.addressGroup.value.observedAt
  }

  ghost predicate GuardsAnother(op: Operation, group: PrefixGroup) {
    op.addressGroup.Some? && exists entry | entry in op.addressGroup.value.addresses ::
      entry.address.Group() != Some(group)
  }

  ghost predicate Holds(device: DeviceObservation, address: Ipv4Address) {
    exists entry | entry in device.addresses :: Is(entry, address)
  }

  /** The group is known and has changed, or it is unknown and the operation would take something from it. */
  ghost predicate IsStale(op: Operation, device: DeviceObservation, kind: OperationKind, groups: Groups, key: GroupKey)
    requires kind.Addresses()
  {
    || GuardsAnother(op, key.group)
    || (exists s :: IsSnapshot(op, key, groups, s) && !StillAsIn(s, device, key))
    || (key !in groups && op.addressGroup.None? && !kind.AddIpv4? && Holds(device, kind.address))
  }

  /** The errors of admission, each with its condition, and the snapshots it leaves. */
  lemma AdmissionMeans(op: Operation, device: DeviceObservation, kind: OperationKind, groups: Groups)
    ensures !kind.Addresses() ==> ValidateGroup(op, device, kind, groups) == (None, groups)
    ensures kind.Addresses() && !device.addressesComplete ==>
              ValidateGroup(op, device, kind, groups) == (Some(QueryFailed), groups)
    ensures kind.Addresses() && device.addressesComplete && kind.address.prefixLen > 32 ==>
              ValidateGroup(op, device, kind, groups) == (Some(UnsupportedOperation), groups)
    ensures kind.Addresses() && device.addressesComplete && kind.address.prefixLen <= 32 ==>
              var group := kind.address.Group().value;
              var key := GroupKey(op.target, group);
              var (error, after) := ValidateGroup(op, device, kind, groups);
              && (error == if IsStale(op, device, kind, groups, key) then Some(StaleState) else None)
              && (GuardsAnother(op, group) ==> after == groups)
              && (!GuardsAnother(op, group) ==>
                    && (forall k | k != key :: k in after <==> k in groups)
                    && (forall k | k in groups :: k in after && after[k] == groups[k])
                    && (key in after <==> key in groups || op.addressGroup.Some?)
                    && (key in after ==> IsSnapshot(op, key, groups, after[key])))
  {
    hide Masked, GroupMatches, Members, StillAsIn;
    if kind.Addresses() && device.addressesComplete {
      GroupExists(kind.address);
      if kind.address.prefixLen <= 32 {
        var key := GroupKey(op.target, kind.address.Group().value);
        var adopted := Adopt(op, key, groups);
        if key in adopted {
          GroupMatchesMeans(adopted[key], device, key);
        }
        PresentMeans(device, kind.address);
      }
    }
  }

  lemma GroupExists(address: Ipv4Address)
    ensures address.Group().Some? <==> address.prefixLen <= 32
  {
    hide Mask;
  }

  lemma PresentMeans(device: DeviceObservation, address: Ipv4Address)
    ensures Present(device.addresses, address) <==> Holds(device, address)
  {
    forall entry: AddressObservation ensures entry.address.SameIdentity(address) <==> Is(entry, address) {
    }
  }

  /** An addition to a group that nobody has described is let through. */
  lemma UnguardedAdditionIsAdmitted(op: Operation, device: DeviceObservation, address: Ipv4Address, groups: Groups)
    requires device.addressesComplete && address.prefixLen <= 32 && op.addressGroup.None?
    requires forall key | key in groups :: key.target != op.target || key.group != address.Group().value
    ensures ValidateGroup(op, device, AddIpv4(address), groups) == (None, groups)
  {
    hide Masked;
    GroupExists(address);
  }

  // ---------------------------------------------------------------- what is left to do

  /** The entry that stands for an address: the first of its identity. */
  ghost predicate StandsFor(device: DeviceObservation, address: Ipv4Address, entry: AddressObservation) {
    exists i | 0 <= i < |device.addresses| && device.addresses[i] == entry && Is(entry, address) ::
      forall j | 0 <= j < i :: !Is(device.addresses[j], address)
  }

  /**
   Lifetimes count as those wanted if they are the same or, when the guard lists
   the very address wanted, if they are what has run down since the guard.
   */
  ghost predicate HasLifetimes(op: Operation, device: DeviceObservation, wanted: Ipv4Address,
                               entry: AddressObservation) {
    if op.addressGroup.Some? && exists e | e in op.addressGroup.value.addresses :: e.address == wanted then
      var guard := op.addressGroup.value.observedAt;
      var elapsed := if device.observedAt < guard then 0 else device.observedAt - guard;
      && LifetimeMatches(Valid(wanted), Valid(entry.address), elapsed)
      && LifetimeMatches(Preferred(wanted), Preferred(entry.address), elapsed)
    else
      && Valid(wanted) == Valid(entry.address)
      && Preferred(wanted) == Preferred(entry.address)
  }

  /** What counts as done, and the two errors: an addition over other lifetimes, a replacement of nothing. */
  lemma SatisfiedMeans(kind: OperationKind, device: DeviceObservation, op: Operation)
    ensures match kind
            case SetMtu(mtu) => Satisfied(kind, device, op) == Success(Get(device.fields, "mtu") == Some(U64(mtu)))
            case SetEnabled(flag) =>
              Satisfied(kind, device, op) == Success(Get(device.fields, "enabled") == Some(Bool(flag)))
            case RemoveIpv4(address) => Satisfied(kind, device, op) == Success(!Holds(device, address))
            case AddIpv4(address) =>
              if !Holds(device, address) then Satisfied(kind, device, op) == Success(false)
              else
                exists entry | StandsFor(device, address, entry) ::
                  Satisfied(kind, device, op) ==
                  if HasLifetimes(op, device, address, entry) then Success(true) else Failure(ApplyFailed)
            case ReplaceIpv4(address) =>
              if !Holds(device, address) then Satisfied(kind, device, op) == Failure(NotFound)
              else
                exists entry | StandsFor(device, address, entry) ::
                  Satisfied(kind, device, op) == Success(HasLifetimes(op, device, address, entry))
            case _ => Satisfied(kind, device, op) == Success(false)
  {
    hide Find, LifetimeMatches, Get, StandsFor;
    match kind {
      case RemoveIpv4(address) => PresentMeans(device, address);
      case AddIpv4(address) =>
        PresentMeans(device, address);
        FindMeans(device, address);
        LifetimesMean(address);
      case ReplaceIpv4(address) =>
        PresentMeans(device, address);
        FindMeans(device, address);
        LifetimesMean(address);
      case _ =>
    }
  }

  lemma FindMeans(device: DeviceObservation, address: Ipv4Address)
    ensures Present(device.addresses, address) ==>
              StandsFor(device, address, Find(device.addresses, address).value)
  {
    hide Find;
    if Present(device.addresses, address) {
      FindIsFirst(device.addresses, address);
    }
  }

  lemma {:induction false} FindIsFirst(entries: seq<AddressObservation>, address: Ipv4Address)
    requires Present(entries, address)
    ensures exists i | 0 <= i < |entries| && entries[i] == Find(entries, address).value && Is(entries[i], address) ::
              forall j | 0 <= j < i :: !Is(entries[j], address)
  {
    var tail := entries[1..];
    if !entries[0].address.SameIdentity(address) {
      assert entries == [entries[0]] + tail;
      assert Present(tail, address);
      FindIsFirst(tail, address);
      var i :| 0 <= i < |tail| && tail[i] == Find(tail, address).value && Is(tail[i], address)
               && forall j | 0 <= j < i :: !Is(tail[j], address);
      assert entries[i + 1] == tail[i];
      assert forall j | 0 < j < i + 1 :: entries[j] == tail[j - 1];
    }
  }

  // ---------------------------------------------------------------- the decision

  /** Nothing is wrong with the target: it is there, unchanged, and one that the backend manages. */
  ghost predicate IsThere(job: Job, observation: Observation, target: InterfaceId, position: nat) {
    && target.namespace == job.env.namespace && target.deviceType == "ethernet"
    && FirstOfIndex(observation, target.index, position) && observation.devices[position].identity == target
  }

  /** Its prefix group can be read and is as planned. */
  ghost predicate IsAsPlanned(op: Operation, device: DeviceObservation, kind: OperationKind, groups: Groups) {
    kind.Addresses() ==>
      && device.addressesComplete && kind.address.prefixLen <= 32
      && !IsStale(op, device, kind, groups, GroupKey(op.target, kind.address.Group().value))
  }

  /** It is not done yet, and can be done. */
  ghost predicate IsMissing(op: Operation, device: DeviceObservation, kind: OperationKind) {
    match kind
    case SetMtu(mtu) => Get(device.fields, "mtu") != Some(U64(mtu))
    case SetEnabled(flag) => Get(device.fields, "enabled") != Some(Bool(flag))
    case RemoveIpv4(address) => Holds(device, address)
    case AddIpv4(address) => !Holds(device, address)
    case ReplaceIpv4(address) =>
      exists entry | StandsFor(device, address, entry) :: !HasLifetimes(op, device, address, entry)
    case _ => true
  }

  /** When a write goes ahead: exactly then, and for that device. */
  lemma WritesWhenAllHolds(job: Job, index: nat, eligible: seq<bool>, groups: Groups, observation: Observation,
                           kind: OperationKind, position: nat)
    requires index < |job.diff.operations| && index < |eligible|
    ensures var op := job.diff.operations[index];
            Decide(job, index, eligible, groups, observation, Some(kind)).0 == Proceed(position, kind) <==>
            && IsThere(job, observation, op.target, position)
            && IsAsPlanned(op, observation.devices[position], kind, groups)
            && IsMissing(op, observation.devices[position], kind)
            && !CascadeRefused(job.diff, index, observation.devices[position], kind, eligible)
  {
    hide Locate, ValidateGroup, Satisfied, CascadeRefused, IsStale, HasLifetimes, StandsFor, Holds, Get,
      FirstOfIndex, Masked;
    var op := job.diff.operations[index];
    LocateMeans(observation, op.target, job.env.namespace);
    var located := Locate(observation, op.target, job.env.namespace);
    if located.Success? {
      var device := observation.devices[located.value];
      AdmissionMeans(op, device, kind, groups);
      MissingMeans(kind, device, op);
    }
  }

  lemma MissingMeans(kind: OperationKind, device: DeviceObservation, op: Operation)
    ensures Satisfied(kind, device, op) == Success(false) <==> IsMissing(op, device, kind)
  {
    hide Satisfied, HasLifetimes, Get, StandsFor, Holds;
    SatisfiedMeans(kind, device, op);
    if kind.ReplaceIpv4? {
      StandsOnce(device, kind.address);
    }
  }

  lemma StandsOnce(device: DeviceObservation, address: Ipv4Address)
    ensures forall a, b | StandsFor(device, address, a) && StandsFor(device, address, b) :: a == b
    ensures (exists a :: StandsFor(device, address, a)) <==> Holds(device, address)
  {
    forall a, b | StandsFor(device, address, a) && StandsFor(device, address, b) ensures a == b {
      var i :| 0 <= i < |device.addresses| && device.addresses[i] == a && Is(a, address)
               && forall j | 0 <= j < i :: !Is(device.addresses[j], address);
      var k :| 0 <= k < |device.addresses| && device.addresses[k] == b && Is(b, address)
               && forall j | 0 <= j < k :: !Is(device.addresses[j], address);
      assert !(i < k) && !(k < i);
    }
    PresentMeans(device, address);
    FindMeans(device, address);
    forall a | StandsFor(device, address, a) ensures Holds(device, address) {
    }
  }
}
