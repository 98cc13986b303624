/**
 The plan executor as functions of what the outside world answers (executor.rs).
 The class Execution runs the same steps in place and is proved against these.
 */
module Executor {
  import opened Wrappers
  import opened OrderedMaps
  import opened Values
  import opened Schemas
  import opened Plan
  import opened Lifetimes
  import opened Report

  const ETHERNET := "ethernet"

  // ---------------------------------------------------------------- outside world

  /** Every answer the executor can get, indexed by how many it got before. */
  datatype Environment = Environment(
    namespace: NamespaceId,
    inventory: nat -> Result<Observation, BackendErrorKind>,
    execute: nat -> Option<BackendErrorKind>,
    now: nat -> Instant,
    cancelled: nat -> bool)

  /** One interaction with the outside world and its answer. */
  datatype Event =
    | Polled(cancelled: bool)
    | Observed(answer: Result<Observation, BackendErrorKind>)
    | Wrote(index: nat, target: InterfaceId, kind: OperationKind, error: Option<BackendErrorKind>)
    | Timed(now: Instant)

  type Log = seq<Event>

  // ---------------------------------------------------------------- decode and locate

  /** Nothing stands for a read-only field assignment. */
  function Decode(kind: OperationKind, schema: ValidatedRegistry): Result<Option<OperationKind>, BackendErrorKind> {
    match kind
    case SetField(field, value) =>
      var parts := match SplitOnce(field, '.') case Some(p) => p case None => ("base", field);
      (match LookupField(schema, parts.0, parts.1)
       case None => Failure(UnsupportedOperation)
       case Some(info) =>
         if !info.writable then Success(None)
         else if field == "mtu" && value.U64? then
           if value.unsigned <= FOREVER then CheckDecoded(SetMtu(value.unsigned), schema)
           else Failure(UnsupportedOperation)
         else if field == "enabled" && value.Bool? then CheckDecoded(SetEnabled(value.flag), schema)
         else Failure(UnsupportedOperation))
    case AddEntity => Failure(UnsupportedOperation)
    case RemoveEntity => Failure(UnsupportedOperation)
    case _ => CheckDecoded(kind, schema)
  }

  function CheckDecoded(kind: OperationKind, schema: ValidatedRegistry)
    : Result<Option<OperationKind>, BackendErrorKind>
  {
    var rejected := match kind
      case SetMtu(mtu) =>
        ValidateWritable(schema, NewState(Kernel).(fields := [Entry("mtu", U64(mtu))])) != []
      case AddIpv4(address) => address.Validate().Some?
      case ReplaceIpv4(address) => address.Validate().Some?
      case RemoveIpv4(address) => address.Group().None?
      case _ => false;
    if rejected then Failure(UnsupportedOperation) else Success(Some(kind))
  }

  function FirstWithIndex(devices: seq<DeviceObservation>, index: u32): (r: Option<nat>)
    ensures r.Some? ==> r.value < |devices| && devices[r.value].identity.index == index
    ensures r.Some? ==> forall i | 0 <= i < r.value :: devices[i].identity.index != index
    ensures r.None? ==> forall d | d in devices :: d.identity.index != index
  {
    if devices == [] then None
    else if devices[0].identity.index == index then Some(0)
    else match FirstWithIndex(devices[1..], index)
         case None => None
         case Some(i) => Some(i + 1)
  }

  function Locate(observation: Observation, identity: InterfaceId, namespace: NamespaceId)
    : (r: Result<nat, BackendErrorKind>)
    ensures r.Success? ==>
              && r.value < |observation.devices|
              && observation.devices[r.value].identity == identity
              && identity.namespace == namespace
              && identity.deviceType == ETHERNET
  {
    if identity.namespace != namespace then Failure(StaleState)
    else match FirstWithIndex(observation.devices, identity.index)
      case None => Failure(NotFound)
      case Some(position) =>
        var device := observation.devices[position];
        if device.identity != identity then Failure(StaleState)
        else if device.identity.deviceType != ETHERNET then Failure(UnsupportedEntityType)
        else Success(position)
  }

  // ---------------------------------------------------------------- prefix groups

  datatype ExpectedGroup = ExpectedGroup(addresses: seq<AddressObservation>, observedAt: Instant)

  datatype GroupKey = GroupKey(target: InterfaceId, group: PrefixGroup)
  {
    predicate Contains(address: Ipv4Address) {
      address.Group() == Some(group)
    }
  }

  type Groups = map<GroupKey, ExpectedGroup>

  function KeyOf(target: InterfaceId, address: Ipv4Address): Option<GroupKey> {
    match address.Group()
    case Some(group) => Some(GroupKey(target, group))
    case None => None
  }

  function Members(addresses: seq<AddressObservation>, key: GroupKey): (r: seq<AddressObservation>)
    ensures forall a :: a in r <==> a in addresses && key.Contains(a.address)
  {
    if addresses == [] then []
    else (if key.Contains(addresses[0].address) then [addresses[0]] else []) + Members(addresses[1..], key)
  }

  /** Equal flags, except that a lapsed preferred lifetime may have set the deprecated one. */
  predicate FlagsMatch(expected: bv32, actual: bv32, lapsed: bool) {
    && AgreeOn(expected, actual, !IFA_F_DEPRECATED)
    && (AgreeOn(expected, actual, IFA_F_DEPRECATED) || lapsed)
  }

  predicate AgreeOn(a: bv32, b: bv32, mask: bv32) {
    a & mask == b & mask
  }

  predicate AddressMatches(expected: AddressObservation, actual: AddressObservation, elapsed: Duration) {
    && expected.address.SameIdentity(actual.address)
    && expected.scope == actual.scope
    && expected.peer == actual.peer
    && FlagsMatch(expected.flags, actual.flags,
                  actual.address.PreferredLifetime() == 0
                    && LifetimeMatches(expected.address.PreferredLifetime(), 0, elapsed))
    && LifetimeMatches(expected.address.ValidLifetime(), actual.address.ValidLifetime(), elapsed)
    && LifetimeMatches(expected.address.PreferredLifetime(), actual.address.PreferredLifetime(), elapsed)
  }

  predicate GroupMatches(expected: ExpectedGroup, actual: seq<AddressObservation>, now: Instant) {
    && |expected.addresses| == |actual|
    && forall i | 0 <= i < |actual| ::
         AddressMatches(expected.addresses[i], actual[i], Since(now, expected.observedAt))
  }

  predicate Present(addresses: seq<AddressObservation>, address: Ipv4Address) {
    exists entry | entry in addresses :: entry.address.SameIdentity(address)
  }

  /** The first entry with an identity. */
  function Find(addresses: seq<AddressObservation>, address: Ipv4Address): (r: Option<AddressObservation>)
    ensures r.Some? ==> r.value in addresses && r.value.address.SameIdentity(address)
    ensures r.Some? <==> Present(addresses, address)
  {
    if addresses == [] then None
    else if addresses[0].address.SameIdentity(address) then Some(addresses[0])
    else
      var r := Find(addresses[1..], address);
      assert Present(addresses, address) ==> Present(addresses[1..], address);
      r
  }

  /** The groups after looking at a guard; an error leaves them looked at. */
  function Adopt(op: Operation, key: GroupKey, groups: Groups): Groups {
    if op.addressGroup.Some? && key !in groups
    then groups[key := ExpectedGroup(op.addressGroup.value.addresses, op.addressGroup.value.observedAt)]
    else groups
  }

  predicate ForeignGuard(op: Operation, key: GroupKey) {
    op.addressGroup.Some? && exists entry | entry in op.addressGroup.value.addresses :: !key.Contains(entry.address)
  }

  function ValidateGroup(op: Operation, device: DeviceObservation, kind: OperationKind, groups: Groups)
    : (Option<BackendErrorKind>, Groups)
  {
    if !kind.Addresses() then (None, groups)
    else if !device.addressesComplete then (Some(QueryFailed), groups)
    else match KeyOf(op.target, kind.address)
      case None => (Some(UnsupportedOperation), groups)
      case Some(key) =>
        if ForeignGuard(op, key) then (Some(StaleState), groups)
        else
          var adopted := Adopt(op, key, groups);
          var refused :=
            if key in adopted then !GroupMatches(adopted[key], Members(device.addresses, key), device.observedAt)
            else (kind.RemoveIpv4? || kind.ReplaceIpv4?) && Present(device.addresses, kind.address);
          (if refused then Some(StaleState) else None, adopted)
  }

  // ---------------------------------------------------------------- satisfaction and cascade

  function GuardElapsed(op: Operation, device: DeviceObservation, address: Ipv4Address): Option<Duration> {
    if op.addressGroup.Some? && exists entry | entry in op.addressGroup.value.addresses :: entry.address == address
    then Some(Since(device.observedAt, op.addressGroup.value.observedAt))
    else None
  }

  predicate LifetimesEqual(wanted: Ipv4Address, actual: Ipv4Address, elapsed: Option<Duration>) {
    match elapsed
    case Some(e) =>
      && LifetimeMatches(wanted.ValidLifetime(), actual.ValidLifetime(), e)
      && LifetimeMatches(wanted.PreferredLifetime(), actual.PreferredLifetime(), e)
    case None =>
      && wanted.ValidLifetime() == actual.ValidLifetime()
      && wanted.PreferredLifetime() == actual.PreferredLifetime()
  }

  function Satisfied(kind: OperationKind, device: DeviceObservation, op: Operation): Result<bool, BackendErrorKind> {
    match kind
    case SetMtu(mtu) => Success(Get(device.fields, "mtu") == Some(U64(mtu)))
    case SetEnabled(enabled) => Success(Get(device.fields, "enabled") == Some(Bool(enabled)))
    case RemoveIpv4(address) => Success(!Present(device.addresses, address))
    case AddIpv4(address) =>
      (match Find(device.addresses, address)
       case None => Success(false)
       case Some(existing) =>
         if LifetimesEqual(address, existing.address, GuardElapsed(op, device, address)) then Success(true)
         else Failure(ApplyFailed))
    case ReplaceIpv4(address) =>
      (match Find(device.addresses, address)
       case None => Failure(NotFound)
       case Some(existing) =>
         Success(LifetimesEqual(address, existing.address, GuardElapsed(op, device, address))))
    case _ => Success(false)
  }

  predicate AllHold(dependsOn: seq<nat>, earlier: seq<bool>) {
    forall d | d in dependsOn :: d < |earlier| && earlier[d]
  }

  /** Which operations can still run if this one succeeds and later attempts do too. */
  function Runnable(diff: StateDiff, index: nat, eligible: seq<bool>, position: nat): (r: seq<bool>)
    requires index < position <= |diff.operations| && index < |eligible|
    ensures |r| == position
  {
    if position == index + 1 then eligible[..index] + [true]
    else
      var earlier := Runnable(diff, index, eligible, position - 1);
      earlier + [AllHold(diff.operations[position - 1].dependsOn, earlier)]
  }

  predicate RemovalIsCovered(diff: StateDiff, index: nat, target: InterfaceId, address: Ipv4Address,
                             eligible: seq<bool>)
    requires index < |diff.operations| && index < |eligible|
  {
    var runnable := Runnable(diff, index, eligible, |diff.operations|);
    exists position | index < position < |diff.operations| ::
      && runnable[position]
      && diff.operations[position].target == target
      && diff.operations[position].kind.RemoveIpv4?
      && address.SameIdentity(diff.operations[position].kind.address)
  }

  predicate PrimaryOf(entry: AddressObservation, address: Ipv4Address) {
    entry.address.SameIdentity(address) && !entry.Secondary()
  }

  /** The first primary entry with an identity. */
  function FindPrimary(addresses: seq<AddressObservation>, address: Ipv4Address): (r: Option<AddressObservation>)
    ensures r.Some? ==> r.value in addresses && PrimaryOf(r.value, address)
    ensures r.None? ==> forall entry | entry in addresses :: !PrimaryOf(entry, address)
  {
    if addresses == [] then None
    else if PrimaryOf(addresses[0], address) then Some(addresses[0])
    else FindPrimary(addresses[1..], address)
  }

  /** The kernel deletes or promotes these when it deletes their primary. */
  predicate Exposed(primary: AddressObservation, secondary: AddressObservation) {
    && secondary.Secondary()
    && secondary.KernelGroup() == primary.KernelGroup()
    && secondary.scope == primary.scope
  }

  /** Removing a primary could delete a secondary that no later removal accounts for. */
  predicate Endangers(diff: StateDiff, index: nat, target: InterfaceId, removed: Ipv4Address,
                      primary: AddressObservation, secondary: AddressObservation, eligible: seq<bool>)
    requires index < |diff.operations| && index < |eligible|
  {
    && Exposed(primary, secondary)
    && (|| secondary.address.Group() != removed.Group()
        || !RemovalIsCovered(diff, index, target, secondary.address, eligible))
  }

  predicate CascadeRefused(diff: StateDiff, index: nat, device: DeviceObservation, kind: OperationKind,
                           eligible: seq<bool>)
    requires index < |diff.operations| && index < |eligible|
  {
    kind.RemoveIpv4? &&
    match FindPrimary(device.addresses, kind.address)
    case None => false
    case Some(primary) =>
      exists secondary | secondary in device.addresses ::
        Endangers(diff, index, device.identity, kind.address, primary, secondary, eligible)
  }

  // ---------------------------------------------------------------- projection

  function LifetimeFlags(address: Ipv4Address): bv32 {
    (if address.ValidLifetime() == FOREVER then IFA_F_PERMANENT else 0) |
    (if address.PreferredLifetime() == 0 then IFA_F_DEPRECATED else 0)
  }

  predicate IsLoopback(ip: u32) {
    ip / 0x100_0000 == 127
  }

  function Without(addresses: seq<AddressObservation>, address: Ipv4Address): (r: seq<AddressObservation>)
    ensures forall a :: a in r <==> a in addresses && !a.address.SameIdentity(address)
  {
    if addresses == [] then []
    else (if addresses[0].address.SameIdentity(address) then [] else [addresses[0]]) + Without(addresses[1..], address)
  }

  function AddedFlags(own: bv32, secondary: bool): bv32 {
    own | (if secondary then IFA_F_SECONDARY else 0)
  }

  /** Lifetimes decide two flags anew; the others stay. */
  function RenewedFlags(prior: bv32, own: bv32): bv32 {
    (prior & !(IFA_F_PERMANENT | IFA_F_DEPRECATED)) | own
  }

  function Added(addresses: seq<AddressObservation>, address: Ipv4Address): AddressObservation {
    var secondary := exists entry | entry in addresses :: entry.KernelGroup() == address.Group();
    AddressObservation(
      address,
      AddedFlags(LifetimeFlags(address), secondary),
      if IsLoopback(address.ip) then RT_SCOPE_HOST else 0,
      None)
  }

  function Replaced(entry: AddressObservation, address: Ipv4Address): AddressObservation {
    entry.(address := address, flags := RenewedFlags(entry.flags, LifetimeFlags(address)))
  }

  /** Replace the first entry with an identity. */
  function ReplaceFirst(addresses: seq<AddressObservation>, address: Ipv4Address): (r: seq<AddressObservation>)
    ensures |r| == |addresses|
  {
    if addresses == [] then []
    else if addresses[0].address.SameIdentity(address) then [Replaced(addresses[0], address)] + addresses[1..]
    else [addresses[0]] + ReplaceFirst(addresses[1..], address)
  }

  function Project(device: DeviceObservation, kind: OperationKind): DeviceObservation {
    match kind
    case SetMtu(mtu) => device.(fields := Insert(device.fields, "mtu", U64(mtu)))
    case SetEnabled(enabled) => device.(fields := Insert(device.fields, "enabled", Bool(enabled)))
    case RemoveIpv4(address) => device.(addresses := Without(device.addresses, address))
    case AddIpv4(address) => device.(addresses := device.addresses + [Added(device.addresses, address)])
    case ReplaceIpv4(address) => device.(addresses := ReplaceFirst(device.addresses, address))
    case _ => device
  }

  function Deprecate(flags: bv32, lapsed: bool): bv32 {
    if lapsed then flags | IFA_F_DEPRECATED else flags
  }

  function RebaseEntry(entry: AddressObservation, elapsed: u32): AddressObservation {
    var preferred := Decay(entry.address.PreferredLifetime(), elapsed);
    entry.(
      address := entry.address.(
        validLft := Some(Decay(entry.address.ValidLifetime(), elapsed)),
        preferredLft := Some(preferred)),
      flags := Deprecate(entry.flags, preferred == 0))
  }

  function RebaseAddresses(addresses: seq<AddressObservation>, elapsed: u32): (r: seq<AddressObservation>)
    ensures |r| == |addresses|
    ensures forall i | 0 <= i < |r| :: r[i] == RebaseEntry(addresses[i], elapsed)
  {
    seq(|addresses|, i requires 0 <= i < |addresses| => RebaseEntry(addresses[i], elapsed))
  }

  function Rebase(device: DeviceObservation, now: Instant): DeviceObservation {
    device.(
      addresses := RebaseAddresses(device.addresses, WholeSeconds(Since(now, device.observedAt))),
      observedAt := now)
  }

  // ---------------------------------------------------------------- verification of a write

  /** A missing secondary is excused when its own removal is still runnable. */
  predicate MayBeAbsent(diff: StateDiff, index: nat, target: InterfaceId, eligible: seq<bool>,
                        entry: AddressObservation, actual: seq<AddressObservation>)
    requires index < |diff.operations| && index < |eligible|
  {
    !Present(actual, entry.address) && entry.Secondary()
      && RemovalIsCovered(diff, index, target, entry.address, eligible)
  }

  /** After a removal, absent secondaries whose own removal is still runnable are not expected. */
  function Awaited(diff: StateDiff, index: nat, target: InterfaceId, eligible: seq<bool>,
                   expected: seq<AddressObservation>, actual: seq<AddressObservation>): (r: seq<AddressObservation>)
    requires index < |diff.operations| && index < |eligible|
  {
    if expected == [] then []
    else
      var entry := expected[0];
      (if MayBeAbsent(diff, index, target, eligible, entry, actual) then [] else [entry]) +
      Awaited(diff, index, target, eligible, expected[1..], actual)
  }

  /** The surviving first member may have been promoted to primary. */
  function Promote(expected: seq<AddressObservation>, actual: seq<AddressObservation>): (r: seq<AddressObservation>)
    ensures |r| == |expected|
  {
    if expected != [] && actual != [] &&
       expected[0].address.SameIdentity(actual[0].address) && !actual[0].Secondary()
    then [expected[0].(flags := expected[0].flags & !IFA_F_SECONDARY)] + expected[1..]
    else expected
  }

  /** The members of the written group the re-observation must show. */
  function ExpectedMembers(diff: StateDiff, index: nat, kind: OperationKind, target: InterfaceId, eligible: seq<bool>,
                           predicted: seq<AddressObservation>, actual: seq<AddressObservation>): seq<AddressObservation>
    requires index < |diff.operations| && index < |eligible|
  {
    if kind.RemoveIpv4?
    then Promote(Awaited(diff, index, target, eligible, predicted, actual), actual)
    else predicted
  }

  predicate OutsideSurvives(predicted: seq<AddressObservation>, key: GroupKey, actual: seq<AddressObservation>) {
    forall entry | entry in predicted && !key.Contains(entry.address) :: Present(actual, entry.address)
  }

  function Verify(job: Job, index: nat, eligible: seq<bool>, kind: OperationKind,
                  predicted: DeviceObservation, after: Observation): Result<DeviceObservation, BackendErrorKind>
    requires index < |job.diff.operations| && index < |eligible| && kind.Addresses()
  {
    var target := job.diff.operations[index].target;
    match Locate(after, target, job.env.namespace)
    case Failure(e) => Failure(e)
    case Success(position) =>
      var actual := after.devices[position];
      if !actual.addressesComplete then Failure(OutcomeUnknown)
      else match KeyOf(target, kind.address)
        case None => Failure(UnsupportedOperation)
        case Some(key) =>
          var members := Members(actual.addresses, key);
          var expected := ExpectedMembers(job.diff, index, kind, target, eligible, Members(predicted.addresses, key),
                                          members);
          if GroupMatches(ExpectedGroup(expected, predicted.observedAt), members, actual.observedAt)
             && OutsideSurvives(predicted.addresses, key, actual.addresses)
          then Success(actual)
          else Failure(StaleState)
  }

  // ---------------------------------------------------------------- one operation

  /** What one execution is given. */
  datatype Job = Job(env: Environment, schema: ValidatedRegistry, diff: StateDiff, preview: bool)

  datatype Verdict = Succeeded | Skipped(reason: SkipReason) | Failed(error: BackendErrorKind)
  {
    /** The operation no longer blocks its dependents. */
    predicate Unblocks() {
      Succeeded? || (Skipped? && !reason.DependencyFailed?)
    }
  }

  /** What a step changes: the snapshots, the cached observation, and what was asked so far. */
  datatype Progress = Progress(log: Log, groups: Groups, current: Option<Observation>)

  /** A run between two operations. */
  datatype Stage = Stage(progress: Progress, verdicts: seq<Verdict>)

  function Poll(job: Job, p: Progress): (bool, Progress) {
    var answer := job.env.cancelled(|p.log|);
    (answer, p.(log := p.log + [Polled(answer)]))
  }

  function ReadClock(job: Job, p: Progress): (Instant, Progress) {
    var now := job.env.now(|p.log|);
    (now, p.(log := p.log + [Timed(now)]))
  }

  function Inventory(job: Job, p: Progress): (Result<Observation, BackendErrorKind>, Progress) {
    var answer := job.env.inventory(|p.log|);
    (answer, p.(log := p.log + [Observed(answer)]))
  }

  /** Use the cached observation, or take a new one. */
  function Observe(job: Job, p: Progress): (Result<Observation, BackendErrorKind>, Progress) {
    match p.current
    case Some(observation) => (Success(observation), p)
    case None =>
      var (answer, read) := Inventory(job, p);
      (answer, if answer.Success? then read.(current := Some(answer.value)) else read)
  }

  datatype Decision =
    | Refuse(error: BackendErrorKind)
    | Leave(reason: SkipReason)
    | Proceed(position: nat, kind: OperationKind)

  function DecideWrite(job: Job, index: nat, eligible: seq<bool>, position: nat, device: DeviceObservation,
                       kind: OperationKind): Decision
    requires index < |job.diff.operations| && index < |eligible|
  {
    match Satisfied(kind, device, job.diff.operations[index])
    case Failure(e) => Refuse(e)
    case Success(satisfied) =>
      if satisfied then Leave(AlreadySatisfied)
      else if CascadeRefused(job.diff, index, device, kind, eligible) then Refuse(StaleState)
      else Proceed(position, kind)
  }

  /** What to do about an operation, from the observation alone. */
  function Decide(job: Job, index: nat, eligible: seq<bool>, groups: Groups, observation: Observation,
                  decoded: Option<OperationKind>): (r: (Decision, Groups))
    requires index < |job.diff.operations| && index < |eligible|
    ensures r.0.Proceed? ==> r.0.position < |observation.devices|
  {
    var op := job.diff.operations[index];
    match Locate(observation, op.target, job.env.namespace)
    case Failure(e) => (Refuse(e), groups)
    case Success(position) =>
      match decoded
      case None => (Leave(ReadOnly), groups)
      case Some(kind) =>
        var device := observation.devices[position];
        var (refused, adopted) := ValidateGroup(op, device, kind, groups);
        if refused.Some? then (Refuse(refused.value), adopted)
        else (DecideWrite(job, index, eligible, position, device, kind), adopted)
  }

  /** A success replaces the snapshot of its group, if the group has one. */
  function Advance(p: Progress, target: InterfaceId, kind: OperationKind, device: DeviceObservation)
    : (Verdict, Progress)
  {
    if !kind.Addresses() then (Succeeded, p)
    else match KeyOf(target, kind.address)
      case None => (Failed(UnsupportedOperation), p)
      case Some(key) =>
        (Succeeded,
         if key in p.groups
         then p.(groups := p.groups[key := ExpectedGroup(Members(device.addresses, key), device.observedAt)])
         else p)
  }

  /** A preview projects onto the cached observation instead of writing. */
  function PreviewWrite(job: Job, p: Progress, index: nat, observation: Observation, position: nat,
                        kind: OperationKind): (Verdict, Progress)
    requires index < |job.diff.operations| && position < |observation.devices|
  {
    var (now, timed) := ReadClock(job, p);
    var predicted := Project(Rebase(observation.devices[position], now), kind);
    Advance(timed.(current := Some(Observation(observation.devices[position := predicted]))),
            job.diff.operations[index].target, kind, predicted)
  }

  function SubmitWrite(job: Job, p: Progress, index: nat, kind: OperationKind): (Option<BackendErrorKind>, Progress)
    requires index < |job.diff.operations|
  {
    var error := job.env.execute(|p.log|);
    (error, p.(current := None, log := p.log + [Wrote(index, job.diff.operations[index].target, kind, error)]))
  }

  /** Re-observe an acknowledged address write and compare it with the prediction. */
  function VerifyWrite(job: Job, p: Progress, eligible: seq<bool>, index: nat, kind: OperationKind,
                       predicted: DeviceObservation): (Result<DeviceObservation, BackendErrorKind>, Progress)
    requires index < |job.diff.operations| && index < |eligible| && kind.Addresses()
  {
    var (answer, read) := Inventory(job, p);
    match answer
    case Failure(_) => (Failure(OutcomeUnknown), read)
    case Success(after) =>
      var verified := Verify(job, index, eligible, kind, predicted, after);
      (verified, if verified.Success? then read.(current := Some(after)) else read)
  }

  function Confirm(job: Job, p: Progress, eligible: seq<bool>, index: nat, kind: OperationKind,
                   predicted: DeviceObservation): (Verdict, Progress)
    requires index < |job.diff.operations| && index < |eligible|
  {
    var target := job.diff.operations[index].target;
    if !kind.Addresses() then Advance(p, target, kind, predicted)
    else
      var (verified, read) := VerifyWrite(job, p, eligible, index, kind, predicted);
      match verified
      case Failure(e) => (Failed(e), read)
      case Success(actual) => Advance(read, target, kind, actual)
  }

  function ApplyWrite(job: Job, p: Progress, eligible: seq<bool>, index: nat, device: DeviceObservation,
                      kind: OperationKind): (Verdict, Progress)
    requires index < |job.diff.operations| && index < |eligible|
  {
    var (cancelled, polled) := Poll(job, p);
    if cancelled then (Failed(ApplyFailed), polled)
    else
      var (error, written) := SubmitWrite(job, polled, index, kind);
      if error.Some? then (Failed(error.value), written)
      else
        var (now, timed) := ReadClock(job, written);
        Confirm(job, timed, eligible, index, kind, Project(Rebase(device, now), kind))
  }

  /** Act on a decision taken on an observation. */
  function Act(job: Job, p: Progress, eligible: seq<bool>, index: nat, observation: Observation,
               decision: Decision): (Verdict, Progress)
    requires index < |job.diff.operations| && index < |eligible|
    requires decision.Proceed? ==> decision.position < |observation.devices|
  {
    match decision
    case Refuse(e) => (Failed(e), p)
    case Leave(reason) => (Skipped(reason), p)
    case Proceed(position, kind) =>
      if job.preview then PreviewWrite(job, p, index, observation, position, kind)
      else ApplyWrite(job, p, eligible, index, observation.devices[position], kind)
  }

  /** Carry out an operation whose kind is already decoded. */
  function Perform(job: Job, p: Progress, eligible: seq<bool>, index: nat, decoded: Option<OperationKind>)
    : (Verdict, Progress)
    requires index < |job.diff.operations| && index < |eligible|
  {
    var (answer, observed) := Observe(job, p);
    match answer
    case Failure(e) => (Failed(e), observed)
    case Success(observation) =>
      var (decision, groups) := Decide(job, index, eligible, observed.groups, observation, decoded);
      Act(job, observed.(groups := groups), eligible, index, observation, decision)
  }

  function Step(job: Job, p: Progress, eligible: seq<bool>, index: nat): (Verdict, Progress)
    requires index < |job.diff.operations| && index < |eligible|
  {
    var (cancelled, polled) := Poll(job, p);
    if cancelled then (Failed(ApplyFailed), polled)
    else match Decode(job.diff.operations[index].kind, job.schema)
      case Failure(e) => (Failed(e), polled)
      case Success(decoded) => Perform(job, polled, eligible, index, decoded)
  }

  // ---------------------------------------------------------------- whole plans

  predicate Malformed(op: Operation, index: nat) {
    exists d | d in op.dependsOn :: d >= index
  }

  function Blockers(dependsOn: seq<nat>, eligible: seq<bool>): (r: seq<nat>)
    requires forall d | d in dependsOn :: d < |eligible|
    ensures forall d :: d in r <==> d in dependsOn && !eligible[d]
  {
    if dependsOn == [] then []
    else
      assert dependsOn[0] in dependsOn && forall d | d in dependsOn[1..] :: d in dependsOn;
      (if eligible[dependsOn[0]] then [] else [dependsOn[0]]) + Blockers(dependsOn[1..], eligible)
  }

  /** Dependencies decide whether an operation is attempted at all. */
  function Attempt(job: Job, p: Progress, eligible: seq<bool>, index: nat): (Verdict, Progress)
    requires index < |job.diff.operations| == |eligible|
  {
    var op := job.diff.operations[index];
    if Malformed(op, index) then (Failed(UnsupportedOperation), p)
    else
      var blocked := Blockers(op.dependsOn, eligible);
      if blocked != [] then (Skipped(DependencyFailed(blocked)), p)
      else Step(job, p, eligible, index)
  }

  const START := Progress([], map[], None)

  /** The eligibility vector after the first verdicts; operations not reached are not eligible. */
  function EligibleAfter(diff: StateDiff, verdicts: seq<Verdict>): (r: seq<bool>)
    ensures |r| == |diff.operations|
    ensures forall i | 0 <= i < |r| :: r[i] <==> i < |verdicts| && verdicts[i].Unblocks()
  {
    seq(|diff.operations|, i requires 0 <= i < |diff.operations| => i < |verdicts| && verdicts[i].Unblocks())
  }

  /** The stage before operation n; the whole run is the stage after the last one. */
  function RunTo(job: Job, n: nat): (r: Stage)
    requires n <= |job.diff.operations|
    ensures |r.verdicts| == n
  {
    if n == 0 then Stage(START, [])
    else
      var before := RunTo(job, n - 1);
      var (verdict, progress) := Attempt(job, before.progress, EligibleAfter(job.diff, before.verdicts), n - 1);
      Stage(progress, before.verdicts + [verdict])
  }

  function Run(job: Job): Stage {
    RunTo(job, |job.diff.operations|)
  }

  // ---------------------------------------------------------------- reports

  function ContextOf(diff: StateDiff, index: nat): OperationContext
    requires index < |diff.operations|
  {
    OperationContext(index, diff.operations[index].target, diff.operations[index].kind)
  }

  /** Append the outcome of one operation to its list. */
  function Reported(diff: StateDiff, report: ApplyReport, index: nat, verdict: Verdict): ApplyReport
    requires index < |diff.operations|
  {
    var context := ContextOf(diff, index);
    match verdict
    case Succeeded => report.(succeeded := report.succeeded + [context])
    case Failed(e) => report.(failed := report.failed + [FailedOperation(context, e)])
    case Skipped(reason) => report.(skipped := report.skipped + [SkippedOperation(context, reason)])
  }

  /** The report of the first operations, in the order the run appends to it. */
  function ReportOf(diff: StateDiff, verdicts: seq<Verdict>): ApplyReport
    requires |verdicts| <= |diff.operations|
  {
    if verdicts == [] then ApplyReport([], [], [])
    else
      var last := |verdicts| - 1;
      Reported(diff, ReportOf(diff, verdicts[..last]), last, verdicts[last])
  }
}
