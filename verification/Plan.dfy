/** Observations and operation plans (plan.rs). */
module Plan {
  import opened Bits
  import opened Wrappers
  import opened Values

  /** Nanoseconds on a monotonic clock. */
  type Instant = nat
  type Duration = nat

  const FOREVER: u32 := 0xFFFF_FFFF

  datatype NamespaceId = NamespaceId(device: u64, inode: u64)

  datatype InterfaceId = InterfaceId(
    namespace: NamespaceId,
    index: u32,
    generation: u64,
    name: string,
    deviceType: string,
    mac: Option<string>)

  datatype PrefixGroup = PrefixGroup(network: nat, prefixLen: u8)

  /** The mask of a prefix length; a checked shift by the full width yields no bits. */
  function Mask(prefixLen: u8): nat
    requires prefixLen <= 32
  {
    var shift := 32 - prefixLen;
    if shift >= 32 then 0 else ShiftLeft32(0xFFFF_FFFF, shift)
  }

  /** Clear the host bits; an invalid prefix length has no group. */
  function Masked(ip: u32, prefixLen: u8): Option<PrefixGroup> {
    if prefixLen > 32 then None
    else Some(PrefixGroup(And(ip, Mask(prefixLen)), prefixLen))
  }

  datatype AddressError = PrefixTooLong | ZeroValidLifetime | PreferredExceedsValid

  datatype Ipv4Address = Ipv4Address(
    ip: u32,
    prefixLen: u8,
    validLft: Option<u32>,
    preferredLft: Option<u32>)
  {
    function Group(): Option<PrefixGroup> {
      Masked(ip, prefixLen)
    }

    predicate SameIdentity(other: Ipv4Address) {
      ip == other.ip && prefixLen == other.prefixLen
    }

    function ValidLifetime(): u32 {
      if validLft.Some? then validLft.value else FOREVER
    }

    function PreferredLifetime(): u32 {
      if preferredLft.Some? then preferredLft.value else ValidLifetime()
    }

    function Validate(): Option<AddressError> {
      if prefixLen > 32 then Some(PrefixTooLong)
      else if ValidLifetime() == 0 then Some(ZeroValidLifetime)
      else if PreferredLifetime() > ValidLifetime() then Some(PreferredExceedsValid)
      else None
    }
  }

  const IFA_F_SECONDARY: bv32 := 0x01
  const IFA_F_DEPRECATED: bv32 := 0x20
  const IFA_F_PERMANENT: bv32 := 0x80
  const RT_SCOPE_HOST: u8 := 254

  datatype AddressObservation = AddressObservation(
    address: Ipv4Address,
    flags: bv32,
    scope: u8,
    peer: Option<u32>)
  {
    /** The primary/secondary group follows the peer when there is one. */
    function KernelGroup(): Option<PrefixGroup> {
      Masked(if peer.Some? then peer.value else address.ip, address.prefixLen)
    }

    predicate Secondary() {
      flags & IFA_F_SECONDARY != 0
    }
  }

  datatype DeviceObservation = DeviceObservation(
    identity: InterfaceId,
    fields: Fields,
    addresses: seq<AddressObservation>,
    addressesComplete: bool,
    observedAt: Instant)

  datatype Observation = Observation(devices: seq<DeviceObservation>)

  datatype AddressGroupPrecondition = AddressGroupPrecondition(
    addresses: seq<AddressObservation>,
    observedAt: Instant)

  datatype OperationKind =
    | SetMtu(mtu: u32)
    | SetEnabled(enabled: bool)
    | AddIpv4(address: Ipv4Address)
    | RemoveIpv4(address: Ipv4Address)
    | ReplaceIpv4(address: Ipv4Address)
    | SetField(field: string, value: Value)
    | AddEntity
    | RemoveEntity
  {
    predicate Addresses() {
      AddIpv4? || RemoveIpv4? || ReplaceIpv4?
    }
  }

  datatype Operation = Operation(
    target: InterfaceId,
    kind: OperationKind,
    dependsOn: seq<nat>,
    addressGroup: Option<AddressGroupPrecondition>)

  /** Operations run in list order; dependencies are operation indices. */
  datatype StateDiff = StateDiff(operations: seq<Operation>)
}
