/** What projecting and rebasing a device keep (executor.rs, plan.rs). */
module Projection {
  import opened Bits
  import opened Wrappers
  import opened Plan
  import opened Lifetimes
  import opened PrefixGroups
  import opened Executor

  // ---------------------------------------------------------------- identities

  ghost predicate UniqueIdentities(addresses: seq<AddressObservation>) {
    forall i, j | 0 <= i < j < |addresses| :: !addresses[i].address.SameIdentity(addresses[j].address)
  }

  lemma {:induction false} RemovalKeepsUnique(addresses: seq<AddressObservation>, address: Ipv4Address)
    requires UniqueIdentities(addresses)
    ensures UniqueIdentities(Without(addresses, address))
  {
    if addresses != [] {
      RemovalKeepsUnique(addresses[1..], address);
      var rest := Without(addresses[1..], address);
      forall k | 0 <= k < |rest| ensures !addresses[0].address.SameIdentity(rest[k].address) {
        assert rest[k] in rest;
      }
    }
  }

  lemma {:induction false} ReplacementKeepsUnique(addresses: seq<AddressObservation>, address: Ipv4Address)
    requires UniqueIdentities(addresses)
    ensures UniqueIdentities(ReplaceFirst(addresses, address))
    ensures forall k | 0 <= k < |addresses| ::
              ReplaceFirst(addresses, address)[k].address.SameIdentity(addresses[k].address)
  {
    if addresses != [] && !addresses[0].address.SameIdentity(address) {
      ReplacementKeepsUnique(addresses[1..], address);
    }
  }

  /** A projection that the satisfaction check let through keeps address identities unique. */
  lemma GuardedProjectionKeepsUnique(device: DeviceObservation, kind: OperationKind, op: Operation)
    requires UniqueIdentities(device.addresses) && Satisfied(kind, device, op) == Success(false)
    ensures UniqueIdentities(Project(device, kind).addresses)
  {
    match kind {
      case RemoveIpv4(address) => RemovalKeepsUnique(device.addresses, address);
      case ReplaceIpv4(address) => ReplacementKeepsUnique(device.addresses, address);
      case AddIpv4(address) =>
        assert !Present(device.addresses, address);
        forall i | 0 <= i < |device.addresses| ensures !device.addresses[i].address.SameIdentity(address) {
          assert device.addresses[i] in device.addresses;
        }
      case _ =>
    }
  }

  // ---------------------------------------------------------------- secondaries

  /** The kernel's rule: an existing address with the same mask has its peer, or itself, inside the new prefix. */
  ghost predicate KernelSecondary(addresses: seq<AddressObservation>, address: Ipv4Address)
    requires address.prefixLen <= 32
  {
    exists entry | entry in addresses ::
      && entry.address.prefixLen == address.prefixLen
      && And(Xor(if entry.peer.Some? then entry.peer.value else entry.address.ip, address.ip),
             Mask(address.prefixLen)) == 0
  }

  lemma SecondaryFlag(address: Ipv4Address)
    ensures LifetimeFlags(address) & IFA_F_SECONDARY == 0
    ensures (LifetimeFlags(address) | IFA_F_SECONDARY) & IFA_F_SECONDARY != 0
    ensures LifetimeFlags(address) | 0 == LifetimeFlags(address)
  {
  }

  lemma SameKernelGroup(entry: AddressObservation, address: Ipv4Address)
    requires address.prefixLen <= 32
    ensures entry.KernelGroup() == address.Group() <==>
              && entry.address.prefixLen == address.prefixLen
              && And(Xor(if entry.peer.Some? then entry.peer.value else entry.address.ip, address.ip),
                     Mask(address.prefixLen)) == 0
  {
    hide And, Xor, Mask;
    if entry.address.prefixLen == address.prefixLen {
      KernelXorRule(if entry.peer.Some? then entry.peer.value else entry.address.ip, address.ip, address.prefixLen);
    }
  }

  /** The projected secondary flag of an addition follows the rule of the kernel. */
  lemma ProjectedSecondaryIsKernelSecondary(addresses: seq<AddressObservation>, address: Ipv4Address)
    requires address.prefixLen <= 32
    ensures Added(addresses, address).Secondary() <==> KernelSecondary(addresses, address)
  {
    hide LifetimeFlags, And, Xor, Mask, Masked;
    SecondaryFlag(address);
    forall entry | entry in addresses
      ensures entry.KernelGroup() == address.Group() <==>
                && entry.address.prefixLen == address.prefixLen
                && And(Xor(if entry.peer.Some? then entry.peer.value else entry.address.ip, address.ip),
                       Mask(address.prefixLen)) == 0
    {
      SameKernelGroup(entry, address);
    }
  }

  // ---------------------------------------------------------------- lifetimes

  /** Elapsed seconds are counted up to the width of a lifetime. */
  function Saturated(seconds: nat): u32 {
    if seconds <= FOREVER then seconds else FOREVER
  }

  /** Decay composes additively, saturated sums and the unlimited lifetime included. */
  lemma DecayAdds(seconds: u32, a: u32, b: u32)
    ensures Decay(Decay(seconds, a), b) == Decay(seconds, Saturated(a + b))
    ensures Decay(seconds, a) == 0 ==> Decay(seconds, Saturated(a + b)) == 0
  {
  }

  lemma DeprecationIsIdempotent(flags: bv32, first: bool, second: bool)
    ensures Deprecate(Deprecate(flags, first), second) == Deprecate(flags, first || second)
  {
  }

  lemma RebaseEntryAdds(entry: AddressObservation, a: u32, b: u32)
    ensures RebaseEntry(RebaseEntry(entry, a), b) == RebaseEntry(entry, Saturated(a + b))
  {
    hide Decay, Deprecate;
    DecayAdds(entry.address.ValidLifetime(), a, b);
    DecayAdds(entry.address.PreferredLifetime(), a, b);
    var preferred := entry.address.PreferredLifetime();
    DeprecationIsIdempotent(entry.flags, Decay(preferred, a) == 0, Decay(preferred, Saturated(a + b)) == 0);
  }

  /** Rebasing twice is rebasing once, for whatever device was observed at an instant. */
  ghost predicate RebaseComposes(observedAt: Instant, between: Instant, now: Instant) {
    forall device: DeviceObservation | device.observedAt == observedAt ::
      Rebase(Rebase(device, between), now) == Rebase(device, now)
  }

  /** The longest finite lifetime has run out, so nothing is left to lose. */
  ghost predicate RunOut(seconds: nat) {
    seconds >= FOREVER - 1
  }

  /** The whole seconds of the two steps account for those of the whole span, as far as a lifetime can tell. */
  ghost predicate SecondsAddUp(observedAt: Instant, between: Instant, now: Instant) {
    var apart := Since(between, observedAt) / NANOS + Since(now, between) / NANOS;
    var whole := Since(now, observedAt) / NANOS;
    apart == whole || (RunOut(apart) && RunOut(whole))
  }

  /** The parts of a second that truncation drops do not add up to a whole one. */
  ghost predicate NoCarry(observedAt: Instant, between: Instant, now: Instant)
    requires observedAt <= between <= now
  {
    (between - observedAt) % NANOS + (now - between) % NANOS < NANOS
  }

  /** Past its last second a lifetime cannot tell elapsed spans apart. */
  lemma RunOutDecay(seconds: u32, a: u32, b: u32)
    requires a == b || (RunOut(a) && RunOut(b))
    ensures Decay(seconds, a) == Decay(seconds, b)
  {
  }

  lemma RunOutRebase(entry: AddressObservation, a: u32, b: u32)
    requires a == b || (RunOut(a) && RunOut(b))
    ensures RebaseEntry(entry, a) == RebaseEntry(entry, b)
  {
    hide Decay, Deprecate, RunOut;
    RunOutDecay(entry.address.ValidLifetime(), a, b);
    RunOutDecay(entry.address.PreferredLifetime(), a, b);
  }

  lemma RebasesAlike(device: DeviceObservation, between: Instant, now: Instant)
    requires SecondsAddUp(device.observedAt, between, now)
    ensures Rebase(Rebase(device, between), now) == Rebase(device, now)
  {
    var a, b := WholeSeconds(Since(between, device.observedAt)), WholeSeconds(Since(now, between));
    var whole := WholeSeconds(Since(now, device.observedAt));
    var apart := a as nat + b as nat;
    forall i | 0 <= i < |device.addresses|
      ensures RebaseEntry(RebaseEntry(device.addresses[i], a), b) == RebaseEntry(device.addresses[i], whole)
    {
      RebaseEntryAdds(device.addresses[i], a, b);
      RunOutRebase(device.addresses[i], Saturated(apart), whole);
    }
    assert Rebase(Rebase(device, between), now).addresses == Rebase(device, now).addresses;
  }

  /** The longest finite lifetime tells every two spans apart that have not both used it up. */
  lemma LongestLifetimeTells(a: u32, b: u32)
    requires a != b && !(RunOut(a) && RunOut(b))
    ensures Decay(FOREVER - 1, a) != Decay(FOREVER - 1, b)
  {
  }

  /** A device with one address of the longest finite lifetime. */
  function LongLived(device: DeviceObservation): DeviceObservation {
    device.(addresses := [AddressObservation(Ipv4Address(0, 0, Some(FOREVER - 1), None), 0, 0, None)])
  }

  lemma RebaseDiffers(device: DeviceObservation, between: Instant, now: Instant)
    requires !SecondsAddUp(device.observedAt, between, now)
    ensures Rebase(Rebase(LongLived(device), between), now) != Rebase(LongLived(device), now)
  {
    hide Decay, Deprecate;
    var a, b := WholeSeconds(Since(between, device.observedAt)), WholeSeconds(Since(now, between));
    var whole := WholeSeconds(Since(now, device.observedAt));
    DecayAdds(FOREVER - 1, a, b);
    LongestLifetimeTells(Saturated(a + b), whole);
    var twice, once := Rebase(Rebase(LongLived(device), between), now), Rebase(LongLived(device), now);
    assert twice.addresses[0].address.validLft != once.addresses[0].address.validLft;
  }

  lemma SecondsSplit(observedAt: Instant, between: Instant, now: Instant)
    requires observedAt <= between <= now
    ensures (now - observedAt) / NANOS == (between - observedAt) / NANOS + (now - between) / NANOS +
            (if NoCarry(observedAt, between, now) then 0 else 1)
  {
  }

  /**
   Two steps rebase every device as one step does exactly when their whole seconds
   add up; for instants in order, exactly when the dropped parts do not carry or
   every finite lifetime has run out.
   */
  lemma RebaseComposesIffNoCarry(device: DeviceObservation, between: Instant, now: Instant)
    ensures RebaseComposes(device.observedAt, between, now) <==> SecondsAddUp(device.observedAt, between, now)
    ensures device.observedAt <= between <= now ==>
      (RebaseComposes(device.observedAt, between, now) <==>
        NoCarry(device.observedAt, between, now) ||
        RunOut((between - device.observedAt) / NANOS + (now - between) / NANOS))
  {
    hide Rebase, RunOut;
    if SecondsAddUp(device.observedAt, between, now) {
      forall other: DeviceObservation | other.observedAt == device.observedAt
        ensures Rebase(Rebase(other, between), now) == Rebase(other, now)
      {
        RebasesAlike(other, between, now);
      }
    } else {
      RebaseDiffers(device, between, now);
      assert LongLived(device).observedAt == device.observedAt;
    }
    if device.observedAt <= between <= now {
      SecondsSplit(device.observedAt, between, now);
      RunOutGrows((between - device.observedAt) / NANOS + (now - between) / NANOS, (now - device.observedAt) / NANOS);
    }
  }

  lemma RunOutGrows(a: nat, b: nat)
    requires a <= b
    ensures RunOut(a) ==> RunOut(b)
  {
  }
}
