/** Predicted lifetimes against the kernel's own countdown, and runs against a kernel (executor.rs). */
module KernelRuns {
  import opened Wrappers
  import opened Plan
  import opened Report
  import opened Lifetimes
  import opened Executor
  import opened Projection
  import opened PreviewRefinement
  import opened KernelWrites
  import opened KernelVerification

  // ---------------------------------------------------------------- the clock

  /** Whole seconds of decay are what the kernel's own countdown shows that much later. */
  lemma DecayIsTheCountdown(expiry: Instant, at: Instant, seconds: u32)
    requires Remaining(expiry, at) < FOREVER
    ensures Decay(Remaining(expiry, at), seconds) == Remaining(expiry, at + seconds * NANOS)
  {
    if at + seconds * NANOS < expiry {
      var ahead := expiry - at;
      WholeStepsDivide(ahead + NANOS - 1, seconds);
    }
  }

  lemma WholeStepsDivide(span: nat, seconds: nat)
    requires span >= seconds * NANOS
    ensures (span - seconds * NANOS) / NANOS == span / NANOS - seconds
  {
  }

  /** How much later than its sample a rebased reading stands, beyond whole seconds. */
  ghost function Lag(sampled: Instant, observedAt: Instant, now: Instant): int {
    (observedAt - sampled) + (now - observedAt) % NANOS
  }

  /** A reading, rebased to a later instant, matches every later dump of the same countdown. */
  ghost predicate RebaseTolerated(sampled: Instant, observedAt: Instant, now: Instant)
    requires sampled <= observedAt <= now
  {
    forall expiry: Instant, second: Instant, secondObserved: Instant |
      Remaining(expiry, sampled) < FOREVER && now <= second && now <= secondObserved &&
      SampledFor(second, secondObserved) ::
        LifetimeMatches(Decay(Remaining(expiry, sampled), WholeSeconds(now - observedAt)),
                        Remaining(expiry, second), secondObserved - now)
  }

  /** Past the longest finite lifetime but one second there is nothing left to confuse. */
  lemma ExhaustedMatches(sampled: Instant, observedAt: Instant, now: Instant, expiry: Instant, second: Instant,
                         secondObserved: Instant)
    requires sampled <= observedAt <= now && (now - observedAt) / NANOS >= FOREVER - 2
    requires Remaining(expiry, sampled) < FOREVER && now <= second && now <= secondObserved
    requires SampledFor(second, secondObserved)
    ensures LifetimeMatches(Decay(Remaining(expiry, sampled), WholeSeconds(now - observedAt)),
                            Remaining(expiry, second), secondObserved - now)
  {
    var first, last := Remaining(expiry, sampled), Remaining(expiry, second);
    assert expiry <= sampled + (FOREVER - 1) * NANOS;
    assert second >= sampled + (FOREVER - 2) * NANOS;
    if first <= FOREVER - 2 {
      assert expiry <= sampled + (FOREVER - 2) * NANOS;
    }
  }

  lemma RebasedMatches(sampled: Instant, observedAt: Instant, now: Instant, expiry: Instant, second: Instant,
                       secondObserved: Instant)
    requires sampled <= observedAt <= now && Lag(sampled, observedAt, now) <= NANOS
    requires (now - observedAt) / NANOS < FOREVER - 2
    requires Remaining(expiry, sampled) < FOREVER && now <= second && now <= secondObserved
    requires SampledFor(second, secondObserved)
    ensures LifetimeMatches(Decay(Remaining(expiry, sampled), WholeSeconds(now - observedAt)),
                            Remaining(expiry, second), secondObserved - now)
  {
    hide Decay, LifetimeMatches;
    var whole := (now - observedAt) / NANOS;
    var first := sampled + whole * NANOS;
    DecayIsTheCountdown(expiry, sampled, whole);
    CountdownShrinks(expiry, sampled, first);
    CountdownShrinks(expiry, sampled, second);
    CountdownMatches(Remaining(expiry, first), Remaining(expiry, second), expiry, first, now, second, secondObserved);
  }

  lemma CountdownShrinks(expiry: Instant, earlier: Instant, later: Instant)
    requires earlier <= later
    ensures Remaining(expiry, later) <= Remaining(expiry, earlier)
  {
  }

  lemma RebaseMisses(sampled: Instant, observedAt: Instant, now: Instant)
    requires sampled <= observedAt <= now && Lag(sampled, observedAt, now) > NANOS
    requires (now - observedAt) / NANOS < FOREVER - 2
    ensures !RebaseTolerated(sampled, observedAt, now)
  {
    var whole := (now - observedAt) / NANOS;
    var expiry := sampled + (whole + 1) * NANOS + 1;
    assert expiry - sampled + NANOS - 1 == (whole + 2) * NANOS;
    assert Remaining(expiry, sampled) == whole + 2;
    assert now >= expiry && Remaining(expiry, now) == 0;
    assert WholeSeconds(now - observedAt) == whole;
    assert SampledFor(now, now);
    assert !LifetimeMatches(2, 0, 0);
  }

  /**
   A rebased reading matches every later dump of the same countdown exactly if the delay
   of its sample and the part of a second that rebasing drops make up no more than one
   second together, unless every finite lifetime has as good as run out.
   */
  lemma RebaseIsToleratedIff(sampled: Instant, observedAt: Instant, now: Instant)
    requires sampled <= observedAt <= now
    ensures RebaseTolerated(sampled, observedAt, now)
       <==> Lag(sampled, observedAt, now) <= NANOS || (now - observedAt) / NANOS >= FOREVER - 2
  {
    hide LifetimeMatches, Decay, Lag;
    if (now - observedAt) / NANOS >= FOREVER - 2 || Lag(sampled, observedAt, now) <= NANOS {
      forall expiry: Instant, second: Instant, secondObserved: Instant |
        Remaining(expiry, sampled) < FOREVER && now <= second && now <= secondObserved &&
        SampledFor(second, secondObserved)
        ensures LifetimeMatches(Decay(Remaining(expiry, sampled), WholeSeconds(now - observedAt)),
                                Remaining(expiry, second), secondObserved - now)
      {
        if (now - observedAt) / NANOS >= FOREVER - 2 {
          ExhaustedMatches(sampled, observedAt, now, expiry, second, secondObserved);
        } else {
          RebasedMatches(sampled, observedAt, now, expiry, second, secondObserved);
        }
      }
    } else {
      RebaseMisses(sampled, observedAt, now);
    }
  }

  /** Rebasing decays both lifetimes, deprecates what has lapsed, and keeps everything else. */
  lemma RebaseAges(entry: AddressObservation, seconds: u32)
    ensures var aged := RebaseEntry(entry, seconds);
            && Is(aged, entry.address) && aged.scope == entry.scope && aged.peer == entry.peer
            && Valid(aged.address) == Decay(Valid(entry.address), seconds)
            && Preferred(aged.address) == Decay(Preferred(entry.address), seconds)
            && (Deprecated(aged) <==> Deprecated(entry) || Preferred(aged.address) == 0)
            && (Permanent(aged) <==> Permanent(entry))
            && (Second(aged) <==> Second(entry))
            && OtherFlags(aged) == OtherFlags(entry)
  {
    hide Decay, Part, Deprecate;
    DeprecatedParts(entry.flags);
    assert Deprecate(entry.flags, false) == entry.flags by { NotDeprecated(entry.flags); }
  }

  lemma NotDeprecated(flags: bv32)
    ensures Deprecate(flags, false) == flags
  {
  }

  lemma DeprecatedParts(flags: bv32)
    ensures Part(Deprecate(flags, true), 0x20) != 0
    ensures Part(Deprecate(flags, true), 0x80) == Part(flags, 0x80)
    ensures Part(Deprecate(flags, true), 0x01) == Part(flags, 0x01)
    ensures Part(Deprecate(flags, true), 0xFFFF_FF5E) == Part(flags, 0xFFFF_FF5E)
  {
    SetBit(flags);
    KeptPart(flags, 0x80);
    KeptPart(flags, 0x01);
    KeptPart(flags, 0xFFFF_FF5E);
  }

  lemma SetBit(flags: bv32)
    ensures (flags | 0x20) & 0x20 != 0
  {
  }

  lemma KeptPart(flags: bv32, mask: bv32)
    requires mask & 0x20 == 0
    ensures (flags | 0x20) & mask == flags & mask
  {
  }

  // ---------------------------------------------------------------- a write that succeeds

  lemma RebasedIdentities(device: DeviceObservation, now: Instant)
    requires UniqueIdentities(device.addresses)
    ensures UniqueIdentities(Rebase(device, now).addresses)
  {
    hide Decay, Deprecate;
    var rebased := Rebase(device, now).addresses;
    forall i, j | 0 <= i < j < |rebased| ensures !rebased[i].address.SameIdentity(rebased[j].address) {
      assert !device.addresses[i].address.SameIdentity(device.addresses[j].address);
    }
  }

  lemma RebasedStanding(entry: AddressObservation, seconds: u32)
    ensures var aged := RebaseEntry(entry, seconds);
            && (aged.Secondary() <==> entry.Secondary())
            && aged.KernelGroup() == entry.KernelGroup() && aged.scope == entry.scope
            && aged.address.SameIdentity(entry.address) && aged.address.Group() == entry.address.Group()
  {
    hide Part, RebaseEntry, Decay, Masked;
    RebaseAges(entry, seconds);
    SecondaryBit(entry);
    SecondaryBit(RebaseEntry(entry, seconds));
  }

  lemma {:induction false} PrimaryAges(entries: seq<AddressObservation>, seconds: u32, address: Ipv4Address)
    ensures var found := FindPrimary(entries, address);
            FindPrimary(RebaseAddresses(entries, seconds), address)
              == if found.Some? then Some(RebaseEntry(found.value, seconds)) else None
  {
    hide RebaseEntry;
    if entries != [] {
      PrimaryAges(entries[1..], seconds, address);
      RebasedStanding(entries[0], seconds);
      assert RebaseAddresses(entries, seconds)[1..] == RebaseAddresses(entries[1..], seconds);
    }
  }

  /** The cascade check does not depend on the time that has passed. */
  lemma RefusalAges(diff: StateDiff, index: nat, device: DeviceObservation, kind: OperationKind, eligible: seq<bool>,
                    now: Instant)
    requires index < |diff.operations| && index < |eligible|
    requires !CascadeRefused(diff, index, device, kind, eligible)
    ensures !CascadeRefused(diff, index, Rebase(device, now), kind, eligible)
  {
    hide RebaseEntry, RemovalIsCovered;
    var seconds := WholeSeconds(Since(now, device.observedAt));
    if kind.RemoveIpv4? && FindPrimary(device.addresses, kind.address).Some? {
      PrimaryAges(device.addresses, seconds, kind.address);
      var primary, rebased := FindPrimary(device.addresses, kind.address).value, Rebase(device, now).addresses;
      forall entry | entry in rebased
        ensures !Endangers(diff, index, device.identity, kind.address, RebaseEntry(primary, seconds), entry, eligible)
      {
        var i :| 0 <= i < |rebased| && rebased[i] == entry;
        assert device.addresses[i] in device.addresses;
        EndangersAges(diff, index, device.identity, kind.address, primary, device.addresses[i], eligible, seconds);
      }
    } else if kind.RemoveIpv4? {
      PrimaryAges(device.addresses, seconds, kind.address);
    }
  }

  lemma EndangersAges(diff: StateDiff, index: nat, target: InterfaceId, removed: Ipv4Address,
                      primary: AddressObservation, secondary: AddressObservation, eligible: seq<bool>, seconds: u32)
    requires index < |diff.operations| && index < |eligible|
    ensures Endangers(diff, index, target, removed, RebaseEntry(primary, seconds), RebaseEntry(secondary, seconds),
                      eligible)
       <==> Endangers(diff, index, target, removed, primary, secondary, eligible)
  {
    hide RebaseEntry, Runnable;
    RebasedStanding(primary, seconds);
    RebasedStanding(secondary, seconds);
  }

  /** What the kernel holds after a write, given what it held right before. */
  ghost predicate Holds(before: seq<AddressObservation>, kind: OperationKind, primary: Option<AddressObservation>,
                        promotes: bool, held: seq<AddressObservation>)
    requires kind.Addresses() && kind.address.prefixLen <= 32
    requires kind.RemoveIpv4? ==> Deletes(before, kind.address, primary)
  {
    match kind
    case AddIpv4(address) => KernelAdds(before, address, held)
    case ReplaceIpv4(address) => KernelReplaces(before, address, held)
    case RemoveIpv4(address) => held == KernelRemoval(before, address, primary, promotes)
    case _ => false
  }

  /** The write of an address operation that was decided on a device, acknowledged, and then re-observed. */
  ghost predicate WrittenAndShown(job: Job, p: Progress, eligible: seq<bool>, index: nat, device: DeviceObservation,
                                  kind: OperationKind, primary: Option<AddressObservation>, promotes: bool,
                                  held: seq<AddressObservation>, after: Observation, position: nat)
    requires index < |job.diff.operations| && index < |eligible|
    requires kind.Addresses() && kind.address.prefixLen <= 32
  {
    var now := job.env.now(|p.log| + 2);
    var rebased := Rebase(device, now);
    && device.identity == job.diff.operations[index].target
    && UniqueIdentities(device.addresses)
    && !CascadeRefused(job.diff, index, device, kind, eligible)
    && !job.env.cancelled(|p.log|)
    && job.env.execute(|p.log| + 1).None?
    && job.env.inventory(|p.log| + 3) == Success(after)
    && (kind.RemoveIpv4? ==> Deletes(rebased.addresses, kind.address, primary))
    && Holds(rebased.addresses, kind, primary, promotes, held)
    && Shows(job, index, after, position, held, now)
  }

  /**
   On a kernel that follows its own rules a decided and acknowledged address write is
   reported as a success, but for a promotion behind another member of the group.
   */
  lemma KernelWritesSucceed(job: Job, p: Progress, eligible: seq<bool>, index: nat, device: DeviceObservation,
                            kind: OperationKind, primary: Option<AddressObservation>, promotes: bool,
                            held: seq<AddressObservation>, after: Observation, position: nat)
    requires index < |job.diff.operations| && index < |eligible|
    requires kind.Addresses() && kind.address.prefixLen <= 32
    requires WrittenAndShown(job, p, eligible, index, device, kind, primary, promotes, held, after, position)
    ensures var rebased := Rebase(device, job.env.now(|p.log| + 2)).addresses;
            ApplyWrite(job, p, eligible, index, device, kind).0
              == if kind.RemoveIpv4? && PromotesBehind(rebased, kind.address, primary, promotes)
                 then Failed(StaleState) else Succeeded
  {
    hide Shows, KernelAdds, KernelReplaces, KernelRemoval, Verify, Project, CascadeRefused, Rebase, Deletes,
      UniqueIdentities, Leads, HasSecondary;
    var now := job.env.now(|p.log| + 2);
    var rebased := Rebase(device, now);
    RebaseStamps(device, now);
    RebasedIdentities(device, now);
    RefusalAges(job.diff, index, device, kind, eligible, now);
    if kind.RemoveIpv4? {
      KernelRemovalVerifies(job, index, eligible, kind, rebased, primary, promotes, after, position);
    } else {
      KernelWriteVerifies(job, index, eligible, kind, rebased, held, after, position);
    }
    HasGroup(kind.address);
  }

  lemma RebaseStamps(device: DeviceObservation, now: Instant)
    ensures Rebase(device, now).observedAt == now && Rebase(device, now).identity == device.identity
  {
  }

  // ---------------------------------------------------------------- the ideal kernel of previews

  /** The kernel that previews are compared with writes what the kernel writes, as long as no secondary is at stake. */
  lemma IdealKernelIsTheKernel(kernel: Observation, target: InterfaceId, kind: OperationKind, position: nat,
                               primary: Option<AddressObservation>, promotes: bool)
    requires kind.Addresses() && kind.address.prefixLen <= 32
    requires FirstWithIndex(kernel.devices, target.index) == Some(position)
    requires var before := kernel.devices[position].addresses;
             && UniqueIdentities(before) && ResolvedAll(before) == before
             && (kind.RemoveIpv4? ==> Deletes(before, kind.address, primary) && NoSecondaries(before, primary))
    ensures var before, after := kernel.devices[position], Written(kernel, target, kind).devices[position];
            after == before.(addresses := after.addresses)
            && Holds(before.addresses, kind, primary, promotes, after.addresses)
  {
    hide KernelAdds, KernelReplaces, KernelRemoval, SameEntries, Deletes, NoSecondaries, UniqueIdentities, Added,
      Replaced;
    var device := kernel.devices[position];
    var projected := Project(device, kind).addresses;
    ResolvedTwice(projected);
    match kind {
      case AddIpv4(address) => KernelAddsTheProjection(device, address, ResolvedAll(projected));
      case ReplaceIpv4(address) => KernelReplacesTheProjection(device, address, ResolvedAll(projected));
      case RemoveIpv4(address) =>
        KernelRemovesTheProjection(device, address, primary, promotes);
        WithoutIsResolved(device.addresses, address);
    }
  }

  lemma ResolvedTwice(entries: seq<AddressObservation>)
    ensures SameEntries(ResolvedAll(entries), entries)
  {
    assert ResolvedAll(ResolvedAll(entries)) == ResolvedAll(entries);
  }

  lemma WithoutIsResolved(entries: seq<AddressObservation>, address: Ipv4Address)
    requires ResolvedAll(entries) == entries
    ensures ResolvedAll(Without(entries, address)) == Without(entries, address)
  {
    var left := Without(entries, address);
    forall i | 0 <= i < |left| ensures Resolved(left[i]) == left[i] {
      assert left[i] in left;
      var k :| 0 <= k < |entries| && entries[k] == left[i];
      assert ResolvedAll(entries)[k] == Resolved(entries[k]);
    }
  }
}
