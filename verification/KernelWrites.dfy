/**
 The kernel's address writes, described on their own, against what the executor projects
 and verifies (executor.rs; the kernel's rules as in executor/tests.rs).
 */
module KernelWrites {
  import opened Bits
  import opened Wrappers
  import opened Plan
  import opened PrefixGroups
  import opened Executor
  import opened Projection
  import opened PreviewRefinement

  // ---------------------------------------------------------------- flags

  ghost function Part(flags: bv32, mask: bv32): bv32 {
    flags & mask
  }

  ghost predicate Bit(flags: bv32, mask: bv32) {
    Part(flags, mask) != 0
  }

  ghost predicate Permanent(entry: AddressObservation) {
    Bit(entry.flags, 0x80)
  }

  ghost predicate Deprecated(entry: AddressObservation) {
    Bit(entry.flags, 0x20)
  }

  ghost predicate Second(entry: AddressObservation) {
    Bit(entry.flags, 0x01)
  }

  /** The flags the kernel does not derive from lifetimes or from other addresses. */
  ghost function OtherFlags(entry: AddressObservation): bv32 {
    Part(entry.flags, 0xFFFF_FF5E)
  }

  lemma OneBit(flags: bv32)
    ensures Part(flags, 0x80) == if Bit(flags, 0x80) then 0x80 else 0
    ensures Part(flags, 0x20) == if Bit(flags, 0x20) then 0x20 else 0
    ensures Part(flags, 0x01) == if Bit(flags, 0x01) then 0x01 else 0
  {
  }

  lemma Parts(flags: bv32)
    ensures flags == Part(flags, 0x80) | Part(flags, 0x20) | Part(flags, 0x01) | Part(flags, 0xFFFF_FF5E)
  {
  }

  /** The four facts determine the flags. */
  lemma FlagsAreFacts(a: AddressObservation, b: AddressObservation)
    ensures a.flags == b.flags <==>
              && (Permanent(a) <==> Permanent(b))
              && (Deprecated(a) <==> Deprecated(b))
              && (Second(a) <==> Second(b))
              && OtherFlags(a) == OtherFlags(b)
  {
    hide Bit, Part;
    var x, y := a.flags, b.flags;
    OneBit(x);
    OneBit(y);
    Parts(x);
    Parts(y);
  }

  /** The flags differ in the deprecated bit and nowhere else. */
  ghost predicate Toggled(a: bv32, b: bv32) {
    a ^ b == 0x20
  }

  lemma ToggledParts(a: bv32, b: bv32)
    requires Toggled(a, b)
    ensures Part(a, 0xFFFF_FFDF) == Part(b, 0xFFFF_FFDF)
    ensures Part(a, 0x20) != Part(b, 0x20)
  {
  }

  lemma TogglesOneBit(a: bv32, b: bv32)
    requires Part(a, 0xFFFF_FFDF) == Part(b, 0xFFFF_FFDF) && Part(a, 0x20) != Part(b, 0x20)
    ensures Toggled(a, b)
  {
  }

  lemma TwoParts(flags: bv32)
    ensures flags == Part(flags, 0xFFFF_FFDF) | Part(flags, 0x20)
  {
  }

  lemma AgreeingParts(a: bv32, b: bv32, mask: bv32)
    ensures AgreeOn(a, b, mask) <==> Part(a, mask) == Part(b, mask)
  {
  }

  /** Flags match when they are equal, or differ in a deprecation that is due. */
  lemma FlagsMatchMeans(expected: bv32, actual: bv32, lapsed: bool)
    ensures FlagsMatch(expected, actual, lapsed) <==> expected == actual || (lapsed && Toggled(expected, actual))
  {
    hide Part, Toggled, AgreeOn;
    AgreeingParts(expected, actual, 0xFFFF_FFDF);
    AgreeingParts(expected, actual, 0x20);
    assert !IFA_F_DEPRECATED == 0xFFFF_FFDF;
    TwoParts(expected);
    TwoParts(actual);
    if Toggled(expected, actual) {
      ToggledParts(expected, actual);
    } else if Part(expected, 0xFFFF_FFDF) == Part(actual, 0xFFFF_FFDF) && Part(expected, 0x20) != Part(actual, 0x20) {
      TogglesOneBit(expected, actual);
    }
  }

  // ---------------------------------------------------------------- what the kernel does

  /** An absent valid lifetime is unlimited, an absent preferred one as long as the valid one. */
  ghost function Valid(address: Ipv4Address): u32 {
    match address.validLft case Some(seconds) => seconds case None => 0xFFFF_FFFF
  }

  ghost function Preferred(address: Ipv4Address): u32 {
    match address.preferredLft case Some(seconds) => seconds case None => Valid(address)
  }

  ghost predicate Is(entry: AddressObservation, address: Ipv4Address) {
    entry.address.ip == address.ip && entry.address.prefixLen == address.prefixLen
  }

  /** Lifetimes as asked for, and the flags that follow from them. */
  ghost predicate Timed(entry: AddressObservation, address: Ipv4Address) {
    && Valid(entry.address) == Valid(address)
    && Preferred(entry.address) == Preferred(address)
    && (Permanent(entry) <==> Valid(address) == 0xFFFF_FFFF)
    && (Deprecated(entry) <==> Preferred(address) == 0)
  }

  /** A new address: no peer, the scope of its kind, secondary by the kernel's rule, and no other flag. */
  ghost predicate New(entry: AddressObservation, before: seq<AddressObservation>, address: Ipv4Address)
    requires address.prefixLen <= 32
  {
    && Is(entry, address)
    && Timed(entry, address)
    && entry.peer.None?
    && entry.scope == (if 0x7F00_0000 <= address.ip < 0x8000_0000 then 254 else 0)
    && (Second(entry) <==> KernelSecondary(before, address))
    && OtherFlags(entry) == 0
  }

  /** A replaced address keeps its place, peer, scope and standing. */
  ghost predicate Renewed(entry: AddressObservation, prior: AddressObservation, address: Ipv4Address) {
    && Is(entry, address)
    && Timed(entry, address)
    && entry.peer == prior.peer
    && entry.scope == prior.scope
    && (Second(entry) <==> Second(prior))
    && OtherFlags(entry) == OtherFlags(prior)
  }

  /** The same list once lifetimes are written out, as every dump shows them. */
  ghost predicate SameEntries(a: seq<AddressObservation>, b: seq<AddressObservation>) {
    ResolvedAll(a) == ResolvedAll(b)
  }

  ghost predicate KernelAdds(before: seq<AddressObservation>, address: Ipv4Address, after: seq<AddressObservation>)
    requires address.prefixLen <= 32
  {
    && |after| == |before| + 1
    && SameEntries(after[..|before|], before)
    && New(after[|before|], before, address)
  }

  ghost predicate KernelReplaces(before: seq<AddressObservation>, address: Ipv4Address, after: seq<AddressObservation>)
  {
    && |after| == |before|
    && forall i | 0 <= i < |before| ::
         if Is(before[i], address) then Renewed(after[i], before[i], address)
         else Resolved(after[i]) == Resolved(before[i])
  }

  // ---------------------------------------------------------------- projection agrees

  lemma LifetimesMean(address: Ipv4Address)
    ensures address.ValidLifetime() == Valid(address) && address.PreferredLifetime() == Preferred(address)
  {
  }

  lemma LifetimeBits(address: Ipv4Address)
    ensures Bit(LifetimeFlags(address), 0x80) <==> Valid(address) == 0xFFFF_FFFF
    ensures Bit(LifetimeFlags(address), 0x20) <==> Preferred(address) == 0
    ensures Part(LifetimeFlags(address), 0xFFFF_FF5F) == 0
  {
  }

  lemma AddedBits(own: bv32, secondary: bool)
    requires Part(own, 0xFFFF_FF5F) == 0
    ensures Part(AddedFlags(own, secondary), 0x80) == Part(own, 0x80)
    ensures Part(AddedFlags(own, secondary), 0x20) == Part(own, 0x20)
    ensures Part(AddedFlags(own, secondary), 0x01) == if secondary then 0x01 else 0
    ensures Part(AddedFlags(own, secondary), 0xFFFF_FF5E) == 0
  {
  }

  /** Replaced flags take the lifetime bits from the new address and everything else from the prior entry. */
  lemma RenewedBits(prior: bv32, own: bv32)
    requires Part(own, 0xFFFF_FF5F) == 0
    ensures Part(RenewedFlags(prior, own), 0x80) == Part(own, 0x80)
    ensures Part(RenewedFlags(prior, own), 0x20) == Part(own, 0x20)
    ensures Part(RenewedFlags(prior, own), 0x01) == Part(prior, 0x01)
    ensures Part(RenewedFlags(prior, own), 0xFFFF_FF5E) == Part(prior, 0xFFFF_FF5E)
  {
  }

  lemma LoopbackRange(ip: u32)
    ensures IsLoopback(ip) <==> 0x7F00_0000 <= ip < 0x8000_0000
  {
  }

  /** What the executor projects for an addition is the kernel's new entry. */
  lemma AddedIsNew(before: seq<AddressObservation>, address: Ipv4Address)
    requires address.prefixLen <= 32
    ensures New(Added(before, address), before, address)
  {
    hide KernelSecondary, LifetimeFlags, Part, AddedFlags;
    LifetimeBits(address);
    var secondary := exists entry | entry in before :: entry.KernelGroup() == address.Group();
    AddedBits(LifetimeFlags(address), secondary);
    LoopbackRange(address.ip);
    SecondaryBit(Added(before, address));
    ProjectedSecondaryIsKernelSecondary(before, address);
  }

  lemma SecondaryBit(entry: AddressObservation)
    ensures Second(entry) <==> entry.Secondary()
  {
  }

  lemma ReplacedIsRenewed(prior: AddressObservation, address: Ipv4Address)
    requires Is(prior, address)
    ensures Renewed(Replaced(prior, address), prior, address)
  {
    hide LifetimeFlags, Part, RenewedFlags;
    LifetimeBits(address);
    RenewedBits(prior.flags, LifetimeFlags(address));
  }

  /** The kernel's rules leave no choice but how lifetimes are written. */
  lemma NewIsDetermined(a: AddressObservation, b: AddressObservation, before: seq<AddressObservation>,
                        address: Ipv4Address)
    requires address.prefixLen <= 32 && New(a, before, address)
    ensures New(b, before, address) <==> Resolved(a) == Resolved(b)
  {
    hide KernelSecondary, Permanent, Deprecated, Second, OtherFlags;
    FlagsAreFacts(a, b);
  }

  lemma RenewedIsDetermined(a: AddressObservation, b: AddressObservation, prior: AddressObservation,
                            address: Ipv4Address)
    requires Renewed(a, prior, address)
    ensures Renewed(b, prior, address) <==> Resolved(a) == Resolved(b)
  {
    hide Permanent, Deprecated, Second, OtherFlags;
    FlagsAreFacts(a, b);
  }

  lemma SameEntriesMean(a: seq<AddressObservation>, b: seq<AddressObservation>)
    ensures SameEntries(a, b) <==> |a| == |b| && forall i | 0 <= i < |a| :: Resolved(a[i]) == Resolved(b[i])
  {
    hide Resolved;
    var x, y := ResolvedAll(a), ResolvedAll(b);
    if x == y {
      forall i | 0 <= i < |a| ensures Resolved(a[i]) == Resolved(b[i]) {
        assert x[i] == y[i];
      }
    }
  }

  /** The kernel adds exactly what is projected, up to how lifetimes are written. */
  lemma KernelAddsTheProjection(device: DeviceObservation, address: Ipv4Address, after: seq<AddressObservation>)
    requires address.prefixLen <= 32
    ensures KernelAdds(device.addresses, address, after)
       <==> SameEntries(after, Project(device, AddIpv4(address)).addresses)
  {
    hide New, Resolved, SameEntries, Added;
    var before, n := device.addresses, |device.addresses|;
    var added := Added(before, address);
    AddedIsNew(before, address);
    SameEntriesMean(after, before + [added]);
    if |after| == n + 1 {
      SameEntriesMean(after[..n], before);
      NewIsDetermined(added, after[n], before, address);
      assert forall i | 0 <= i < n :: (before + [added])[i] == before[i] && after[..n][i] == after[i];
    }
  }

  lemma {:induction false} FirstIsReplaced(before: seq<AddressObservation>, address: Ipv4Address, i: nat)
    requires UniqueIdentities(before) && i < |before|
    ensures ReplaceFirst(before, address)[i]
         == if Is(before[i], address) then Replaced(before[i], address) else before[i]
  {
    hide Replaced;
    if i > 0 {
      forall j, k | 0 <= j < k < |before[1..]| ensures !before[1..][j].address.SameIdentity(before[1..][k].address) {
        assert !before[j + 1].address.SameIdentity(before[k + 1].address);
      }
      FirstIsReplaced(before[1..], address, i - 1);
      assert !before[0].address.SameIdentity(before[i].address);
    }
  }

  /** The kernel replaces exactly as projected, up to how lifetimes are written. */
  lemma KernelReplacesTheProjection(device: DeviceObservation, address: Ipv4Address, after: seq<AddressObservation>)
    requires UniqueIdentities(device.addresses)
    ensures KernelReplaces(device.addresses, address, after)
       <==> SameEntries(after, Project(device, ReplaceIpv4(address)).addresses)
  {
    hide Renewed, Resolved, SameEntries, Replaced, Is;
    var before := device.addresses;
    var projected := ReplaceFirst(before, address);
    SameEntriesMean(after, projected);
    if |after| == |before| {
      forall i | 0 <= i < |before|
        ensures projected[i] == if Is(before[i], address) then Replaced(before[i], address) else before[i]
        ensures Is(before[i], address) ==>
                  (Renewed(after[i], before[i], address) <==> Resolved(projected[i]) == Resolved(after[i]))
      {
        FirstIsReplaced(before, address, i);
        if Is(before[i], address) {
          ReplacedIsRenewed(before[i], address);
          RenewedIsDetermined(projected[i], after[i], before[i], address);
        }
      }
    }
  }

  // ---------------------------------------------------------------- removal

  ghost function Local(entry: AddressObservation): u32 {
    if entry.peer.Some? then entry.peer.value else entry.address.ip
  }

  /** The secondaries of a primary have its mask and its scope, and lie inside its subnet. */
  ghost predicate SecondaryOf(entry: AddressObservation, primary: AddressObservation)
    requires primary.address.prefixLen <= 32
  {
    && Second(entry)
    && entry.address.prefixLen == primary.address.prefixLen
    && entry.scope == primary.scope
    && And(Xor(Local(entry), Local(primary)), Mask(primary.address.prefixLen)) == 0
  }

  /** The same entry, now primary. */
  ghost function Promoted(entry: AddressObservation): AddressObservation {
    entry.(flags := entry.flags & 0xFFFF_FFFE)
  }

  /** What is left without one address. */
  ghost function Left(before: seq<AddressObservation>, removed: Ipv4Address): seq<AddressObservation> {
    if before == [] then []
    else (if Is(before[0], removed) then [] else [before[0]]) + Left(before[1..], removed)
  }

  /** A deleted primary takes its secondaries along, or the first of them becomes primary. */
  ghost function LeftOf(before: seq<AddressObservation>, removed: Ipv4Address, primary: AddressObservation,
                        promotes: bool): seq<AddressObservation>
    requires primary.address.prefixLen <= 32
  {
    if before == [] then []
    else if Is(before[0], removed) then LeftOf(before[1..], removed, primary, promotes)
    else if !SecondaryOf(before[0], primary) then [before[0]] + LeftOf(before[1..], removed, primary, promotes)
    else if promotes then [Promoted(before[0])] + Left(before[1..], removed)
    else LeftOf(before[1..], removed, primary, promotes)
  }

  /** The primary that a removal deletes, if it deletes one. */
  ghost predicate Deletes(before: seq<AddressObservation>, removed: Ipv4Address, primary: Option<AddressObservation>) {
    match primary
    case Some(p) => p in before && Is(p, removed) && !Second(p)
    case None => forall p | p in before && Is(p, removed) :: Second(p)
  }

  ghost function KernelRemoval(before: seq<AddressObservation>, removed: Ipv4Address,
                               primary: Option<AddressObservation>, promotes: bool): seq<AddressObservation>
    requires removed.prefixLen <= 32 && Deletes(before, removed, primary)
  {
    match primary
    case Some(p) => LeftOf(before, removed, p, promotes)
    case None => Left(before, removed)
  }

  lemma {:induction false} LeftIsWithout(before: seq<AddressObservation>, removed: Ipv4Address)
    ensures Left(before, removed) == Without(before, removed)
  {
    if before != [] {
      LeftIsWithout(before[1..], removed);
    }
  }

  /** Without secondaries to lose, the kernel leaves what is projected. */
  lemma {:induction false} LeftWithoutSecondaries(before: seq<AddressObservation>, removed: Ipv4Address,
                                                  primary: AddressObservation, promotes: bool)
    requires primary.address.prefixLen <= 32
    requires forall entry | entry in before && !Is(entry, removed) :: !SecondaryOf(entry, primary)
    ensures LeftOf(before, removed, primary, promotes) == Left(before, removed)
  {
    hide SecondaryOf, Is;
    if before != [] {
      assert before[0] in before && forall entry | entry in before[1..] :: entry in before;
      LeftWithoutSecondaries(before[1..], removed, primary, promotes);
    }
  }

  ghost predicate NoSecondaries(before: seq<AddressObservation>, primary: Option<AddressObservation>)
    requires primary.Some? ==> primary.value.address.prefixLen <= 32
  {
    primary.Some? ==> forall entry | entry in before :: !SecondaryOf(entry, primary.value)
  }

  /** The kernel removes what is projected when the deleted primary has no secondaries. */
  lemma KernelRemovesTheProjection(device: DeviceObservation, removed: Ipv4Address,
                                   primary: Option<AddressObservation>, promotes: bool)
    requires removed.prefixLen <= 32 && Deletes(device.addresses, removed, primary)
    requires NoSecondaries(device.addresses, primary)
    ensures KernelRemoval(device.addresses, removed, primary, promotes)
         == Project(device, RemoveIpv4(removed)).addresses
  {
    hide SecondaryOf;
    LeftIsWithout(device.addresses, removed);
    if primary.Some? {
      LeftWithoutSecondaries(device.addresses, removed, primary.value, promotes);
    }
  }

  lemma SecondaryOfIsExposed(entry: AddressObservation, primary: AddressObservation)
    requires primary.address.prefixLen <= 32
    ensures SecondaryOf(entry, primary) <==> Exposed(primary, entry)
  {
    hide And, Xor, Mask, Part;
    SecondaryBit(entry);
    if entry.address.prefixLen == primary.address.prefixLen {
      KernelXorRule(Local(entry), Local(primary), primary.address.prefixLen);
    }
  }
}
