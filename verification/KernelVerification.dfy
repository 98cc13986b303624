/** Verification accepts what the kernel does, and which of its promotions it does not (executor.rs). */
module KernelVerification {
  import opened Bits
  import opened Wrappers
  import opened Plan
  import opened Report
  import opened Lifetimes
  import opened Executor
  import opened Projection
  import opened PreviewRefinement
  import opened KernelWrites

  // ---------------------------------------------------------------- what a later dump shows

  /** One countdown explains both readings, or both are unlimited. */
  ghost predicate RunsDown(before: u32, after: u32, elapsed: Duration) {
    if before == FOREVER || after == FOREVER then before == after else Explained(before, after, elapsed)
  }

  /** Lifetimes run down, and the kernel may have deprecated an address whose preferred one ran out. */
  ghost predicate Later(entry: AddressObservation, shown: AddressObservation, elapsed: Duration) {
    && shown.address.ip == entry.address.ip
    && shown.address.prefixLen == entry.address.prefixLen
    && shown.scope == entry.scope
    && shown.peer == entry.peer
    && RunsDown(Valid(entry.address), Valid(shown.address), elapsed)
    && RunsDown(Preferred(entry.address), Preferred(shown.address), elapsed)
    && (shown.flags == entry.flags || (Preferred(shown.address) == 0 && Toggled(entry.flags, shown.flags)))
  }

  ghost predicate AllLater(entries: seq<AddressObservation>, shown: seq<AddressObservation>, elapsed: Duration) {
    |shown| == |entries| && forall i | 0 <= i < |entries| :: Later(entries[i], shown[i], elapsed)
  }

  lemma RunsDownMatches(before: u32, after: u32, elapsed: Duration)
    requires RunsDown(before, after, elapsed)
    ensures LifetimeMatches(before, after, elapsed)
  {
    hide LifetimeMatches, Explained;
    if before == FOREVER || after == FOREVER {
      ForeverMatchesOnlyForever(before, after, elapsed);
    } else {
      MatchIffExplained(before, after, elapsed);
    }
  }

  lemma LaterMatches(entry: AddressObservation, shown: AddressObservation, elapsed: Duration)
    requires Later(entry, shown, elapsed)
    ensures AddressMatches(entry, shown, elapsed)
    ensures shown.address.SameIdentity(entry.address)
    ensures Second(shown) <==> Second(entry)
  {
    hide LifetimeMatches, RunsDown, FlagsMatch, Part, Toggled;
    RunsDownMatches(Valid(entry.address), Valid(shown.address), elapsed);
    RunsDownMatches(Preferred(entry.address), Preferred(shown.address), elapsed);
    FlagsMatchMeans(entry.flags, shown.flags,
                    Preferred(shown.address) == 0 && LifetimeMatches(Preferred(entry.address), 0, elapsed));
    if Toggled(entry.flags, shown.flags) {
      DeprecationKeepsStanding(entry.flags, shown.flags);
    }
  }

  lemma DeprecationKeepsStanding(a: bv32, b: bv32)
    requires Toggled(a, b)
    ensures Part(a, 0x01) == Part(b, 0x01)
  {
  }

  lemma LaterHead(entries: seq<AddressObservation>, shown: seq<AddressObservation>, elapsed: Duration)
    requires AllLater(entries, shown, elapsed) && entries != []
    ensures shown != [] && Later(entries[0], shown[0], elapsed) && AllLater(entries[1..], shown[1..], elapsed)
  {
    hide Later;
  }

  lemma {:induction false} MembersLater(entries: seq<AddressObservation>, shown: seq<AddressObservation>,
                                        elapsed: Duration, key: GroupKey)
    requires AllLater(entries, shown, elapsed)
    ensures AllLater(Members(entries, key), Members(shown, key), elapsed)
  {
    hide Later, Masked;
    if entries != [] {
      LaterHead(entries, shown, elapsed);
      MembersLater(entries[1..], shown[1..], elapsed, key);
      SameGroupLater(entries[0], shown[0], elapsed, key);
      MembersHead(entries, key);
      MembersHead(shown, key);
      var rest, later := Members(entries[1..], key), Members(shown[1..], key);
      if key.Contains(entries[0].address) {
        assert AllLater([entries[0]] + rest, [shown[0]] + later, elapsed);
      } else {
        assert [] + rest == rest && [] + later == later;
      }
    }
  }

  lemma SameGroupLater(entry: AddressObservation, shown: AddressObservation, elapsed: Duration, key: GroupKey)
    requires Later(entry, shown, elapsed)
    ensures key.Contains(entry.address) <==> key.Contains(shown.address)
  {
  }

  lemma PresentLater(entries: seq<AddressObservation>, shown: seq<AddressObservation>, elapsed: Duration,
                     address: Ipv4Address)
    requires AllLater(entries, shown, elapsed)
    ensures Present(shown, address) <==> Present(entries, address)
  {
    hide RunsDown;
    if Present(entries, address) {
      var i :| 0 <= i < |entries| && entries[i].address.SameIdentity(address);
      assert shown[i] in shown;
    }
    if Present(shown, address) {
      var i :| 0 <= i < |shown| && shown[i].address.SameIdentity(address);
      assert entries[i] in entries;
    }
  }

  // ---------------------------------------------------------------- verification accepts it

  /** A re-observation of the target shows what the kernel holds. */
  ghost predicate Shows(job: Job, index: nat, after: Observation, position: nat, held: seq<AddressObservation>,
                        since: Instant)
    requires index < |job.diff.operations|
  {
    && Locate(after, job.diff.operations[index].target, job.env.namespace) == Success(position)
    && after.devices[position].addressesComplete
    && AllLater(held, after.devices[position].addresses, Since(after.devices[position].observedAt, since))
  }

  /** Members that match the expected ones, with everyone else still there, are all that is verified. */
  lemma VerifyMeans(job: Job, index: nat, eligible: seq<bool>, kind: OperationKind, predicted: DeviceObservation,
                    after: Observation, position: nat, held: seq<AddressObservation>)
    requires index < |job.diff.operations| && index < |eligible| && kind.Addresses() && kind.address.prefixLen <= 32
    requires Shows(job, index, after, position, held, predicted.observedAt)
    ensures var target := job.diff.operations[index].target;
            var key := GroupKey(target, kind.address.Group().value);
            var actual := after.devices[position];
            var members := Members(actual.addresses, key);
            var expected := ExpectedMembers(job.diff, index, kind, target, eligible,
                                            Members(predicted.addresses, key), members);
            Verify(job, index, eligible, kind, predicted, after) ==
              if GroupMatches(ExpectedGroup(expected, predicted.observedAt), members, actual.observedAt)
                 && OutsideSurvives(predicted.addresses, key, actual.addresses)
              then Success(actual) else Failure(StaleState)
  {
    hide GroupMatches, OutsideSurvives, ExpectedMembers, Members, AllLater, Locate;
  }

  lemma AllLaterMatch(expected: seq<AddressObservation>, members: seq<AddressObservation>, observedAt: Instant,
                      now: Instant)
    requires AllLater(expected, members, Since(now, observedAt))
    ensures GroupMatches(ExpectedGroup(expected, observedAt), members, now)
  {
    hide Later, AddressMatches;
    forall i | 0 <= i < |members| ensures AddressMatches(expected[i], members[i], Since(now, observedAt)) {
      LaterMatches(expected[i], members[i], Since(now, observedAt));
    }
  }

  lemma NothingLost(predicted: seq<AddressObservation>, key: GroupKey, shown: seq<AddressObservation>,
                    held: seq<AddressObservation>, elapsed: Duration)
    requires AllLater(held, shown, elapsed)
    requires forall entry | entry in predicted && !key.Contains(entry.address) :: Present(held, entry.address)
    ensures OutsideSurvives(predicted, key, shown)
  {
    hide AllLater, Present;
    forall entry | entry in predicted && !key.Contains(entry.address) ensures Present(shown, entry.address) {
      PresentLater(held, shown, elapsed, entry.address);
    }
  }

  lemma LaterResolves(a: seq<AddressObservation>, b: seq<AddressObservation>, shown: seq<AddressObservation>,
                      elapsed: Duration)
    requires SameEntries(a, b) && AllLater(a, shown, elapsed)
    ensures AllLater(b, shown, elapsed)
  {
    hide Resolved, RunsDown;
    SameEntriesMean(a, b);
    forall i | 0 <= i < |b| ensures Later(b[i], shown[i], elapsed) {
      LaterResolved(a[i], b[i], shown[i], elapsed);
    }
  }

  lemma LaterResolved(a: AddressObservation, b: AddressObservation, shown: AddressObservation, elapsed: Duration)
    requires Resolved(a) == Resolved(b) && Later(a, shown, elapsed)
    ensures Later(b, shown, elapsed)
  {
    hide RunsDown;
  }

  /** An addition or replacement that the kernel carried out passes verification. */
  lemma KernelWriteVerifies(job: Job, index: nat, eligible: seq<bool>, kind: OperationKind, device: DeviceObservation,
                            held: seq<AddressObservation>, after: Observation, position: nat)
    requires index < |job.diff.operations| && index < |eligible|
    requires (kind.AddIpv4? || kind.ReplaceIpv4?) && kind.address.prefixLen <= 32
    requires kind.AddIpv4? ==> KernelAdds(device.addresses, kind.address, held)
    requires kind.ReplaceIpv4? ==>
               UniqueIdentities(device.addresses) && KernelReplaces(device.addresses, kind.address, held)
    requires Shows(job, index, after, position, held, device.observedAt)
    ensures Verify(job, index, eligible, kind, Project(device, kind), after) == Success(after.devices[position])
  {
    hide KernelAdds, KernelReplaces, AllLater, Verify, SameEntries, Project, Locate, Members, GroupMatches,
      OutsideSurvives;
    var predicted, actual := Project(device, kind), after.devices[position];
    if kind.AddIpv4? {
      KernelAddsTheProjection(device, kind.address, held);
    } else {
      KernelReplacesTheProjection(device, kind.address, held);
    }
    SameClock(device, kind);
    var elapsed := Since(actual.observedAt, device.observedAt);
    LaterResolves(held, predicted.addresses, actual.addresses, elapsed);
    var key := GroupKey(job.diff.operations[index].target, kind.address.Group().value);
    VerifyMeans(job, index, eligible, kind, predicted, after, position, predicted.addresses);
    MembersLater(predicted.addresses, actual.addresses, elapsed, key);
    AllLaterMatch(Members(predicted.addresses, key), Members(actual.addresses, key), device.observedAt,
                  actual.observedAt);
    forall entry | entry in predicted.addresses ensures Present(predicted.addresses, entry.address) {
    }
    NothingLost(predicted.addresses, key, actual.addresses, predicted.addresses, elapsed);
  }

  lemma SameClock(device: DeviceObservation, kind: OperationKind)
    ensures Project(device, kind).observedAt == device.observedAt
  {
  }

  // ---------------------------------------------------------------- verification of removals

  /** Every secondary of the deleted primary is in the removed address's group and has its own removal ahead. */
  ghost predicate Accounted(job: Job, index: nat, eligible: seq<bool>, removed: Ipv4Address,
                            before: seq<AddressObservation>, primary: AddressObservation)
    requires index < |job.diff.operations| && index < |eligible| && primary.address.prefixLen <= 32
  {
    forall entry | entry in before && SecondaryOf(entry, primary) ::
      && entry.address.Group() == removed.Group()
      && RemovalIsCovered(job.diff, index, job.diff.operations[index].target, entry.address, eligible)
  }

  lemma UnrefusedIsAccounted(job: Job, index: nat, eligible: seq<bool>, device: DeviceObservation, kind: OperationKind,
                             primary: AddressObservation)
    requires index < |job.diff.operations| && index < |eligible|
    requires kind.RemoveIpv4? && kind.address.prefixLen <= 32 && UniqueIdentities(device.addresses)
    requires device.identity == job.diff.operations[index].target
    requires Deletes(device.addresses, kind.address, Some(primary))
    requires !CascadeRefused(job.diff, index, device, kind, eligible)
    ensures Accounted(job, index, eligible, kind.address, device.addresses, primary)
  {
    hide RemovalIsCovered, SecondaryOf, Exposed, Masked;
    SecondaryBit(primary);
    var found := FindPrimary(device.addresses, kind.address);
    assert found.Some?;
    SameEntry(device.addresses, found.value, primary);
    forall entry | entry in device.addresses && SecondaryOf(entry, primary)
      ensures entry.address.Group() == kind.address.Group()
      ensures RemovalIsCovered(job.diff, index, job.diff.operations[index].target, entry.address, eligible)
    {
      SecondaryOfIsExposed(entry, primary);
      assert !Endangers(job.diff, index, device.identity, kind.address, primary, entry, eligible);
    }
  }

  lemma SameEntry(entries: seq<AddressObservation>, a: AddressObservation, b: AddressObservation)
    requires UniqueIdentities(entries) && a in entries && b in entries && a.address.SameIdentity(b.address)
    ensures a == b
  {
    var i :| 0 <= i < |entries| && entries[i] == a;
    var j :| 0 <= j < |entries| && entries[j] == b;
    assert entries[i].address.SameIdentity(entries[j].address) && entries[j].address.SameIdentity(entries[i].address);
  }

  /** Who is left when the secondaries go. */
  lemma {:induction false} LeftByCascade(before: seq<AddressObservation>, removed: Ipv4Address,
                                         primary: AddressObservation, entry: AddressObservation)
    requires primary.address.prefixLen <= 32
    ensures entry in LeftOf(before, removed, primary, false)
       <==> entry in before && !Is(entry, removed) && !SecondaryOf(entry, primary)
  {
    hide SecondaryOf, Is;
    if before != [] {
      LeftByCascade(before[1..], removed, primary, entry);
      assert before == [before[0]] + before[1..];
    }
  }

  /** Expected after a cascade: the members that are not missing with an excuse are those the kernel left. */
  lemma {:induction false} AwaitedAfterCascade(job: Job, index: nat, eligible: seq<bool>, removed: Ipv4Address,
                                               primary: AddressObservation, before: seq<AddressObservation>,
                                               key: GroupKey, shown: seq<AddressObservation>)
    requires index < |job.diff.operations| && index < |eligible| && primary.address.prefixLen <= 32
    requires Accounted(job, index, eligible, removed, before, primary)
    requires forall entry | entry in before && key.Contains(entry.address) && !Is(entry, removed) ::
               Present(shown, entry.address) <==> !SecondaryOf(entry, primary)
    ensures Awaited(job.diff, index, job.diff.operations[index].target, eligible,
                    Members(Without(before, removed), key), shown)
         == Members(LeftOf(before, removed, primary, false), key)
  {
    hide SecondaryOf, Present, RemovalIsCovered, Masked, Part;
    if before != [] {
      var first, rest := before[0], before[1..];
      assert first in before && forall entry | entry in rest :: entry in before;
      AwaitedAfterCascade(job, index, eligible, removed, primary, rest, key, shown);
      var left, without := LeftOf(rest, removed, primary, false), Without(rest, removed);
      assert [] + without == without;
      assert first.address.SameIdentity(removed) <==> Is(first, removed);
      if !Is(first, removed) {
        MembersHead([first] + without, key);
        MembersHead([first] + left, key);
        assert ([first] + without)[1..] == without && ([first] + left)[1..] == left;
        if key.Contains(first.address) {
          var members := Members(without, key);
          assert ([first] + members)[1..] == members;
          if SecondaryOf(first, primary) {
            SecondaryStands(first, primary);
          }
          assert MayBeAbsent(job.diff, index, job.diff.operations[index].target, eligible, first, shown)
            <==> SecondaryOf(first, primary);
        } else {
          assert [] + Members(without, key) == Members(without, key);
          assert [] + Members(left, key) == Members(left, key);
        }
      }
    }
  }

  lemma SecondaryStands(entry: AddressObservation, primary: AddressObservation)
    requires primary.address.prefixLen <= 32 && SecondaryOf(entry, primary)
    ensures entry.Secondary()
  {
    hide Part, And, Xor, Mask;
    SecondaryBit(entry);
  }

  /** The first secondary comes before everyone else of the group that stays. */
  ghost predicate Leads(before: seq<AddressObservation>, removed: Ipv4Address, primary: AddressObservation)
    requires primary.address.prefixLen <= 32
  {
    && before != []
    && (|| SecondaryOf(before[0], primary)
        || (&& (before[0].address.Group() != removed.Group() || Is(before[0], removed))
            && Leads(before[1..], removed, primary)))
  }

  ghost predicate HasSecondary(before: seq<AddressObservation>, primary: AddressObservation)
    requires primary.address.prefixLen <= 32
  {
    exists entry | entry in before :: SecondaryOf(entry, primary)
  }

  lemma PromotionKeepsAddress(entry: AddressObservation)
    ensures Promoted(entry).address == entry.address
  {
  }

  lemma MembersCons(first: AddressObservation, rest: seq<AddressObservation>, key: GroupKey)
    ensures Members([first] + rest, key)
         == if key.Contains(first.address) then [first] + Members(rest, key) else Members(rest, key)
  {
    hide Masked;
    MembersHead([first] + rest, key);
    assert ([first] + rest)[1..] == rest;
    assert [] + Members(rest, key) == Members(rest, key);
  }

  /** Position m of a group holds the first secondary, which the kernel promotes. */
  ghost predicate PromotedAt(before: seq<AddressObservation>, removed: Ipv4Address, primary: AddressObservation,
                             key: GroupKey, m: nat)
    requires primary.address.prefixLen <= 32
  {
    var predicted, left := Members(Without(before, removed), key),
                           Members(LeftOf(before, removed, primary, true), key);
    && m < |predicted|
    && SecondaryOf(predicted[m], primary)
    && left == predicted[m := Promoted(predicted[m])]
    && (m == 0 <==> Leads(before, removed, primary))
  }

  lemma PromotedHead(first: AddressObservation, rest: seq<AddressObservation>, removed: Ipv4Address,
                     primary: AddressObservation, key: GroupKey)
    requires primary.address.prefixLen <= 32 && !Is(first, removed) && SecondaryOf(first, primary)
    requires key.Contains(first.address)
    ensures PromotedAt([first] + rest, removed, primary, key, 0)
  {
    hide SecondaryOf, Masked, Promoted, Members;
    var before, without := [first] + rest, Without(rest, removed);
    assert before[0] == first && before[1..] == rest;
    LeftIsWithout(rest, removed);
    PromotionKeepsAddress(first);
    MembersCons(first, without, key);
    MembersCons(Promoted(first), without, key);
    assert Without(before, removed) == [first] + without;
  }

  lemma PromotedBehind(first: AddressObservation, rest: seq<AddressObservation>, removed: Ipv4Address,
                       primary: AddressObservation, key: GroupKey, m: nat)
    requires primary.address.prefixLen <= 32 && !Is(first, removed) && !SecondaryOf(first, primary)
    requires removed.Group() == Some(key.group) && PromotedAt(rest, removed, primary, key, m)
    ensures PromotedAt([first] + rest, removed, primary, key, if key.Contains(first.address) then m + 1 else m)
  {
    hide SecondaryOf, Masked, Promoted, Members;
    var before, without, left := [first] + rest, Without(rest, removed), LeftOf(rest, removed, primary, true);
    assert before[0] == first && before[1..] == rest;
    assert Without(before, removed) == [first] + without;
    MembersCons(first, without, key);
    MembersCons(first, left, key);
  }

  lemma PromotedRemoved(first: AddressObservation, rest: seq<AddressObservation>, removed: Ipv4Address,
                        primary: AddressObservation, key: GroupKey, m: nat)
    requires primary.address.prefixLen <= 32 && Is(first, removed) && !SecondaryOf(first, primary)
    requires PromotedAt(rest, removed, primary, key, m)
    ensures PromotedAt([first] + rest, removed, primary, key, m)
  {
    hide SecondaryOf, Masked, Promoted, Members;
    var before, without := [first] + rest, Without(rest, removed);
    assert before[0] == first && before[1..] == rest;
    assert Without(before, removed) == [] + without == without;
  }

  /** With promotion the group keeps its members; the first secondary becomes primary. */
  lemma {:induction false} PromotedMembers(before: seq<AddressObservation>, removed: Ipv4Address,
                                           primary: AddressObservation, key: GroupKey)
    returns (m: nat)
    requires primary.address.prefixLen <= 32 && HasSecondary(before, primary)
    requires removed.Group() == Some(key.group)
    requires forall entry | entry in before && SecondaryOf(entry, primary) ::
               entry.address.Group() == removed.Group() && !Is(entry, removed)
    ensures PromotedAt(before, removed, primary, key, m)
  {
    hide SecondaryOf, Masked, PromotedAt, Is;
    var first, rest := before[0], before[1..];
    assert before == [first] + rest;
    assert first in before && forall entry | entry in rest :: entry in before;
    if !SecondaryOf(first, primary) {
      assert HasSecondary(rest, primary);
      m := PromotedMembers(rest, removed, primary, key);
      if Is(first, removed) {
        PromotedRemoved(first, rest, removed, primary, key, m);
      } else {
        PromotedBehind(first, rest, removed, primary, key, m);
        m := if key.Contains(first.address) then m + 1 else m;
      }
    } else {
      PromotedHead(first, rest, removed, primary, key);
      m := 0;
    }
  }

  lemma PromotionClears(flags: bv32)
    ensures flags & 0xFFFF_FFFE == flags & !IFA_F_SECONDARY
    ensures Part(flags & 0xFFFF_FFFE, 0x01) == 0
  {
  }

  /** When everyone is present nobody is excused. */
  lemma {:induction false} NobodyIsAwaited(diff: StateDiff, index: nat, target: InterfaceId, eligible: seq<bool>,
                                           expected: seq<AddressObservation>, shown: seq<AddressObservation>)
    requires index < |diff.operations| && index < |eligible|
    requires forall entry | entry in expected :: Present(shown, entry.address)
    ensures Awaited(diff, index, target, eligible, expected, shown) == expected
  {
    hide RemovalIsCovered, Present;
    if expected != [] {
      NobodyIsAwaited(diff, index, target, eligible, expected[1..], shown);
    }
  }

  /** A dump in which the first member stands as before promotes nobody. */
  lemma NobodyIsPromoted(expected: seq<AddressObservation>, shown: seq<AddressObservation>)
    requires expected != [] && shown != [] && (Second(shown[0]) <==> Second(expected[0]))
    ensures Promote(expected, shown) == expected
  {
    hide Part;
    SecondaryBit(shown[0]);
    SecondaryBit(expected[0]);
    if !expected[0].Secondary() {
      PrimaryBits(expected[0].flags);
      assert expected == [expected[0]] + expected[1..];
    }
  }

  /** A promoted entry does not match one that is still expected to be secondary. */
  lemma PromotionMismatch(expected: AddressObservation, shown: AddressObservation, elapsed: Duration)
    requires Second(expected) && !Second(shown)
    ensures !AddressMatches(expected, shown, elapsed)
  {
    hide LifetimeMatches, Part, FlagsMatch;
    if FlagsMatch(expected.flags, shown.flags,
                  shown.address.PreferredLifetime() == 0
                    && LifetimeMatches(expected.address.PreferredLifetime(), 0, elapsed)) {
      FlagsMatchMeans(expected.flags, shown.flags, true);
      FlagsMatchMeans(expected.flags, shown.flags,
                      shown.address.PreferredLifetime() == 0
                        && LifetimeMatches(expected.address.PreferredLifetime(), 0, elapsed));
      if expected.flags != shown.flags {
        DeprecationKeepsStanding(expected.flags, shown.flags);
      }
    }
  }

  /** A removal that the executor decided on and the kernel answered to, on a device as it was at the write. */
  ghost predicate Removing(job: Job, index: nat, eligible: seq<bool>, kind: OperationKind, device: DeviceObservation,
                           primary: Option<AddressObservation>)
    requires index < |job.diff.operations| && index < |eligible|
  {
    && kind.RemoveIpv4? && kind.address.prefixLen <= 32
    && UniqueIdentities(device.addresses)
    && device.identity == job.diff.operations[index].target
    && Deletes(device.addresses, kind.address, primary)
    && !CascadeRefused(job.diff, index, device, kind, eligible)
  }

  ghost function TargetKey(job: Job, index: nat, kind: OperationKind): GroupKey
    requires index < |job.diff.operations| && kind.RemoveIpv4? && kind.address.prefixLen <= 32
  {
    GroupKey(job.diff.operations[index].target, kind.address.Group().value)
  }

  /** The members a removal is expected to leave decide the verification. */
  lemma RemovalVerifiesIff(job: Job, index: nat, eligible: seq<bool>, kind: OperationKind, device: DeviceObservation,
                           primary: Option<AddressObservation>, held: seq<AddressObservation>,
                           after: Observation, position: nat)
    requires index < |job.diff.operations| && index < |eligible|
    requires Removing(job, index, eligible, kind, device, primary)
    requires Shows(job, index, after, position, held, device.observedAt)
    requires forall entry | entry in device.addresses && !Is(entry, kind.address)
                            && entry.address.Group() != kind.address.Group() ::
               Present(held, entry.address)
    ensures var key, actual := TargetKey(job, index, kind), after.devices[position];
            var members := Members(actual.addresses, key);
            var expected := Promote(Awaited(job.diff, index, job.diff.operations[index].target, eligible,
                                            Members(Without(device.addresses, kind.address), key), members), members);
            Verify(job, index, eligible, kind, Project(device, kind), after) ==
              if GroupMatches(ExpectedGroup(expected, device.observedAt), members, actual.observedAt)
              then Success(actual) else Failure(StaleState)
  {
    hide GroupMatches, Awaited, Promote, AllLater, Locate, Present, Verify, CascadeRefused, Deletes, OutsideSurvives,
      Masked;
    var predicted, actual := Project(device, kind), after.devices[position];
    SameClock(device, kind);
    VerifyMeans(job, index, eligible, kind, predicted, after, position, held);
    HasGroup(kind.address);
    forall entry | entry in predicted.addresses && !TargetKey(job, index, kind).Contains(entry.address)
      ensures Present(held, entry.address)
    {
      assert !entry.address.SameIdentity(kind.address);
    }
    NothingLost(predicted.addresses, TargetKey(job, index, kind), actual.addresses, held,
                Since(actual.observedAt, device.observedAt));
  }

  lemma HasGroup(address: Ipv4Address)
    requires address.prefixLen <= 32
    ensures address.Group().Some?
  {
  }

  /** Without a promotion, what the kernel leaves after a removal passes verification. */
  lemma KernelCascadeVerifies(job: Job, index: nat, eligible: seq<bool>, kind: OperationKind,
                              device: DeviceObservation, primary: AddressObservation, after: Observation,
                              position: nat)
    requires index < |job.diff.operations| && index < |eligible|
    requires Removing(job, index, eligible, kind, device, Some(primary))
    requires Shows(job, index, after, position, LeftOf(device.addresses, kind.address, primary, false),
                   device.observedAt)
    ensures Verify(job, index, eligible, kind, Project(device, kind), after) == Success(after.devices[position])
  {
    hide GroupMatches, Awaited, Promote, AllLater, Locate, Verify, CascadeRefused, SecondaryOf, Masked, Present,
      Accounted;
    var before, removed, actual := device.addresses, kind.address, after.devices[position];
    var held, key := LeftOf(before, removed, primary, false), TargetKey(job, index, kind);
    UnrefusedIsAccounted(job, index, eligible, device, kind, primary);
    var elapsed := Since(actual.observedAt, device.observedAt);
    MembersLater(held, actual.addresses, elapsed, key);
    var members := Members(actual.addresses, key);
    forall entry | entry in before && !Is(entry, removed)
      ensures Present(held, entry.address) <==> !SecondaryOf(entry, primary)
      ensures key.Contains(entry.address) ==>
                (Present(members, entry.address) <==> !SecondaryOf(entry, primary))
    {
      LeftPresent(before, removed, primary, entry);
      if key.Contains(entry.address) {
        PresentMember(held, key, entry.address);
        PresentLater(Members(held, key), members, elapsed, entry.address);
      }
    }
    AwaitedAfterCascade(job, index, eligible, removed, primary, before, key, members);
    LaterIsUnpromoted(Members(held, key), members, elapsed);
    AllLaterMatch(Members(held, key), members, device.observedAt, actual.observedAt);
    AccountedGroup(job, index, eligible, removed, before, primary);
    RemovalVerifiesIff(job, index, eligible, kind, device, Some(primary), held, after, position);
  }

  lemma AccountedGroup(job: Job, index: nat, eligible: seq<bool>, removed: Ipv4Address,
                       before: seq<AddressObservation>, primary: AddressObservation)
    requires index < |job.diff.operations| && index < |eligible| && primary.address.prefixLen <= 32
    requires Accounted(job, index, eligible, removed, before, primary)
    ensures forall entry | entry in before && SecondaryOf(entry, primary) :: entry.address.Group() == removed.Group()
  {
    hide RemovalIsCovered, SecondaryOf, Masked;
  }

  lemma LeftPresent(before: seq<AddressObservation>, removed: Ipv4Address, primary: AddressObservation,
                    entry: AddressObservation)
    requires primary.address.prefixLen <= 32 && UniqueIdentities(before) && entry in before && !Is(entry, removed)
    ensures Present(LeftOf(before, removed, primary, false), entry.address) <==> !SecondaryOf(entry, primary)
  {
    hide SecondaryOf;
    var held := LeftOf(before, removed, primary, false);
    LeftByCascade(before, removed, primary, entry);
    if other :| other in held && other.address.SameIdentity(entry.address) {
      LeftByCascade(before, removed, primary, other);
      SameEntry(before, other, entry);
    }
  }

  lemma PresentMember(entries: seq<AddressObservation>, key: GroupKey, address: Ipv4Address)
    requires key.Contains(address)
    ensures Present(Members(entries, key), address) <==> Present(entries, address)
  {
  }

  lemma LaterIsUnpromoted(expected: seq<AddressObservation>, shown: seq<AddressObservation>, elapsed: Duration)
    requires AllLater(expected, shown, elapsed)
    ensures Promote(expected, shown) == expected
  {
    hide Later, Part;
    if expected != [] {
      LaterMatches(expected[0], shown[0], elapsed);
      NobodyIsPromoted(expected, shown);
    }
  }

  /** Promotion keeps everyone but the removed address. */
  lemma {:induction false} LeftByPromotion(before: seq<AddressObservation>, removed: Ipv4Address,
                                           primary: AddressObservation, address: Ipv4Address)
    requires primary.address.prefixLen <= 32
    ensures Present(LeftOf(before, removed, primary, true), address) <==> Present(Left(before, removed), address)
  {
    hide SecondaryOf, Is, Promoted;
    if before != [] {
      var first, rest := before[0], before[1..];
      PromotionKeepsAddress(first);
      LeftByPromotion(rest, removed, primary, address);
      if !Is(first, removed) {
        PresentCons(first, LeftOf(rest, removed, primary, true), address);
        PresentCons(first, Left(rest, removed), address);
        PresentCons(Promoted(first), Left(rest, removed), address);
      } else {
        assert [] + Left(rest, removed) == Left(rest, removed);
      }
    }
  }

  lemma PresentCons(first: AddressObservation, rest: seq<AddressObservation>, address: Ipv4Address)
    ensures Present([first] + rest, address) <==> first.address.SameIdentity(address) || Present(rest, address)
  {
    var all := [first] + rest;
    assert all[0] == first && all[1..] == rest;
    if Present(rest, address) {
      var entry :| entry in rest && entry.address.SameIdentity(address);
      assert entry in all;
    }
    if first.address.SameIdentity(address) {
      assert first in all;
    }
  }

  /** A secondary is not the removed primary. */
  lemma SecondaryIsAnother(before: seq<AddressObservation>, removed: Ipv4Address, primary: AddressObservation,
                           entry: AddressObservation)
    requires primary.address.prefixLen <= 32 && UniqueIdentities(before)
    requires Deletes(before, removed, Some(primary)) && entry in before && SecondaryOf(entry, primary)
    ensures !Is(entry, removed)
  {
    hide Part, And, Xor, Mask;
    if Is(entry, removed) {
      SameEntry(before, entry, primary);
    }
  }

  lemma StandingAfterPromotion(entry: AddressObservation)
    ensures !Second(Promoted(entry))
    ensures Promoted(entry) == entry.(flags := entry.flags & !IFA_F_SECONDARY)
  {
    hide Part;
    PromotionClears(entry.flags);
  }

  /** A group whose first secondary was promoted matches exactly if that one comes first. */
  lemma PromotionMatchesIffFirst(predicted: seq<AddressObservation>, shown: seq<AddressObservation>, m: nat,
                                 observedAt: Instant, now: Instant)
    requires m < |predicted| && Second(predicted[m])
    requires AllLater(predicted[m := Promoted(predicted[m])], shown, Since(now, observedAt))
    ensures GroupMatches(ExpectedGroup(Promote(predicted, shown), observedAt), shown, now) <==> m == 0
  {
    hide Later, Promoted, Part, AddressMatches;
    var left, elapsed := predicted[m := Promoted(predicted[m])], Since(now, observedAt);
    StandingAfterPromotion(predicted[m]);
    LaterMatches(left[0], shown[0], elapsed);
    LaterMatches(left[m], shown[m], elapsed);
    if m == 0 {
      SecondaryBit(shown[0]);
      assert Promote(predicted, shown) == left;
      AllLaterMatch(left, shown, observedAt, now);
    } else {
      NobodyIsPromoted(predicted, shown);
      PromotionMismatch(predicted[m], shown[m], elapsed);
    }
  }

  /**
   A kernel that promotes passes verification exactly if the address it promotes
   comes first among those of the group that stay.
   */
  lemma KernelPromotionVerifies(job: Job, index: nat, eligible: seq<bool>, kind: OperationKind,
                                device: DeviceObservation, primary: AddressObservation, after: Observation,
                                position: nat)
    requires index < |job.diff.operations| && index < |eligible|
    requires Removing(job, index, eligible, kind, device, Some(primary)) && HasSecondary(device.addresses, primary)
    requires Shows(job, index, after, position, LeftOf(device.addresses, kind.address, primary, true),
                   device.observedAt)
    ensures Verify(job, index, eligible, kind, Project(device, kind), after)
         == if Leads(device.addresses, kind.address, primary) then Success(after.devices[position])
            else Failure(StaleState)
  {
    hide GroupMatches, Awaited, Promote, AllLater, Locate, Verify, CascadeRefused, SecondaryOf, Masked, Present,
      Accounted, Deletes, UniqueIdentities, HasSecondary, Is, Leads;
    var before, removed, actual := device.addresses, kind.address, after.devices[position];
    PrimaryPrefix(before, removed, primary);
    var held, key := LeftOf(before, removed, primary, true), TargetKey(job, index, kind);
    HasGroup(removed);
    UnrefusedIsAccounted(job, index, eligible, device, kind, primary);
    AccountedGroup(job, index, eligible, removed, before, primary);
    forall entry | entry in before && SecondaryOf(entry, primary) ensures !Is(entry, removed) {
      SecondaryIsAnother(before, removed, primary, entry);
    }
    var m := PromotedMembers(before, removed, primary, key);
    var predicted := Members(Without(before, removed), key);
    SecondaryIsSecond(predicted[m], primary);
    var elapsed := Since(actual.observedAt, device.observedAt);
    MembersLater(held, actual.addresses, elapsed, key);
    var members := Members(actual.addresses, key);
    forall entry | entry in predicted ensures Present(members, entry.address) {
      PromotedPresence(before, removed, primary, entry.address);
      PresentMember(held, key, entry.address);
      PresentLater(Members(held, key), members, elapsed, entry.address);
    }
    NobodyIsAwaited(job.diff, index, job.diff.operations[index].target, eligible, predicted, members);
    PromotionMatchesIffFirst(predicted, members, m, device.observedAt, actual.observedAt);
    forall entry | entry in before && !Is(entry, removed) ensures Present(held, entry.address) {
      StaysWithout(before, removed, entry);
      PromotedPresence(before, removed, primary, entry.address);
    }
    RemovalVerifiesIff(job, index, eligible, kind, device, Some(primary), held, after, position);
  }

  lemma PrimaryPrefix(before: seq<AddressObservation>, removed: Ipv4Address, primary: AddressObservation)
    requires Deletes(before, removed, Some(primary))
    ensures primary.address.prefixLen == removed.prefixLen
  {
  }

  lemma StaysWithout(before: seq<AddressObservation>, removed: Ipv4Address, entry: AddressObservation)
    requires entry in before && !Is(entry, removed)
    ensures entry in Without(before, removed)
  {
  }

  lemma SecondaryIsSecond(entry: AddressObservation, primary: AddressObservation)
    requires primary.address.prefixLen <= 32 && SecondaryOf(entry, primary)
    ensures Second(entry)
  {
  }

  lemma PromotedPresence(before: seq<AddressObservation>, removed: Ipv4Address, primary: AddressObservation,
                         address: Ipv4Address)
    requires primary.address.prefixLen <= 32
    requires exists entry :: entry in Without(before, removed) && entry.address == address
    ensures Present(LeftOf(before, removed, primary, true), address)
  {
    hide SecondaryOf;
    LeftByPromotion(before, removed, primary, address);
    LeftIsWithout(before, removed);
    var entry :| entry in Without(before, removed) && entry.address == address;
    PresentInItself(Without(before, removed), entry);
  }

  /** A removal that takes nothing along passes verification. */
  lemma PlainRemovalVerifies(job: Job, index: nat, eligible: seq<bool>, kind: OperationKind,
                             device: DeviceObservation, primary: Option<AddressObservation>, after: Observation,
                             position: nat)
    requires index < |job.diff.operations| && index < |eligible|
    requires Removing(job, index, eligible, kind, device, primary)
    requires Shows(job, index, after, position, Without(device.addresses, kind.address), device.observedAt)
    ensures Verify(job, index, eligible, kind, Project(device, kind), after) == Success(after.devices[position])
  {
    hide GroupMatches, Awaited, Promote, AllLater, Locate, Verify, CascadeRefused, Masked, Present, Deletes,
      UniqueIdentities;
    var held, key := Without(device.addresses, kind.address), TargetKey(job, index, kind);
    var actual := after.devices[position];
    var elapsed := Since(actual.observedAt, device.observedAt);
    MembersLater(held, actual.addresses, elapsed, key);
    var members := Members(actual.addresses, key);
    forall entry | entry in held ensures Present(held, entry.address) {
      PresentInItself(held, entry);
    }
    forall entry | entry in Members(held, key) ensures Present(members, entry.address) {
      PresentInItself(Members(held, key), entry);
      PresentLater(Members(held, key), members, elapsed, entry.address);
    }
    NobodyIsAwaited(job.diff, index, job.diff.operations[index].target, eligible, Members(held, key), members);
    LaterIsUnpromoted(Members(held, key), members, elapsed);
    AllLaterMatch(Members(held, key), members, device.observedAt, actual.observedAt);
    forall entry | entry in device.addresses && !Is(entry, kind.address) ensures Present(held, entry.address) {
      StaysWithout(device.addresses, kind.address, entry);
    }
    RemovalVerifiesIff(job, index, eligible, kind, device, primary, held, after, position);
  }

  /** The kernel promotes an address that does not come first in what is left of the group. */
  ghost predicate PromotesBehind(before: seq<AddressObservation>, removed: Ipv4Address,
                                 primary: Option<AddressObservation>, promotes: bool)
    requires primary.Some? ==> primary.value.address.prefixLen <= 32
  {
    && promotes
    && primary.Some?
    && HasSecondary(before, primary.value)
    && !Leads(before, removed, primary.value)
  }

  /**
   After a removal that the cascade check let through, verification accepts what
   the kernel leaves, whether it deletes the secondaries or promotes one, unless
   the promoted one comes behind another member of the group.
   */
  lemma KernelRemovalVerifies(job: Job, index: nat, eligible: seq<bool>, kind: OperationKind,
                              device: DeviceObservation, primary: Option<AddressObservation>, promotes: bool,
                              after: Observation, position: nat)
    requires index < |job.diff.operations| && index < |eligible|
    requires Removing(job, index, eligible, kind, device, primary)
    requires Shows(job, index, after, position, KernelRemoval(device.addresses, kind.address, primary, promotes),
                   device.observedAt)
    ensures Verify(job, index, eligible, kind, Project(device, kind), after)
         == if PromotesBehind(device.addresses, kind.address, primary, promotes) then Failure(StaleState)
            else Success(after.devices[position])
  {
    hide Verify, Project, Shows, CascadeRefused, SecondaryOf, Leads, LeftOf, Left, Is, UniqueIdentities;
    var before, removed := device.addresses, kind.address;
    LeftIsWithout(before, removed);
    match primary {
      case None => PlainRemovalVerifies(job, index, eligible, kind, device, primary, after, position);
      case Some(p) =>
        PrimaryPrefix(before, removed, p);
        if !HasSecondary(before, p) {
          forall entry | entry in before ensures !SecondaryOf(entry, p) {
          }
          LeftWithoutSecondaries(before, removed, p, promotes);
          PlainRemovalVerifies(job, index, eligible, kind, device, primary, after, position);
        } else if promotes {
          KernelPromotionVerifies(job, index, eligible, kind, device, p, after, position);
        } else {
          KernelCascadeVerifies(job, index, eligible, kind, device, p, after, position);
        }
    }
  }
}
