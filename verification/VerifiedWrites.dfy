/** What a reported success says about the re-observation (executor.rs). */
module VerifiedWrites {
  import opened Wrappers
  import opened Plan
  import opened Lifetimes
  import opened Executor
  import opened Freshness
  import opened Runs

  // ---------------------------------------------------------------- group members

  /** The preferred lifetime has run out, which lets the kernel set the deprecated flag by itself. */
  ghost predicate Lapsed(before: AddressObservation, after: AddressObservation, elapsed: Duration) {
    after.address.PreferredLifetime() == 0 && LifetimeMatches(before.address.PreferredLifetime(), 0, elapsed)
  }

  function AsPrimary(flags: bv32): bv32 {
    flags & !IFA_F_SECONDARY
  }

  /** Equal flags, or those of a secondary that the kernel promoted. */
  ghost predicate FlagsContinue(before: AddressObservation, after: AddressObservation, elapsed: Duration,
                                promotable: bool) {
    || FlagsMatch(before.flags, after.flags, Lapsed(before, after, elapsed))
    || (&& promotable && before.Secondary() && !after.Secondary()
        && FlagsMatch(AsPrimary(before.flags), after.flags, Lapsed(before, after, elapsed)))
  }

  /** The later entry continues the earlier one: identity, scope, peer, flags and running lifetimes. */
  ghost predicate Continues(before: AddressObservation, after: AddressObservation, elapsed: Duration,
                            promotable: bool) {
    && before.address.SameIdentity(after.address)
    && before.scope == after.scope
    && before.peer == after.peer
    && LifetimeMatches(before.address.ValidLifetime(), after.address.ValidLifetime(), elapsed)
    && LifetimeMatches(before.address.PreferredLifetime(), after.address.PreferredLifetime(), elapsed)
    && FlagsContinue(before, after, elapsed, promotable)
  }

  /** A predicted member may be missing after a removal if it is a secondary whose own removal is still runnable. */
  ghost predicate Excused(job: Job, i: nat, eligible: seq<bool>, kind: OperationKind,
                          entry: AddressObservation, members: seq<AddressObservation>)
    requires i < |job.diff.operations| && i < |eligible|
  {
    && kind.RemoveIpv4? && entry.Secondary()
    && (forall m | m in members :: !m.address.SameIdentity(entry.address))
    && RemovalIsCovered(job.diff, i, job.diff.operations[i].target, entry.address, eligible)
  }

  lemma ExcusedMeans(job: Job, i: nat, eligible: seq<bool>, kind: OperationKind, entry: AddressObservation,
                     members: seq<AddressObservation>)
    requires i < |job.diff.operations| && i < |eligible|
    ensures Excused(job, i, eligible, kind, entry, members)
       <==> kind.RemoveIpv4? && MayBeAbsent(job.diff, i, job.diff.operations[i].target, eligible, entry, members)
  {
    hide RemovalIsCovered;
  }

  /** Only a removal promotes, and only the member that is observed first. */
  ghost predicate Promotable(kind: OperationKind, observed: seq<AddressObservation>, members: seq<AddressObservation>) {
    kind.RemoveIpv4? && |observed| == |members|
  }

  /** The observed members, a suffix of all of them, continue the predicted ones in order, minus excused ones. */
  ghost predicate GroupContinues(job: Job, i: nat, eligible: seq<bool>, kind: OperationKind,
                                 predicted: seq<AddressObservation>, observed: seq<AddressObservation>,
                                 members: seq<AddressObservation>, elapsed: Duration)
    requires i < |job.diff.operations| && i < |eligible|
  {
    if predicted == [] then observed == []
    else
      || (&& observed != []
          && Continues(predicted[0], observed[0], elapsed, Promotable(kind, observed, members))
          && GroupContinues(job, i, eligible, kind, predicted[1..], observed[1..], members, elapsed))
      || (&& Excused(job, i, eligible, kind, predicted[0], members)
          && GroupContinues(job, i, eligible, kind, predicted[1..], observed, members, elapsed))
  }

  lemma {:induction false} PredictedContinue(job: Job, i: nat, eligible: seq<bool>, kind: OperationKind,
                                             predicted: seq<AddressObservation>, observed: seq<AddressObservation>,
                                             members: seq<AddressObservation>, elapsed: Duration)
    requires i < |job.diff.operations| && i < |eligible|
    requires |observed| == |predicted|
    requires forall k | 0 <= k < |observed| :: Continues(predicted[k], observed[k], elapsed, false)
    ensures GroupContinues(job, i, eligible, kind, predicted, observed, members, elapsed)
  {
    hide FlagsMatch, Lapsed, LifetimeMatches, Excused;
    if predicted != [] {
      PredictedContinue(job, i, eligible, kind, predicted[1..], observed[1..], members, elapsed);
      assert Continues(predicted[0], observed[0], elapsed, false);
    }
  }

  lemma {:induction false} AwaitedContinue(job: Job, i: nat, eligible: seq<bool>, kind: OperationKind,
                                           predicted: seq<AddressObservation>, observed: seq<AddressObservation>,
                                           members: seq<AddressObservation>, elapsed: Duration)
    requires i < |job.diff.operations| && i < |eligible| && kind.RemoveIpv4?
    requires var awaited := Awaited(job.diff, i, job.diff.operations[i].target, eligible, predicted, members);
             && |observed| == |awaited|
             && forall k | 0 <= k < |observed| ::
                  Continues(awaited[k], observed[k], elapsed, k == 0 && |observed| == |members|)
    ensures GroupContinues(job, i, eligible, kind, predicted, observed, members, elapsed)
  {
    hide Continues, MayBeAbsent, Excused;
    if predicted != [] {
      ExcusedMeans(job, i, eligible, kind, predicted[0], members);
      var awaited := Awaited(job.diff, i, job.diff.operations[i].target, eligible, predicted, members);
      var rest := Awaited(job.diff, i, job.diff.operations[i].target, eligible, predicted[1..], members);
      if Excused(job, i, eligible, kind, predicted[0], members) {
        assert awaited == rest;
        AwaitedContinue(job, i, eligible, kind, predicted[1..], observed, members, elapsed);
      } else {
        assert awaited == [predicted[0]] + rest;
        forall k | 0 <= k < |rest|
          ensures Continues(rest[k], observed[1..][k], elapsed, k == 0 && |observed[1..]| == |members|)
        {
          assert Continues(awaited[k + 1], observed[k + 1], elapsed, false);
          Unpromoted(rest[k], observed[1..][k], elapsed, k == 0 && |observed[1..]| == |members|);
        }
        AwaitedContinue(job, i, eligible, kind, predicted[1..], observed[1..], members, elapsed);
      }
    }
  }

  /** What continues without a promotion also continues where one is allowed. */
  lemma Unpromoted(before: AddressObservation, after: AddressObservation, elapsed: Duration, promotable: bool)
    requires Continues(before, after, elapsed, false)
    ensures Continues(before, after, elapsed, promotable)
  {
    hide FlagsMatch, Lapsed, LifetimeMatches;
  }

  lemma MatchContinues(expected: AddressObservation, actual: AddressObservation, elapsed: Duration)
    requires AddressMatches(expected, actual, elapsed)
    ensures Continues(expected, actual, elapsed, false)
  {
    hide FlagsMatch, LifetimeMatches;
  }

  /** What matches a primary is none other than a primary. */
  lemma PromotionShows(before: AddressObservation, after: AddressObservation, lapsed: bool)
    requires FlagsMatch(AsPrimary(before.flags), after.flags, lapsed)
    ensures !after.Secondary()
    ensures !before.Secondary() ==> AsPrimary(before.flags) == before.flags
  {
  }

  /** The first member may be compared as a primary. */
  lemma PromotedContinues(expected: AddressObservation, actual: AddressObservation, elapsed: Duration)
    requires AddressMatches(expected.(flags := AsPrimary(expected.flags)), actual, elapsed)
    ensures Continues(expected, actual, elapsed, true)
  {
    hide FlagsMatch, LifetimeMatches, AsPrimary, AddressObservation.Secondary;
    PromotionShows(expected, actual, Lapsed(expected, actual, elapsed));
  }

  lemma MemberContinues(expected: seq<AddressObservation>, members: seq<AddressObservation>, k: nat, elapsed: Duration)
    requires k < |expected| && k < |members|
    requires AddressMatches(Promote(expected, members)[k], members[k], elapsed)
    ensures Continues(expected[k], members[k], elapsed, k == 0)
  {
    hide AddressMatches, Continues;
    if Promote(expected, members)[k] == expected[k] {
      MatchContinues(expected[k], members[k], elapsed);
      Unpromoted(expected[k], members[k], elapsed, k == 0);
    } else {
      PromotedContinues(expected[0], members[0], elapsed);
    }
  }

  /** A verified group is the predicted one, minus the excused members. */
  lemma VerifiedGroupContinues(job: Job, i: nat, eligible: seq<bool>, kind: OperationKind,
                               predicted: seq<AddressObservation>, members: seq<AddressObservation>,
                               observedAt: Instant, now: Instant)
    requires i < |job.diff.operations| && i < |eligible|
    requires GroupMatches(
      ExpectedGroup(ExpectedMembers(job.diff, i, kind, job.diff.operations[i].target, eligible, predicted, members),
                    observedAt),
      members, now)
    ensures GroupContinues(job, i, eligible, kind, predicted, members, members, Since(now, observedAt))
  {
    hide AddressMatches, Continues, MayBeAbsent, Promote;
    var elapsed, target := Since(now, observedAt), job.diff.operations[i].target;
    if kind.RemoveIpv4? {
      var awaited := Awaited(job.diff, i, target, eligible, predicted, members);
      forall k | 0 <= k < |members| ensures Continues(awaited[k], members[k], elapsed, k == 0) {
        MemberContinues(awaited, members, k, elapsed);
      }
      AwaitedContinue(job, i, eligible, kind, predicted, members, members, elapsed);
    } else {
      forall k | 0 <= k < |members| ensures Continues(predicted[k], members[k], elapsed, false) {
        MatchContinues(predicted[k], members[k], elapsed);
      }
      PredictedContinue(job, i, eligible, kind, predicted, members, members, elapsed);
    }
  }

  // ---------------------------------------------------------------- effects of a verified write

  /** Nothing foreign joined: whoever is in the group was predicted to be there. */
  lemma {:induction false} MembersWerePredicted(job: Job, i: nat, eligible: seq<bool>, kind: OperationKind,
                                                predicted: seq<AddressObservation>, observed: seq<AddressObservation>,
                                                members: seq<AddressObservation>, elapsed: Duration,
                                                entry: AddressObservation)
    returns (origin: AddressObservation)
    requires i < |job.diff.operations| && i < |eligible|
    requires GroupContinues(job, i, eligible, kind, predicted, observed, members, elapsed) && entry in observed
    ensures origin in predicted && Continues(origin, entry, elapsed, kind.RemoveIpv4?)
  {
    hide Excused, FlagsMatch, Lapsed, LifetimeMatches;
    if && observed != []
       && Continues(predicted[0], observed[0], elapsed, Promotable(kind, observed, members))
       && GroupContinues(job, i, eligible, kind, predicted[1..], observed[1..], members, elapsed)
    {
      if entry == observed[0] {
        origin := predicted[0];
      } else {
        origin := MembersWerePredicted(job, i, eligible, kind, predicted[1..], observed[1..], members, elapsed, entry);
      }
    } else {
      origin := MembersWerePredicted(job, i, eligible, kind, predicted[1..], observed, members, elapsed, entry);
    }
  }

  /** Nothing but excused members left: whoever was predicted and is not excused is there. */
  lemma {:induction false} PredictedAreMembers(job: Job, i: nat, eligible: seq<bool>, kind: OperationKind,
                                               predicted: seq<AddressObservation>, observed: seq<AddressObservation>,
                                               members: seq<AddressObservation>, elapsed: Duration,
                                               entry: AddressObservation)
    returns (survivor: AddressObservation)
    requires i < |job.diff.operations| && i < |eligible|
    requires GroupContinues(job, i, eligible, kind, predicted, observed, members, elapsed)
    requires entry in predicted && !Excused(job, i, eligible, kind, entry, members)
    ensures survivor in observed && Continues(entry, survivor, elapsed, kind.RemoveIpv4?)
  {
    hide Excused, FlagsMatch, Lapsed, LifetimeMatches;
    if && observed != []
       && Continues(predicted[0], observed[0], elapsed, Promotable(kind, observed, members))
       && GroupContinues(job, i, eligible, kind, predicted[1..], observed[1..], members, elapsed)
    {
      if entry == predicted[0] {
        survivor := observed[0];
      } else {
        survivor := PredictedAreMembers(job, i, eligible, kind, predicted[1..], observed[1..], members, elapsed, entry);
      }
    } else {
      survivor := PredictedAreMembers(job, i, eligible, kind, predicted[1..], observed, members, elapsed, entry);
    }
  }

  ghost predicate EffectShown(kind: OperationKind, device: DeviceObservation, elapsed: Duration)
    requires kind.Addresses()
  {
    if kind.RemoveIpv4? then !Present(device.addresses, kind.address)
    else exists entry | entry in device.addresses ::
      && entry.address.SameIdentity(kind.address)
      && LifetimeMatches(kind.address.ValidLifetime(), entry.address.ValidLifetime(), elapsed)
      && LifetimeMatches(kind.address.PreferredLifetime(), entry.address.PreferredLifetime(), elapsed)
  }

  lemma {:induction false} ReplacementIsThere(addresses: seq<AddressObservation>, address: Ipv4Address)
    returns (entry: AddressObservation)
    requires Present(addresses, address)
    ensures entry in ReplaceFirst(addresses, address) && entry.address == address
  {
    if addresses[0].address.SameIdentity(address) {
      entry := Replaced(addresses[0], address);
    } else {
      entry := ReplacementIsThere(addresses[1..], address);
    }
  }

  lemma {:induction false} ReplacementKeepsIdentities(addresses: seq<AddressObservation>, address: Ipv4Address, k: nat)
    requires k < |addresses|
    ensures ReplaceFirst(addresses, address)[k].address.SameIdentity(addresses[k].address)
  {
    if !addresses[0].address.SameIdentity(address) && k > 0 {
      ReplacementKeepsIdentities(addresses[1..], address, k - 1);
    }
  }

  /** Rebasing keeps identities. */
  lemma RebaseKeepsPresence(device: DeviceObservation, now: Instant, address: Ipv4Address)
    ensures Present(Rebase(device, now).addresses, address) <==> Present(device.addresses, address)
  {
    var rebased := Rebase(device, now).addresses;
    if Present(device.addresses, address) {
      var k :| 0 <= k < |device.addresses| && device.addresses[k].address.SameIdentity(address);
      assert rebased[k] in rebased;
    }
    if Present(rebased, address) {
      var k :| 0 <= k < |rebased| && rebased[k].address.SameIdentity(address);
      assert device.addresses[k] in device.addresses;
    }
  }

  /** The entry a projection leaves for the address of an addition or replacement. */
  lemma ProjectionShowsEffect(device: DeviceObservation, kind: OperationKind) returns (entry: AddressObservation)
    requires kind.AddIpv4? || (kind.ReplaceIpv4? && Present(device.addresses, kind.address))
    ensures entry in Project(device, kind).addresses && entry.address == kind.address
  {
    if kind.AddIpv4? {
      entry := Added(device.addresses, kind.address);
    } else {
      entry := ReplacementIsThere(device.addresses, kind.address);
    }
  }

  /** What a verification establishes. */
  ghost predicate Established(job: Job, i: nat, eligible: seq<bool>, kind: OperationKind,
                              predicted: DeviceObservation, actual: DeviceObservation)
    requires i < |job.diff.operations| && i < |eligible| && kind.Addresses()
  {
    && actual.identity == job.diff.operations[i].target
    && actual.addressesComplete
    && kind.address.Group().Some?
    && var key := GroupKey(job.diff.operations[i].target, kind.address.Group().value);
       var members := Members(actual.addresses, key);
       && GroupContinues(job, i, eligible, kind, Members(predicted.addresses, key), members, members,
                         Since(actual.observedAt, predicted.observedAt))
       && OutsideSurvives(predicted.addresses, key, actual.addresses)
  }

  lemma VerifyEstablishes(job: Job, i: nat, eligible: seq<bool>, kind: OperationKind,
                          predicted: DeviceObservation, after: Observation)
    requires i < |job.diff.operations| && i < |eligible| && kind.Addresses()
    requires Verify(job, i, eligible, kind, predicted, after).Success?
    ensures var actual := Verify(job, i, eligible, kind, predicted, after).value;
            actual in after.devices && Established(job, i, eligible, kind, predicted, actual)
  {
    var actual := Verify(job, i, eligible, kind, predicted, after).value;
    var key := KeyOf(job.diff.operations[i].target, kind.address).value;
    VerifiedGroupContinues(job, i, eligible, kind, Members(predicted.addresses, key), Members(actual.addresses, key),
                           predicted.observedAt, actual.observedAt);
  }

  lemma RemovalIsShown(job: Job, i: nat, eligible: seq<bool>, kind: OperationKind,
                       device: DeviceObservation, actual: DeviceObservation)
    requires i < |job.diff.operations| && i < |eligible| && kind.RemoveIpv4?
    requires Established(job, i, eligible, kind, Project(device, kind), actual)
    ensures !Present(actual.addresses, kind.address)
  {
    if Present(actual.addresses, kind.address) {
      var predicted := Project(device, kind);
      var key := GroupKey(job.diff.operations[i].target, kind.address.Group().value);
      var entry :| entry in actual.addresses && entry.address.SameIdentity(kind.address);
      var members := Members(actual.addresses, key);
      var origin := MembersWerePredicted(job, i, eligible, kind, Members(predicted.addresses, key), members, members,
                                         Since(actual.observedAt, predicted.observedAt), entry);
      assert false;
    }
  }

  lemma AdditionIsShown(job: Job, i: nat, eligible: seq<bool>, kind: OperationKind,
                        device: DeviceObservation, actual: DeviceObservation)
    requires i < |job.diff.operations| && i < |eligible|
    requires kind.AddIpv4? || (kind.ReplaceIpv4? && Present(device.addresses, kind.address))
    requires Established(job, i, eligible, kind, Project(device, kind), actual)
    ensures EffectShown(kind, actual, Since(actual.observedAt, device.observedAt))
  {
    var predicted := Project(device, kind);
    var key := GroupKey(job.diff.operations[i].target, kind.address.Group().value);
    var entry := ProjectionShowsEffect(device, kind);
    var members := Members(actual.addresses, key);
    var survivor := PredictedAreMembers(job, i, eligible, kind, Members(predicted.addresses, key), members, members,
                                        Since(actual.observedAt, predicted.observedAt), entry);
  }

  /** A verified address write shows its effect. */
  lemma VerifiedEffect(job: Job, i: nat, eligible: seq<bool>, kind: OperationKind,
                       device: DeviceObservation, now: Instant, actual: DeviceObservation)
    requires i < |job.diff.operations| && i < |eligible| && kind.Addresses()
    requires kind.ReplaceIpv4? ==> Present(device.addresses, kind.address)
    requires Established(job, i, eligible, kind, Project(Rebase(device, now), kind), actual)
    ensures EffectShown(kind, actual, Since(actual.observedAt, now))
  {
    if kind.RemoveIpv4? {
      RemovalIsShown(job, i, eligible, kind, Rebase(device, now), actual);
    } else {
      RebaseKeepsPresence(device, now, kind.address);
      AdditionIsShown(job, i, eligible, kind, Rebase(device, now), actual);
    }
  }

  /** Addresses outside the written group are still there. */
  lemma VerifiedOutside(job: Job, i: nat, eligible: seq<bool>, kind: OperationKind,
                        device: DeviceObservation, now: Instant, actual: DeviceObservation, k: nat)
    requires i < |job.diff.operations| && i < |eligible| && kind.Addresses() && k < |device.addresses|
    requires Established(job, i, eligible, kind, Project(Rebase(device, now), kind), actual)
    requires device.addresses[k].address.Group() != kind.address.Group()
    ensures Present(actual.addresses, device.addresses[k].address)
  {
    var rebased := Rebase(device, now);
    var predicted := Project(rebased, kind);
    var kept := rebased.addresses[k];
    if kind.ReplaceIpv4? {
      ReplacementKeepsIdentities(rebased.addresses, kind.address, k);
      kept := predicted.addresses[k];
    }
    assert rebased.addresses[k] in rebased.addresses;
    assert kept in predicted.addresses;
    assert Present(actual.addresses, kept.address);
  }

  // ---------------------------------------------------------------- reported successes

  /** The last events of an operation that succeeded, and what they were decided on. */
  ghost predicate WroteAndVerified(job: Job, i: nat, eligible: seq<bool>, log: Log,
                                   device: DeviceObservation, kind: OperationKind, w: nat, now: Instant)
    requires i < |job.diff.operations| && i < |eligible|
  {
    var target := job.diff.operations[i].target;
    && w + 2 <= |log|
    && log[w] == Wrote(i, target, kind, None)
    && log[w + 1] == Timed(now)
    && Latest(log[..w]).Some? && device in Latest(log[..w]).value.devices && device.identity == target
    && (kind.ReplaceIpv4? ==> Present(device.addresses, kind.address))
    && (if !kind.Addresses() then |log| == w + 2
        else
          && |log| == w + 3
          && log[w + 2].Observed? && log[w + 2].answer.Success?
          && Verify(job, i, eligible, kind, Project(Rebase(device, now), kind), log[w + 2].answer.value).Success?)
  }

  lemma ConfirmedWrite(job: Job, p: Progress, eligible: seq<bool>, i: nat, kind: OperationKind,
                       predicted: DeviceObservation)
    requires i < |job.diff.operations| && i < |eligible|
    requires Confirm(job, p, eligible, i, kind, predicted).0.Succeeded?
    ensures var log := Confirm(job, p, eligible, i, kind, predicted).1.log;
            if !kind.Addresses() then log == p.log
            else
              && |log| == |p.log| + 1 && p.log <= log
              && log[|p.log|].Observed? && log[|p.log|].answer.Success?
              && Verify(job, i, eligible, kind, predicted, log[|p.log|].answer.value).Success?
  {
    hide Verify;
  }

  lemma SucceededWrite(job: Job, p: Progress, eligible: seq<bool>, i: nat, observation: Observation, position: nat,
                       kind: OperationKind)
    returns (w: nat, now: Instant)
    requires i < |job.diff.operations| && i < |eligible| && position < |observation.devices|
    requires Latest(p.log) == Some(observation)
    requires observation.devices[position].identity == job.diff.operations[i].target
    requires kind.ReplaceIpv4? ==> Present(observation.devices[position].addresses, kind.address)
    requires ApplyWrite(job, p, eligible, i, observation.devices[position], kind).0.Succeeded?
    ensures WroteAndVerified(job, i, eligible,
                             ApplyWrite(job, p, eligible, i, observation.devices[position], kind).1.log,
                             observation.devices[position], kind, w, now)
  {
    hide Verify, Project, Rebase, Advance;
    var polled := Poll(job, p).1;
    LatestAfter(p.log, polled.log[|p.log|]);
    w := |polled.log|;
    var written := SubmitWrite(job, polled, i, kind).1;
    now := ReadClock(job, written).0;
    var timed := ReadClock(job, written).1;
    var predicted := Project(Rebase(observation.devices[position], now), kind);
    ConfirmedWrite(job, timed, eligible, i, kind, predicted);
    var log := Confirm(job, timed, eligible, i, kind, predicted).1.log;
    assert timed.log <= log;
    assert log[..w] == polled.log;
  }

  lemma SatisfiedNeedsPresence(job: Job, i: nat, eligible: seq<bool>, groups: Groups, observation: Observation,
                               decoded: Option<OperationKind>)
    requires i < |job.diff.operations| && i < |eligible|
    requires Decide(job, i, eligible, groups, observation, decoded).0.Proceed?
    ensures var decision := Decide(job, i, eligible, groups, observation, decoded).0;
            var device := observation.devices[decision.position];
            && device.identity == job.diff.operations[i].target
            && (decision.kind.ReplaceIpv4? ==> Present(device.addresses, decision.kind.address))
            && (decision.kind.AddIpv4? ==> !Present(device.addresses, decision.kind.address))
  {
    hide GroupMatches, CascadeRefused, LifetimesEqual;
  }

  lemma AttemptSucceeded(job: Job, p: Progress, eligible: seq<bool>, i: nat)
    returns (device: DeviceObservation, kind: OperationKind, w: nat, now: Instant)
    requires i < |job.diff.operations| == |eligible|
    requires !job.preview && Cached(p)
    requires Attempt(job, p, eligible, i).0.Succeeded?
    ensures Decode(job.diff.operations[i].kind, job.schema) == Success(Some(kind))
    ensures WroteAndVerified(job, i, eligible, Attempt(job, p, eligible, i).1.log, device, kind, w, now)
  {
    hide ApplyWrite, Decide, WroteAndVerified, Decode, PreviewWrite;
    var (cancelled, polled) := Poll(job, p);
    LatestAfter(p.log, Polled(cancelled));
    var decoded := Decode(job.diff.operations[i].kind, job.schema).value;
    var (answer, observed) := Observe(job, polled);
    LatestAfter(polled.log, Observed(answer));
    var observation := answer.value;
    var (decision, groups) := Decide(job, i, eligible, observed.groups, observation, decoded);
    ProceedsWithDecoded(job, i, eligible, observed.groups, observation, decoded);
    SatisfiedNeedsPresence(job, i, eligible, observed.groups, observation, decoded);
    kind := decision.kind;
    device := observation.devices[decision.position];
    w, now := SucceededWrite(job, observed.(groups := groups), eligible, i, observation, decision.position, kind);
  }

  /**
   Verified success: an address operation reported as succeeded was written once,
   acknowledged, and re-observed; the re-observation shows its effect, its group
   is the predicted one in order minus only excused secondaries, and every
   address outside the group is still there.
   */
  lemma SuccessIsVerified(job: Job, i: nat)
    returns (device: DeviceObservation, kind: OperationKind, now: Instant, actual: DeviceObservation)
    requires i < |job.diff.operations| && !job.preview
    requires Run(job).verdicts[i].Succeeded? && job.diff.operations[i].kind.Addresses()
    ensures var log := RunTo(job, i + 1).progress.log;
            var n := |log| - 3;
            && n >= 0
            && kind == job.diff.operations[i].kind
            && log[n] == Wrote(i, job.diff.operations[i].target, kind, None)
            && log[n + 1] == Timed(now)
            && log[n + 2].Observed? && log[n + 2].answer.Success?
            && Latest(log[..n]).Some?
            && device in Latest(log[..n]).value.devices
            && actual in log[n + 2].answer.value.devices
            && device.identity == actual.identity == job.diff.operations[i].target
            && Established(job, i, EligibleAfter(job.diff, RunTo(job, i).verdicts), kind,
                           Project(Rebase(device, now), kind), actual)
            && EffectShown(kind, actual, Since(actual.observedAt, now))
            && forall k | 0 <= k < |device.addresses| && device.addresses[k].address.Group() != kind.address.Group() ::
                 Present(actual.addresses, device.addresses[k].address)
  {
    hide Attempt, Established, EffectShown, Verify, Present;
    var before := RunTo(job, i);
    var eligible := EligibleAfter(job.diff, before.verdicts);
    VerdictsGrow(job, i + 1, |job.diff.operations|);
    RunIsCached(job, i);
    var w: nat;
    device, kind, w, now := AttemptSucceeded(job, before.progress, eligible, i);
    DecodedKindsAreValid(job.diff.operations[i].kind, kind, job.schema);
    var predicted, after := Project(Rebase(device, now), kind), RunTo(job, i + 1).progress.log[w + 2].answer.value;
    VerifyEstablishes(job, i, eligible, kind, predicted, after);
    actual := Verify(job, i, eligible, kind, predicted, after).value;
    EstablishedTarget(job, i, eligible, kind, predicted, actual);
    VerifiedEffect(job, i, eligible, kind, device, now, actual);
    forall k | 0 <= k < |device.addresses| && device.addresses[k].address.Group() != kind.address.Group()
      ensures Present(actual.addresses, device.addresses[k].address)
    {
      VerifiedOutside(job, i, eligible, kind, device, now, actual, k);
    }
  }

  lemma EstablishedTarget(job: Job, i: nat, eligible: seq<bool>, kind: OperationKind,
                          predicted: DeviceObservation, actual: DeviceObservation)
    requires i < |job.diff.operations| && i < |eligible| && kind.Addresses()
    requires Established(job, i, eligible, kind, predicted, actual)
    ensures actual.identity == job.diff.operations[i].target
  {
    hide GroupContinues, OutsideSurvives;
  }
}
