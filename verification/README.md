# netfyr: a verified model of plan execution, identity, schema and policy logic

netfyr carries out explicit, ordered plans of network changes against a kernel
that it can only watch through dumps. This project models the logic that makes
this safe and proves what it promises, for every plan, every run, every
interleaving, every schema and every document. `dafny verify dfyconfig.toml`
checks all of it.

- **Plan execution.** `Executor` defines one run over an environment that answers
  inventories, writes, clock readings and cancellation polls in any way at all, and
  records every exchange in a log. `Execution` holds the same executor as a class that
  updates its cached observation, group snapshots and eligibility vector in place; its
  methods are proved equal to the definitions. `Runs`, `Refusals`, `Freshness`,
  `Authority`, `CascadeSafety`, `VerifiedWrites`, `PreviewRefinement` and `Reports`
  prove the laws of whole runs. `PrefixGroups`, `Projection` and `Lifetimes` hold the
  address arithmetic. `Assignments` says what every operation is decoded to, `Decisions`
  what is decided from an observation, and `Traces` what each operation asks of the
  outside world and which verdict follows. `KernelWrites` describes the kernel's own
  rules for adding, replacing and removing addresses and shows that the executor
  projects just that; `KernelVerification` and `KernelRuns` show that what the kernel
  did passes verification.
- **Interface identity.** `Identity` is the transport's token table and notification
  handling; `IdentityProtocol` interleaves kernel, socket and transport as steps over
  one queue and carries one invariant through all of them; `IdentityLimits` shows which
  tokens no inventory vouches for. `ConfirmedNames` says when a confirmation succeeds
  and which link answered it, `InventoryReturns` when an inventory returns its links.
  `ConfirmedWrites` follows writes to the links they reach, `WriteLimits` shows one that
  misses, and `VerifiedIncarnations` joins the protocol to the executor's verified
  successes.
- **Schemas and states.** `Schemas` holds the dialect, the registry and the embedded
  fragments; `Validation` the validator as a growing error list, and `Conformance` what
  it decides; `ValidationReport` lists what it reports, in order, and `NetworkTexts` and
  `EmbeddedSchema` say in words what text is a network and which states the embedded
  fragments accept. `Stripper`, `Preparation` and `PreparationLaws` turn query results
  into policies; `Places`, `RemovalPlaces` and `PreparedStates` say place by place what
  is removed and what a prepared state is, `RemovalOrder` in which order.
  `SchemaExtension`, `FlatLookups`, `LookupClaims` and `SchemaRegistries` extend
  registries; `Additions` says when an addition is refused and what tree it leaves.
  `Yaml`, `YamlLaws` and `StateTrees` print and parse states; `YamlReading` and
  `StateReading` say which trees parse, to what, and with which error.
  `PreparationLimits` and `LookupLimits` hold registries that a program can build and at
  which an unrestricted claim fails.
- **Policies.** `Providers` composes the registry with the provider schemas,
  `Production` and `Policies` split policies, `ProductionLaws` says what the split
  conserves. `ComposedSchema` says which policies are valid, `ProducedParts` what each
  is split into.
- **Backends.** `Registry` merges what several backends report, `Queries` says what a
  query answers; `Routing` registers backends and resolves plans.
- **Tools.** `Latest`, `Subsequences` and `Listings` state what ordered maps, filters
  and ordered lists of findings contain.

Where a plain claim is false, the exact condition is proved instead:

- Rebasing lifetimes in two steps equals one step exactly when the whole seconds
  of the two steps add up, that is, no sub-second part carries or every finite
  lifetime has run out (`Projection.RebaseComposesIffNoCarry`).
- Preparation passes its second validation exactly for clean states
  (`PreparationLaws.PreparationExact`): removal must not take a required field and
  does not enter arrays inside arrays. Each of the two does fail on a registry built
  by one addition (`PreparationLimits.RequiredReadOnlyFieldSpoils`,
  `PreparationLimits.NestedArraySpoils`); without them preparation succeeds on every
  registry a program can build (`SchemaRegistries.BuiltRegistriesPrepare`).
  `PreparationLaws.PreparationSucceeds` speaks of arbitrary registries and so asks
  besides that the base not require the match field; no sequence of additions makes it.
- Adding a node keeps an answered lookup exactly when a later claim stands or the
  addition says nothing else about the path (`LookupClaims.LookupKeptExactly`,
  `SchemaRegistries.CallsKeepLookupsExactly`, on every tree). Added names without
  dots and items only on arrays are enough; with a property named `b.c` under `a`,
  adding `a.b.c` changes an answer (`LookupLimits.DottedNamesCollide`).
- A query result without a device type gains one on re-parsing when a fragment
  implies it, and a non-negative signed integer re-parses as an unsigned one;
  both appear in the exact conditions of `StateTrees`.
- A failed report equals an all-failing run exactly when every dependency points
  backwards (`Reports.FailedReportIsAllFailing`).
- The look-ahead equals the final eligibility exactly when no later attempt fails
  (`Runs.LookaheadIsExactIffNothingFails`); it always covers it
  (`Runs.LookaheadCoversEligible`).
- Stored tokens need not name a live link: an inventory that a deletion overtakes
  between its two dumps fails and leaves the token it drew for the link that is gone
  (`IdentityLimits.FailedInventoriesLeaveTokens`). Only such inventories do
  (`IdentityLimits.StaleTokensComeFromDoomedInventories`), and they return nothing,
  so the token laws speak of what successful inventories returned.
- Nothing looks at the token between a confirmation and its write, so a link that is
  replaced in between receives the write (`WriteLimits.ConfirmedWritesCanMiss`). A
  write reaches the confirmed incarnation exactly when that is alive at the moment
  (`ConfirmedWrites.WritesReachTheLiving`); one that missed leaves a token that no
  later inventory returns (`ConfirmedWrites.ReturnedTokensWereReached`).

- Verification accepts a kernel that promotes a secondary of the removed primary exactly
  when the promoted address comes first among what is left of the group; behind another
  member a removal that worked is reported as `StaleState`
  (`KernelVerification.KernelPromotionVerifies`, `KernelVerification.KernelRemovalVerifies`).
- A prediction rebased to a later clock matches every later dump of the same countdown
  exactly when the delay of its sample and the part of a second that rebasing drops make
  up no more than one second, or every finite lifetime has as good as run out
  (`KernelRuns.RebaseIsToleratedIff`).

Assumed of the environment: fresh tokens are distinct, a dump is one snapshot,
and the deletion epoch does not wrap around within one inventory. Cascade safety
takes it that a link reported with complete addresses lists each identity once: the
transport marks a link whose dump repeats one as incomplete
(crates/netfyr-backend/src/linux.rs:506-519). Preview and
apply are compared on kernels whose writes do exactly what is projected, with a
frozen clock and truthful inventories (`PreviewRefinement.Ideal`).

## Model

| member | source | states |
|---|---|---|
| `PrefixGroups.MaskedIsRoundedDown` | crates/netfyr-state/src/plan.rs:90-98 | masking rounds an address down to a multiple of 2^(32-p), for every prefix 0 to 32 including the shift by 32 |
| `PrefixGroups.SameGroupIffSameQuotient` | crates/netfyr-state/src/plan.rs:39-41 | two addresses share a group iff their prefixes match and their quotients by 2^(32-p) are equal |
| `PrefixGroups.MaskingIsIdempotent` | crates/netfyr-state/src/plan.rs:90-98 | masking a network again yields the same network and group |
| `PrefixGroups.KernelXorRule` | crates/netfyr-backend/src/executor/tests.rs:49-60 | the kernel's xor-and-mask test decides exactly group equality |
| `Projection.ProjectedSecondaryIsKernelSecondary` | crates/netfyr-backend/src/executor.rs:525-572 | an added address is projected as secondary exactly when the kernel's xor-and-mask rule puts some present address, secondary or not, in its group |
| `Projection.GuardedProjectionKeepsUnique` | crates/netfyr-backend/src/executor.rs:388-451 | every projection that the satisfied test lets through keeps address identities unique |
| `Projection.DecayAdds` | crates/netfyr-backend/src/executor.rs:240-246 | decay composes additively for every two spans, saturating sums and forever included |
| `Projection.RebaseComposesIffNoCarry` | crates/netfyr-backend/src/executor.rs:574-585 | rebasing in two steps equals one step for all devices exactly when the whole seconds add up: for instants in order, when no sub-second part carries or every finite lifetime has run out |
| `KernelWrites.FlagsMatchMeans` | crates/netfyr-backend/src/executor.rs:260-276 | flags match iff they are equal or differ in the deprecated bit alone, in a deprecation that is due |
| `KernelWrites.KernelAddsTheProjection` | crates/netfyr-backend/src/executor/tests.rs:121-130 | for every list: the kernel adds the address (last, without peer, in the scope of its kind, permanent iff unlimited, deprecated iff not preferred, secondary by the xor-and-mask rule, no other flag) iff it leaves the projected list, up to how lifetimes are written |
| `KernelWrites.KernelReplacesTheProjection` | crates/netfyr-backend/src/executor/tests.rs:157-169 | the kernel renews the entry in its place (lifetimes, and the two flags that follow from them) iff it leaves the projected list |
| `KernelWrites.KernelRemovesTheProjection` | crates/netfyr-backend/src/executor/tests.rs:131-156 | a removal that takes no secondary along leaves the projected list |
| `KernelVerification.KernelWriteVerifies` | crates/netfyr-backend/src/executor.rs:717-789 | whatever the kernel adds or replaces by its own rules, counted down until the dump, passes verification |
| `KernelVerification.KernelCascadeVerifies` | crates/netfyr-backend/src/executor.rs:717-789 | a removal that was let through and that deletes the secondaries passes verification |
| `KernelVerification.KernelPromotionVerifies` | crates/netfyr-backend/src/executor.rs:717-789 | a removal that promotes a secondary passes iff the promoted one comes first of what is left of the group |
| `KernelVerification.KernelRemovalVerifies` | crates/netfyr-backend/src/executor.rs:717-789 | for every removal that was let through: verification accepts what the kernel leaves, except exactly a promotion behind another member |
| `KernelRuns.DecayIsTheCountdown` | crates/netfyr-backend/src/executor.rs:240-246 | whole seconds of decay are the kernel's own countdown that much later |
| `KernelRuns.RebaseIsToleratedIff` | crates/netfyr-backend/src/executor.rs:574-585 | a rebased lifetime matches every later dump of its countdown iff sample delay and dropped part of a second together are at most a second, or all finite lifetimes have as good as run out |
| `KernelRuns.RebaseAges` | crates/netfyr-backend/src/executor.rs:574-585 | rebasing decays both lifetimes, deprecates what has lapsed, and keeps everything else |
| `KernelRuns.RefusalAges` | crates/netfyr-backend/src/executor.rs:483-514 | a removal that was let through is still let through on the rebased device |
| `KernelRuns.KernelWritesSucceed` | crates/netfyr-backend/src/executor.rs:686-715 | a decided and acknowledged address write on a kernel that follows its rules is reported as a success, except exactly a promotion behind another member |
| `KernelRuns.IdealKernelIsTheKernel` | crates/netfyr-backend/src/executor.rs:525-572 | the kernel that previews are compared with follows these rules as long as no secondary is at stake |
| `Lifetimes.CountdownMatches` | crates/netfyr-backend/src/executor.rs:248-258 | a lifetime counted down in whole seconds, sampled up to a second before each observation, always matches, also at zero |
| `Lifetimes.MatchIffExplained` | crates/netfyr-backend/src/executor.rs:248-258 | a finite match means that some such countdown explains it, but for one extra second right after the first reading |
| `Lifetimes.MatchedExpiriesAreClose` | crates/netfyr-backend/src/executor.rs:248-258 | matching finite lifetimes expire less than two seconds apart |
| `Lifetimes.ForeverMatchesOnlyForever` | crates/netfyr-backend/src/executor.rs:248-258 | an unlimited lifetime matches only itself |
| `Runs.RunIsPossible` | crates/netfyr-backend/src/executor.rs:811-848 | in every run a forward dependency fails its operation, an ineligible one skips it with exactly those blockers, and a step itself never reports a dependency skip |
| `Runs.EligibilityIsClosed` | crates/netfyr-backend/src/executor.rs:811-848 | whatever an eligible operation depends on comes before it and is eligible |
| `Runs.EligibilityIsTransitive` | crates/netfyr-backend/src/executor.rs:811-848 | eligibility is closed along every dependency path |
| `Runs.ListedBlockers` | crates/netfyr-backend/src/executor.rs:811-830 | a dependency skip lists exactly its ineligible dependencies and at least one |
| `Runs.SkipsAreBlamedOnFailures` | crates/netfyr-backend/src/executor.rs:811-848 | from every skip a chain of listed blockers leads to a failed operation |
| `Runs.LookaheadCoversEligible` | crates/netfyr-backend/src/executor.rs:453-479 | every later operation that ends up eligible was predicted runnable |
| `Runs.LookaheadIsExactIffNothingFails` | crates/netfyr-backend/src/executor.rs:453-479 | at a success, predicted runnable and finally eligible coincide at every position iff no later attempt fails |
| `Refusals.CoveredIffRemovable` | crates/netfyr-backend/src/executor.rs:453-479 | an address counts as covered iff some continuation of the run, in which the current operation succeeds, goes on to remove it from the target |
| `Refusals.RefusalIsExact` | crates/netfyr-backend/src/executor.rs:453-514 | a removal is refused iff it removes a primary with a secondary that is outside the removed address's group or that no such continuation removes, where a primary is the first entry of the identity without the secondary flag |
| `Refusals.RunsAttempt` | crates/netfyr-backend/src/executor.rs:811-848 | in a run exactly the operations that are neither malformed nor skipped for a dependency reach the point where these conditions apply |
| `Decisions.LocateMeans` | crates/netfyr-backend/src/executor.rs:190-234 | the three errors of locating a target and the success, each with its condition |
| `Decisions.AdmissionMeans` | crates/netfyr-backend/src/executor.rs:329-386 | which operations a prefix group lets through: the errors, each with its condition, and the snapshots afterwards; the first guard stays |
| `Decisions.UnguardedAdditionIsAdmitted` | crates/netfyr-backend/src/executor.rs:363-384 | an addition to a group that nobody described is let through, whatever the group holds |
| `Decisions.GroupMatchesMeans` | crates/netfyr-backend/src/executor.rs:260-325 | a snapshot still holds iff the device shows its members, no others, in order, each the same up to what has run down |
| `Decisions.SatisfiedMeans` | crates/netfyr-backend/src/executor.rs:388-451 | what counts as done for each operation, and the two errors |
| `Decisions.WritesWhenAllHolds` | crates/netfyr-backend/src/executor.rs:652-690 | an operation is decided to be written iff the target is there, its group is as planned, it is not done, and no secondary is endangered |
| `Traces.DecisionMeans` | crates/netfyr-backend/src/executor.rs:652-690 | every refusal and every skip with its condition: the first thing wrong, from the target inwards |
| `Traces.VerificationMeans` | crates/netfyr-backend/src/executor.rs:717-789 | the errors of a verification, each with its condition, and the success |
| `Traces.RunsFollowTheirCourses` | crates/netfyr-backend/src/executor.rs:640-850 | for every operation of every run: exactly what is asked of the outside world, in which order, which verdict each course of answers gives, and what stays cached |
| `Traces.EligibleMeans` | crates/netfyr-backend/src/executor.rs:811-848 | an operation unblocks its dependents iff it succeeded, was done already, or was read-only |
| `Freshness.WritesAreJustified` | crates/netfyr-backend/src/executor.rs:652-715 | every write of every run belongs to its operation's own attempt and passed all checks on the latest inventory |
| `Freshness.WritesAreFresh` | crates/netfyr-backend/src/executor.rs:640-690 | every write was decided on a successful inventory with no write in between, which shows the exact target as an ethernet device of the namespace, with a schema-valid kind |
| `Freshness.DecodedKindsAreValid` | crates/netfyr-backend/src/executor.rs:112-188 | decoding yields writes that the schema allows and never turns into or out of an address operation; the values written are those of `Assignments` |
| `Assignments.EmbeddedAssignments` | crates/netfyr-backend/src/executor.rs:112-188 | with the embedded schema, for every field name and value: `mtu` with 68 to 65535 and `enabled` with a flag decode to the write of exactly that value, the reported fields of `base` and `ethernet` are read-only under either name, everything else is refused |
| `Assignments.PlainAssignment` | crates/netfyr-backend/src/executor.rs:117-152 | under any schema, what an undotted assignment decodes to, by writability, name, shape and range |
| `Assignments.DottedAssignment` | crates/netfyr-backend/src/executor.rs:117-152 | a dotted name is looked up below its first part and is never assigned |
| `Assignments.OperationDecodes` | crates/netfyr-backend/src/executor.rs:154-188 | every other operation is left as it is or refused, by prefix length and lifetimes |
| `Assignments.SettersAreAssignments` | crates/netfyr-backend/src/executor.rs:112-188 | setting the MTU or the flag directly decodes as the assignment of that field does |
| `Assignments.AssignmentIsSatisfied` | crates/netfyr-backend/src/executor.rs:393-398 | a decoded assignment counts as done exactly when the device's field has the assigned value |
| `Assignments.WritesCarryOutTheirOperation` | crates/netfyr-backend/src/executor.rs:652-715 | every write of every run carries out its own operation: an assignment gives its field the value and changes no other, and any other operation is written as it stands |
| `Freshness.PreviewNeverWrites` | crates/netfyr-backend/src/executor.rs:652-690 | a preview submits no write at all |
| `Freshness.WritesFollowAPoll` | crates/netfyr-backend/src/executor.rs:811-848 | the exchange immediately before each write is a cancellation poll that was answered no |
| `Freshness.CancellationIsFinal` | crates/netfyr-backend/src/executor.rs:811-848 | once cancellation stays requested nothing further is written and no further operation succeeds |
| `Authority.SnapshotsAreTraced` | crates/netfyr-backend/src/executor.rs:329-386 | at any point the stored snapshots are exactly the first precondition of each group, advanced by the executor's own successful writes |
| `Authority.FirstGuardIsFirst` | crates/netfyr-backend/src/executor.rs:329-386 | the first precondition shown for a group wins; later ones never replace it |
| `Authority.LastOwnWriteIsLast` | crates/netfyr-backend/src/executor.rs:700-713 | a snapshot follows the latest successful write to its group |
| `Authority.AttemptGroups` | crates/netfyr-backend/src/executor.rs:700-713 | one attempt changes snapshots only by adopting its own precondition and advancing its own group |
| `Authority.DestructionIsAuthorised` | crates/netfyr-backend/src/executor.rs:329-386 | every removal or replacement sent to the kernel names a present address whose group traces to a precondition of this or an earlier operation and still matches it |
| `CascadeSafety.LossIsNamed` | crates/netfyr-backend/src/executor.rs:483-514 | one step of a run loses no address that the plan does not name for removal on that target, though deleting a primary may take its secondaries |
| `CascadeSafety.LostAddressesAreNamed` | crates/netfyr-backend/src/executor.rs:453-514 | over any part of any run, with failing writes and verifications, every lost address is named by a removal for that target |
| `VerifiedWrites.VerifiedGroupContinues` | crates/netfyr-backend/src/executor.rs:717-789 | a verified group is the predicted one in order, with matching lifetimes and all flags equal up to a due deprecation, minus only secondaries whose own removal was still runnable; a secondary may turn primary only first in the group and only after a removal |
| `VerifiedWrites.VerifiedEffect` | crates/netfyr-backend/src/executor.rs:717-789 | verification implies the effect: present with matching lifetimes, or absent |
| `VerifiedWrites.VerifiedOutside` | crates/netfyr-backend/src/executor.rs:717-789 | verification implies that every address outside the group survives by identity |
| `VerifiedWrites.SuccessIsVerified` | crates/netfyr-backend/src/executor.rs:652-789 | an address operation reported as succeeded was written, re-observed, and showed its effect, its group with flags and lifetimes, and its surroundings as predicted |
| `PreviewRefinement.DecisionsResolve` | crates/netfyr-backend/src/executor.rs:652-715 | decisions do not depend on whether unlimited lifetimes are written out |
| `PreviewRefinement.PredictionVerifies` | crates/netfyr-backend/src/executor.rs:717-789 | a kernel that did what was projected passes verification |
| `PreviewRefinement.PreviewRefinesApply` | crates/netfyr-backend/src/executor.rs:525-851 | preview and apply give every operation the same verdict and the projected observation is the kernel's final state up to written-out lifetimes |
| `Reports.ListsAreAscending` | crates/netfyr-backend/src/executor.rs:811-850 | the three lists are each in ascending plan order |
| `Reports.VerdictsAreListed` | crates/netfyr-backend/src/executor.rs:811-850 | every operation is in exactly the list of its verdict, once, with its context |
| `Reports.SuccessMeansAllUnblocked` | crates/netfyr-backend/src/report.rs:136-188 | a report is a success iff every operation is eligible |
| `Reports.PreviewReportIsInPlanOrder` | crates/netfyr-backend/src/executor.rs:72-96 | the preview report lists operations 0 to n-1 in order with their verdicts and the same success |
| `Reports.FailedReportIsAllFailing` | crates/netfyr-backend/src/executor.rs:48-70 | the report of a plan that never ran equals that of a run whose every step fails iff all dependencies point backwards |
| `Execution.RebaseLifetimes` | crates/netfyr-backend/src/executor.rs:574-585 | the loop over a device's addresses computes the rebased device |
| `Execution.Execution.Observe` | crates/netfyr-backend/src/executor.rs:640-650 | the cached observation answers, or a new inventory is taken and cached |
| `Execution.Execution.ValidateGroup` | crates/netfyr-backend/src/executor.rs:329-386 | the updated snapshots and the refusal are the defined ones |
| `Execution.Execution.RemovalIsCovered` | crates/netfyr-backend/src/executor.rs:453-479 | the loop that fills the runnable vector decides coverage by it |
| `Execution.Execution.CheckCascade` | crates/netfyr-backend/src/executor.rs:483-514 | a removal is refused iff some exposed secondary is outside the local group or not covered |
| `Execution.Execution.VerifyAddressWrite` | crates/netfyr-backend/src/executor.rs:717-789 | re-observation, comparison and the new cached observation are the defined ones |
| `Execution.Execution.Apply` | crates/netfyr-backend/src/executor.rs:686-715 | poll, write, clock, verification and snapshot happen in this order and stop at the first failure; what is predicted is what the kernel does (`KernelWrites`), and each course of answers has its verdict (`Traces`) |
| `Execution.Execution.Step` | crates/netfyr-backend/src/executor.rs:652-715 | one step leaves exactly the defined verdict, log, cache and snapshots; what is written is what the operation asks for (`Assignments`), and when is exact (`Decisions`) |
| `Execution.Execution.Attempt` | crates/netfyr-backend/src/executor.rs:811-848 | malformed, blocked and cancelled operations get their verdict without a step |
| `Execution.Execution.Run` | crates/netfyr-backend/src/executor.rs:792-850 | the loop over the plan realises the defined run, its report and its eligibility vector |
| `Execution.ApplyPlan` | crates/netfyr-backend/src/executor.rs:98-104 | applying a plan logs and reports exactly the defined run |
| `Execution.PreviewPlan` | crates/netfyr-backend/src/executor.rs:106-110 | previewing reports every operation in plan order with its verdict |
| `Execution.FailPlan` | crates/netfyr-backend/src/executor.rs:48-70 | the loop builds the failed report |
| `Identity.LinuxTransport.Invalidate` | crates/netfyr-backend/src/linux.rs:248-252 | all tokens go, the epoch advances modulo 2^64, the invalidation stays pending |
| `Identity.LinuxTransport.Record` | crates/netfyr-backend/src/linux.rs:254-271 | a deletion retires one token, an overrun, unreadable or closed stream all of them, a bridge leaving nothing |
| `Identity.LinuxTransport.DrainNotifications` | crates/netfyr-backend/src/linux.rs:282-296 | everything that has arrived is recorded, an invalidation is reported once, and items stay queued only behind the one that closed the stream |
| `Identity.LinuxTransport.AssignGenerations` | crates/netfyr-backend/src/linux.rs:382-389 | links keep their token or receive the drawn one, in dump order |
| `Identity.InventoryTokens` | crates/netfyr-backend/src/linux.rs:382-463 | after assignment and retention the stored tokens are those of exactly the dumped links: the old one where there was one, else the drawn one |
| `IdentityProtocol.RetainKeepsInv` | crates/netfyr-backend/src/linux.rs:462-463 | forgetting the tokens of links the dump did not show keeps the invariant of every interleaving |
| `Identity.AssignedTokens` | crates/netfyr-backend/src/linux.rs:382-389 | after a dump every stored token is the one it had or the one drawn for its link |
| `IdentityProtocol.StepKeepsInv` | crates/netfyr-backend/src/linux.rs:324-635 | every step of kernel, socket and transport, writes included, keeps the invariant that a token in use names a live incarnation or a retirement is on its way |
| `IdentityProtocol.TokensNeverAlias` | crates/netfyr-backend/src/linux.rs:324-545 | under any interleaving, two successful inventories that returned the same token saw the same link incarnation |
| `IdentityProtocol.ConfirmationIsSound` | crates/netfyr-backend/src/linux.rs:606-635 | a confirmed identity was answered by the very incarnation its token was handed out for; that the link that answered bore the target's name is `ConfirmedNames` |
| `ConfirmedNames.ConfirmationSucceedsIff` | crates/netfyr-backend/src/linux.rs:606-635 | in every state of the protocol a confirmation succeeds iff nothing was invalidated, the stored token is the target's, and the link that answered bears the target's name |
| `ConfirmedNames.ConfirmedLinkBearsTheName` | crates/netfyr-backend/src/linux.rs:606-635 | in every behaviour a successful confirmation was asked for a target whose name the answering link bore when it answered, and that incarnation is the one recorded |
| `InventoryReturns.InventoryReturnsExactly` | crates/netfyr-backend/src/linux.rs:324-545 | in every behaviour an inventory returns all links of its dump with their tokens iff every link got one and no deletion, nor anything that hides one, was recorded or has arrived since it began; otherwise nothing; afterwards only links of the dump have tokens, and undisturbed ones keep theirs |
| `InventoryReturns.RequestsGoOutIff` | crates/netfyr-backend/src/linux.rs:298-322 | a request, a confirmed write included, goes out iff no invalidation is pending or has arrived and the stream is open |
| `ConfirmedWrites.AnsweredWritesLanded` | crates/netfyr-backend/src/linux.rs:298-322 | a write whose answer the transport took in was carried out, for the link and token it was confirmed for, however late other answers arrive |
| `ConfirmedWrites.WritesReachTheLiving` | crates/netfyr-backend/src/linux.rs:600-635 | every write that was carried out was confirmed before, and reached the confirmed incarnation iff that was alive at the moment |
| `ConfirmedWrites.WritesReachOrRetire` | crates/netfyr-backend/src/linux.rs:600-635 | at every later moment the write had reached the confirmed incarnation, or that incarnation's token is out of use or its retirement is on its way |
| `ConfirmedWrites.ReturnedTokensWereReached` | crates/netfyr-backend/src/linux.rs:324-635 | an inventory that begins after the write and returns its token shows the incarnation the write reached, so the token of a write that missed is never returned again |
| `WriteLimits.ConfirmedWritesCanMiss` | crates/netfyr-backend/src/linux.rs:600-602 | a concrete run in which a link is replaced after its confirmation was answered and the write reaches the successor, with the retirement pending |
| `VerifiedIncarnations.SuccessIsOnItsIncarnation` | crates/netfyr-backend/src/executor.rs:652-789 | when the exchanges of a run are those of the transport, an address operation reported as succeeded was carried out on the very incarnation an earlier inventory returned for the target, and its effect was seen in a later inventory that returns the same incarnation |
| `IdentityLimits.FailedInventoriesLeaveTokens` | crates/netfyr-backend/src/linux.rs:324-545 | a concrete run after which the table holds a token of a link that is gone, with nothing on its way to retire it and nothing handed out |
| `IdentityLimits.StaleTokensComeFromDoomedInventories` | crates/netfyr-backend/src/linux.rs:324-545 | in every run such a token was drawn by an inventory during which a deletion had been recorded |
| `IdentityLimits.DoomedInventoriesFail` | crates/netfyr-backend/src/linux.rs:462-545 | an inventory during which a deletion was recorded hands out nothing |
| `Conformance.ValidatorIsCorrect` | crates/netfyr-state/src/schema.rs:683-750 | in both modes no errors are returned iff the state conforms to the schema tree, in which ranges, enumerations and the text of networks are written out |
| `Conformance.ModesDifferByReadOnlyErrors` | crates/netfyr-state/src/schema.rs:836-997 | deleting the read-only errors of the writable mode yields the reading mode's errors in order |
| `NetworkTexts.NetworkTextMeans` | crates/netfyr-state/src/schema.rs:127-136 | text is read as a network iff it is an address, a slash and decimal digits for a prefix length that the family allows |
| `NetworkTexts.DecimalWrites` | crates/netfyr-state/src/schema.rs:978-991 | decimal text writes its number, without leading zeros |
| `YamlReading.PrintedNetworksValidate` | crates/netfyr-state/src/schema.rs:958-973 | a network passes the IPv4 format, as a value and as printed text, iff it is an IPv4 one with a prefix of at most 32 |
| `ValidationReport.ReportIsExact` | crates/netfyr-state/src/schema.rs:683-997 | in both modes the list is exactly what is wrong with the state, each error once, with its kind, limits and path, in the order of fragments, entries, items and then missing fields |
| `EmbeddedSchema.EmbeddedAccepts` | crates/netfyr-state/src/schema.rs:389-396 | which states the embedded schema accepts for reading and for writing, field by field |
| `EmbeddedSchema.EmbeddedNetworkPath` | crates/netfyr-state/src/schema.rs:598-617 | the addresses of `ipv4` are where the embedded schema reads text as networks |
| `Validation.Validator.WalkNode` | crates/netfyr-state/src/schema.rs:903-997 | the walk appends exactly the node's errors, in order |
| `Validation.Validator.WalkItems` | crates/netfyr-state/src/schema.rs:978-991 | the loop over a list's items appends their errors with indexed paths in order |
| `Validation.Validator.WalkEntries` | crates/netfyr-state/src/schema.rs:836-870 | the loop over a map's entries appends their errors in order |
| `Validation.Validator.ReportMissing` | crates/netfyr-state/src/schema.rs:869-879 | absent required fields follow the entries, in the order of the schema |
| `Validation.ValidateInner` | crates/netfyr-state/src/schema.rs:683-750 | the collected list is the defined one and is empty iff the state conforms |
| `Stripper.Remover.FromProperty` | crates/netfyr-state/src/schema.rs:1037-1059 | a read-only property is removed and reported, a writable one is stripped in place |
| `Stripper.Remover.FromMap` | crates/netfyr-state/src/schema.rs:1061-1073 | editing a map key by key leaves exactly its settable entries in order and reports the removed paths in order |
| `Stripper.NothingRemoved` | crates/netfyr-state/src/schema.rs:1037-1073 | a path is reported iff removal changes the map |
| `Stripper.StripTwice` | crates/netfyr-state/src/schema.rs:1037-1073 | removing again removes and reports nothing |
| `Stripper.StripExact` | crates/netfyr-state/src/schema.rs:1037-1073 | what remains of a conforming value is settable iff removal takes no required field and finds nothing read-only in arrays of arrays |
| `Preparation.RemoveReadOnlyFields` | crates/netfyr-state/src/schema.rs:646-679 | fragments are stripped by their own schema and dropped once empty, base fields by the base schema, in place |
| `Preparation.PrepareState` | crates/netfyr-state/src/apply.rs:106-151 | one state's match, fields and type after preparation; `PreparedStates` says what they are |
| `Preparation.PrepareForApply` | crates/netfyr-state/src/apply.rs:79-161 | the loops reset, validate, prepare and validate again as defined, with all error cases; `PreparedStates` says what the result is and when each error occurs |
| `RemovalPlaces.PlacesRemain` | crates/netfyr-state/src/schema.rs:1037-1073 | a place of a value is left iff nothing at it or around it was taken out, with a value of the same kind, and a scalar unchanged |
| `PreparedStates.ReportIsExact` | crates/netfyr-state/src/schema.rs:646-679 | a path is reported iff it names a place that was taken out |
| `PreparedStates.RemainsExactly` | crates/netfyr-state/src/schema.rs:646-679 | a place of a state remains iff neither it nor anything around it is read-only and present and its fragment is not left empty |
| `PreparedStates.ResetMeans` | crates/netfyr-state/src/apply.rs:83-104 | which states count as query results and lose their match before anything else |
| `PreparedStates.PreparedStatesAre` | crates/netfyr-state/src/apply.rs:106-161 | on success each unmatched state is selected by exactly `name` or `mac`, with the text of that field, and by its former type; the field is gone, the type empty, everything settable kept; matched states are untouched; the warnings name what was removed |
| `PreparedStates.PreparationErrorsAre` | crates/netfyr-state/src/apply.rs:79-161 | every failure of preparation: all errors of the first validation with their states, else the first state without its selector, else what the final validation finds |
| `RemovalOrder.CutValue` | crates/netfyr-state/src/schema.rs:1037-1073 | what stays of a value: settable and unknown entries in order, each list item that is a map cut likewise, all else as it was |
| `RemovalOrder.ValueGoes` | crates/netfyr-state/src/schema.rs:1037-1073 | the report about a value: one path for everything read-only that is met, in order |
| `RemovalOrder.TopsAreCut` | crates/netfyr-state/src/schema.rs:646-679 | what stays of a state, in the order of its fields; a fragment left empty is dropped |
| `RemovalOrder.PreparationWarns` | crates/netfyr-state/src/apply.rs:97-153 | the warnings: state by state and field by field, each path once |
| `RemovalOrder.ErrorsAreListed` | crates/netfyr-state/src/apply.rs:163-187 | the errors of several states: state by state, each with its number |
| `PreparationLaws.StateStripExact` | crates/netfyr-state/src/apply.rs:106-151 | a prepared state conforms to the writable schema iff the state was clean |
| `PreparationLaws.PreparationExact` | crates/netfyr-state/src/apply.rs:79-161 | states that pass the first validation and have their match field are prepared iff each is clean, and only the final validation can still fail |
| `PreparationLaws.PreparationSucceeds` | crates/netfyr-state/src/apply.rs:79-161 | with no read-only required property, no array of arrays and no required match field, preparation never fails its second validation |
| `SchemaRegistries.CallsKeepRequired` | crates/netfyr-state/src/schema.rs:408-474 | no sequence of additions changes what the base fragment requires |
| `SchemaRegistries.BuiltRegistriesPrepare` | crates/netfyr-state/src/apply.rs:79-161 | on every registry built from the embedded one, preparation never fails its second validation unless a fragment requires a read-only property or has arrays of arrays |
| `PreparationLimits.ExtendedPreparesIffClean` | crates/netfyr-state/src/apply.rs:79-161 | on every registry built by one addition, preparing a conforming query result succeeds iff the added field is clean under the added node |
| `PreparationLimits.RequiredReadOnlyFieldSpoils` | crates/netfyr-state/src/apply.rs:79-161 | a built registry and a state that passes the first validation, has its match field, and fails the second because a required field was removed |
| `PreparationLimits.NestedArraySpoils` | crates/netfyr-state/src/schema.rs:1037-1073 | the same for a read-only field inside an array of arrays, which removal leaves in place |
| `PreparationLaws.ConformingIsClean` | crates/netfyr-state/src/schema.rs:646-679 | under those schema conditions every conforming state is clean |
| `PreparationLaws.PreparingAgainChangesNothing` | crates/netfyr-state/src/apply.rs:72-78 | preparing the result again, with any options, changes nothing and warns of nothing |
| `PreparationLaws.TopLookup` | crates/netfyr-state/src/schema.rs:783-803 | the flat field map answers for single names exactly as the schema tree does |
| `PreparationLaws.EmbeddedIsPlain` | crates/netfyr-state/src/schema.rs:389-396 | the embedded fragments meet the hypotheses of the preparation laws |
| `SchemaExtension.Descend` | crates/netfyr-state/src/schema.rs:446-466 | the descent by reference, inserting parents, leaves the defined tree and error |
| `SchemaExtension.FailureChangesNothing` | crates/netfyr-state/src/schema.rs:446-466 | a failed addition leaves the tree unchanged although parents are inserted on the way |
| `SchemaExtension.AddedIsThere` | crates/netfyr-state/src/schema.rs:446-466 | on success the path leads to the added node, which it did not before |
| `Additions.SplitPathMeans` | crates/netfyr-state/src/schema.rs:418-423 | a path is split at every dot |
| `Additions.ValidIffTyped` | crates/netfyr-state/src/schema.rs:805-833 | a schema is accepted iff every node has a type that the dialect can name, and the type text where it has a format |
| `Additions.GrownTree` | crates/netfyr-state/src/schema.rs:444-468 | after an addition the path leads to the node, new parents are closed settable objects, new names come last, and every other path leads where it did |
| `Additions.AdditionMeans` | crates/netfyr-state/src/schema.rs:408-474 | every answer to an addition with its condition, and the registry after a successful one |
| `FlatLookups.FlatMapIsTheTree` | crates/netfyr-state/src/schema.rs:783-803 | the flat field map is the lookup through the tree, the last claim winning |
| `LookupClaims.LookupKeptExactly` | crates/netfyr-state/src/schema.rs:408-474 | on every tree, a path that had an answer keeps it when a node is added iff a later claim stands or the addition says nothing else about the path |
| `SchemaRegistries.SchemaStore.AddSchemaNode` | crates/netfyr-state/src/schema.rs:408-474 | the new registry and error are the defined ones, and every failure leaves the registry as it was |
| `SchemaRegistries.CallsKeepPlain` | crates/netfyr-state/src/schema.rs:424-442 | no sequence of calls ever lets a base property shadow a fragment trigger |
| `SchemaRegistries.CallsKeepLookupsExactly` | crates/netfyr-state/src/schema.rs:408-474 | on every registry and over every sequence of calls, failing ones included, an answered lookup keeps its answer all along iff no call touches it |
| `SchemaRegistries.BuiltRegistriesKeepLookups` | crates/netfyr-state/src/schema.rs:389-474 | registries built from the embedded one by nodes with dot-free names, and items only on arrays, keep every answer while more such nodes are added |
| `LookupLimits.DottedNamesCollide` | crates/netfyr-state/src/schema.rs:408-474 | a built registry with a property named `b.c` under `a`, whose answer for `a.b.c` changes when a node is added there |
| `SchemaRegistries.BuiltRegistriesPrepareOnce` | crates/netfyr-state/src/apply.rs:72-78 | on every registry built from the embedded one, prepared states stay as they are |
| `Yaml.EncodeState` | crates/netfyr-state/src/yaml.rs:131-193 | the printed tree is the defined one, or a reserved key is refused |
| `Yaml.DecodeState` | crates/netfyr-state/src/yaml.rs:199-248 | the loop over a device mapping yields the defined state or error, looking through tags where the accessors do |
| `Yaml.DecodeMatch` | crates/netfyr-state/src/yaml.rs:279-299 | the loop over a match section yields the defined match or error; tags on the section and on its values do not matter |
| `YamlReading.ValueReads` | crates/netfyr-state/src/yaml.rs:302-345 | a tree parses as a value iff it has no null, float or tag and only scalar keys; what it reads as, the latest of equal keys winning in the place of the first; else the error of the first offender in document order |
| `StateReading.MatchParses` | crates/netfyr-state/src/yaml.rs:279-299 | a match parses iff it is a mapping of known selectors to text, each selector getting its last text; else the error of the first entry that is wrong |
| `StateReading.StateParses` | crates/netfyr-state/src/yaml.rs:199-276 | a device mapping parses iff every entry is fine (`kind` only as `state`), to the last match, the last type or the implied one, and the latest value of every field in order; else the error of the first entry that is not |
| `StateReading.SchemaAtMeans` | crates/netfyr-state/src/schema.rs:598-617 | a top-level key is read by the base field of that name, else by the fragment it triggers, else by no schema |
| `StateReading.ImpliedTypeMeans` | crates/netfyr-state/src/schema.rs:619-632 | the implied type is that of the first fragment whose trigger is there and that implies one |
| `StateReading.TreeLayout` | crates/netfyr-state/src/yaml.rs:131-193 | a printed state is its match in the policy form only, its type unless there is none or the policy's fields imply it, and its fields in order; a field named like a section is refused |
| `StateReading.MatchLayout` | crates/netfyr-state/src/yaml.rs:146-171 | the selectors of a match are printed in their fixed order |
| `YamlLaws.NetworkTextReads` | crates/netfyr-state/src/schema.rs:127-136 | address, slash and decimal prefix read back iff the prefix fits the address family |
| `YamlLaws.ValueReread` | crates/netfyr-state/src/yaml.rs:302-376 | parsing a printed value never fails and yields its reread form |
| `YamlLaws.ValueRoundTrip` | crates/netfyr-state/src/yaml.rs:302-376 | parsing undoes printing of a value iff it is representable at its schema path |
| `YamlLaws.ReprintExact` | crates/netfyr-state/src/yaml.rs:302-376 | printing what was parsed gives the same tree iff all network text was canonical |
| `StateTrees.MatchRoundTrip` | crates/netfyr-state/src/yaml.rs:279-299 | every match survives printing and parsing |
| `StateTrees.PolicyRoundTrip` | crates/netfyr-state/src/yaml.rs:131-248 | printing fails iff a field key is reserved; otherwise the policy form parses back to equal ordered content iff values are representable and the type is set or not implied |
| `StateTrees.QueryRoundTrip` | crates/netfyr-state/src/yaml.rs:131-248 | the query form does the same with an empty match |
| `StateTrees.PolicyFixedPoint` | crates/netfyr-state/src/yaml.rs:163-178 | the policy tree is a fixed point of re-parsing iff network text is canonical, also when the type was omitted as implied |
| `StateTrees.QueryFixedPoint` | crates/netfyr-state/src/yaml.rs:163-178 | the query tree is a fixed point iff, besides, no fragment would add a type |
| `Providers.CallsSucceed` | crates/netfyr-policy/src/lib.rs:110-122 | composing the provider schemas never conflicts |
| `Providers.ComposedHosts` | crates/netfyr-policy/src/lib.rs:110-122 | the composed registry describes every provider trigger as an optional object |
| `Production.ValidTriggersAreMaps` | crates/netfyr-policy/src/lib.rs:254-261 | after writable validation every registered trigger is a map, so the split cannot panic |
| `Production.SplitDomain` | crates/netfyr-policy/src/lib.rs:249-277 | the loop over a domain's keys takes out exactly the triggers, in order |
| `Policies.SplitFields` | crates/netfyr-policy/src/lib.rs:243-281 | the loop over the domains leaves the static fields and the declarations in field order |
| `Policies.ProducePolicy` | crates/netfyr-policy/src/lib.rs:228-296 | production with its four error cases |
| `Policies.PolicySet.Insert` | crates/netfyr-policy/src/lib.rs:196-205 | names stay unique and no policy is ever replaced |
| `Policies.PolicySet.ProduceAll` | crates/netfyr-policy/src/lib.rs:208-218 | the ordered concatenation of all productions, or the first policy's error and nothing else |
| `ProductionLaws.SplitConserves` | crates/netfyr-policy/src/lib.rs:243-281 | re-inserting the declared parameters at their locations recovers the fields up to key order |
| `ProductionLaws.StaticStateConforms` | crates/netfyr-policy/src/lib.rs:285-295 | the static state still passes the composed writable schema |
| `ProductionLaws.ProductionIsConservative` | crates/netfyr-policy/src/lib.rs:228-296 | a produced policy: valid static state without triggers, and together with the declarations everything the policy held |
| `ProducedParts.DeclarationsAre` | crates/netfyr-policy/src/lib.rs:243-277 | one declaration for every trigger, in the order of fields and keys, with the kind, source, location, priority and parameters of the trigger and the name, match and type of the policy |
| `ProducedParts.StaticFieldsAre` | crates/netfyr-policy/src/lib.rs:243-281 | the static fields are the others in order, each map without its triggers; only a map that held nothing but triggers is dropped |
| `ProducedParts.ProductionErrors` | crates/netfyr-policy/src/lib.rs:228-283 | which error a policy brings, each with its condition; nothing to produce means no field and no type |
| `ProducedParts.StateIsLeftOut` | crates/netfyr-policy/src/lib.rs:284-295 | a policy has no static state iff it gives no type and all its fields are maps of triggers |
| `ComposedSchema.PoliciesAccept` | crates/netfyr-policy/src/lib.rs:110-122 | which policies pass validation, field by field: the settable fields of the embedded schema and the three triggers with their parameters |
| `ProductionLaws.EmptyDomainsSurvive` | crates/netfyr-policy/src/lib.rs:278-280 | a domain written as an empty map stays in the produced state, though one emptied of its triggers is dropped |
| `ProductionLaws.EmptyIpv6NeedsTheComposedSchema` | crates/netfyr-policy/src/lib.rs:110-122 | with an explicit empty `ipv6` map any state the composed registry accepts is still accepted there and always rejected by the embedded one |
| `Registry.See` | crates/netfyr-backend/src/registry.rs:184-197 | one reported device keeps the merge the first owned view of every key |
| `Registry.KeysAreSeen` | crates/netfyr-backend/src/registry.rs:184-197 | the merge has one device for every key that was reported, and no other |
| `Registry.MergeIsUnique` | crates/netfyr-backend/src/registry.rs:153-210 | the first owned views in first-seen order determine the merge |
| `Queries.AskedBackends` | crates/netfyr-backend/src/registry.rs:158-162 | the backends asked are the registered ones of the namespace, all of them without one, in registration order |
| `Queries.QueryMeans` | crates/netfyr-backend/src/registry.rs:153-210 | for every registration and every answer: the query fails with the first error that a backend of the namespace brings, or finds nothing it was named for; otherwise it keeps, for every interface reported, the first owned view or else the first one, in first-reported order |
| `Queries.KeysAreReported` | crates/netfyr-backend/src/registry.rs:153-210 | an interface is in the result iff some registered backend of the namespace reported it |
| `Queries.ForeignBackendsDoNotMatter` | crates/netfyr-backend/src/registry.rs:158-162 | backends of other namespaces, registered or not and whatever they answer, do not affect a query of a namespace |
| `Routing.BackendRegistry.Register` | crates/netfyr-backend/src/registry.rs:24-41 | a backend is refused iff it shares a type with one of its namespace, so every registration sequence keeps one owner per type |
| `Routing.BackendRegistry.QueryInNamespace` | crates/netfyr-backend/src/registry.rs:153-210 | the nested loops compute the merge; an interface is in the result iff some registered backend of the namespace reported it, in its first owned view or else its first one; absent interfaces are skipped and the first failure is passed on |
| `Routing.OneOwner` | crates/netfyr-backend/src/registry.rs:24-41 | two owners of one type in one namespace are the same backend |
| `Routing.SelectIgnoresOrder` | crates/netfyr-backend/src/registry.rs:104-151 | selection does not depend on registration order |
| `Routing.SelectedOwnsTarget` | crates/netfyr-backend/src/registry.rs:104-151 | an operation is routed only to a backend that owns the discovered, identical target and supports the operation |
| `Routing.SelectMeans` | crates/netfyr-backend/src/registry.rs:104-151 | the four errors of a selection and its success, each with its condition |
| `Routing.ResolvedTargetIsReported` | crates/netfyr-backend/src/registry.rs:71-151 | an operation that resolves does so to the registered owner of its target, which the backends of its namespace reported unchanged |
| `Routing.OwnedTargetsResolve` | crates/netfyr-backend/src/registry.rs:71-151 | conversely, when no backend of the namespace fails and the target is there unchanged under a name of its own, the operation resolves to the registered owner of its type that supports it |
| `Routing.BackendRegistry.ResolvePlan` | crates/netfyr-backend/src/registry.rs:71-102 | a plan resolves iff all its operations select one backend, which is returned; otherwise the first failing operation decides the error; `Routing.ResolvedTargetIsReported` and `Routing.OwnedTargetsResolve` say which backend that is |

## Left out

- Threads, namespaces, sockets, ioctls, wireless and ethtool enrichment, link classification: operating-system glue.
- The reply loop `collect_response`, strict packet decoding and address-message handling of the transport: message framing around the identity protocol.
- Inventory, confirmation and writing are steps of `IdentityProtocol`, not methods of `Identity.LinuxTransport`, because each suspends between request and reply. What a write changes on the link, and whether its answer reports an error, is not part of the protocol.
- Asynchrony of the executor: its exchanges with the environment form one sequence, the log.
- Messages, errno values, diagnostics, `collateral` warnings, identifiers and wall-clock times: no state behind them. Errors keep their kind.
- `StateDiff.changes`: carried for display only.
- In-place editing of one device by projection and rebasing: a device is a value here, and the methods return the new one.
- Schema trees and configuration maps are values too: in-place edits of nested maps are returned and stored back, which leaves out aliasing.
- `Execution.PreviewPlan`: requires that cancellation is never requested, as the program passes a constant answer there.
- Text of IP addresses: a parameter that prints and parses; the laws of the YAML forms assume that parsing undoes printing and that printed addresses contain no slash.
- YAML text and JSON schema text: modelled from the parsed trees on. Duplicate mapping keys of one spelling are modelled; a document of several states is the list of their trees.
- The lexicographic order of the flat field map: only lookups are modelled.
- Canonical text of a match value that is not a string: a parameter of `Preparation.PrepareForApply`.
- Policy and directory loading, priorities and metadata parsing: one-branch conversions around the modelled codec and split.
- `BackendRegistry.resolve` for a single operation: the one-operation case of `Routing.BackendRegistry.ResolvePlan` with a named query.
- What the kernel does besides to addresses (routes, IPv6, links going down): `KernelWrites` holds its rules for the lists of IPv4 addresses that the executor compares.
- Match evaluation, PCI paths, MAC formatting and source priorities beyond their constants: single comparisons and string formats.
