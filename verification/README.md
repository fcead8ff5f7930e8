# A Dafny model of dsmctl's guarded changes

`dsmctl` plans a change to a Synology NAS, hashes the plan, and applies it only if the NAS still looks
the way the plan saw it. This project models the decisions behind that and proves what they promise:

- the package dependency resolver, the catalog that feeds it, and the install loop;
- the hash-bound plan/apply protocol as a state machine whose NAS others may change between any two
  steps, with Auto Block settings, Auto Block lists, NFS exports, team folders, firewall profiles and
  group memberships as instances;
- CIDR arithmetic over bytes, the firewall evaluator, and the never-lockout guard;
- the comparisons and diffs that decide no-op, staleness and risk (NFS rules, group memberships,
  team-folder versioning);
- the saved-discovery store, over every run of merges and clears.

Where the code decides something less than one might expect, the model keeps the code, shows an input,
and proves the exact condition:

- two probes of a CIDR source: `FirewallGuard.NarrowRuleIsMissed`, `FirewallGuard.TwoProbesSufficeIff`;
- a firewall request that lists a new adapter twice: `FirewallProfile.RepeatedAdapterIsAccepted`,
  `FirewallProfile.VerificationVouchesIff`;
- requests to activate a firewall profile: `FirewallProfile.ActivationIsPlannedAgain`,
  `FirewallProfile.ReplanRefusedIff`;
- the width bound on block targets: `AutoBlockList.MappedRangeIsNotBroad`, `AutoBlockList.NarrowV4TargetSize`;
- the destructive flag of team folders: `TeamFolder.FlaggedWithoutLoss`, `TeamFolder.DestructiveIffSomeVersionIsLost`;
- repeated clients in an export: `NfsExport.RepeatedClientMakesAnEmptyPlan`, `KeyedRows.EmptyDiffIff`;
- membership plans that change nothing: `Membership.NoOpPlanIsAppliedTwice`, `Membership.ReplayableIffNoOp`;
- the missing re-read of install plans: `InstallRun.CompletedRunMayLackADependency`,
  `InstallRun.DependenciesPresentIff`;
- unreadable addresses in the discovery order: `DiscoveryStore.UnreadableAddressBreaksTheOrder`,
  `DiscoveryStore.RecordsAreOrderedIff`;
- the gap between re-read and write: `AutoBlock.WriteMayMeetAnotherState`, and per guarded change
  `AutoBlock.WriteMeetsPlannedSettingsIff`, `AutoBlockList.WriteMeetsPlannedListsIff`,
  `NfsExport.WriteMeetsPlannedRulesIff`, `TeamFolder.WriteMeetsPlannedFolderIff`,
  `FirewallProfile.WriteMeetsPlannedProfileIff`, `Membership.WriteMeetsPlannedMembershipIff`.
- the ruleset that the guard evaluated and the one that gets written, which the comment at
  internal/domain/firewall/evaluate.go:338-342 takes to be the same: `FirewallProfile.WriteMayLockOut`,
  `FirewallProfile.FreshMergeVerifiesIff`.

## How it is laid out

| files | what they hold |
|---|---|
| `Packages`, `Versions`, `Catalog`, `InstallOrder`, `InstallPlanning`, `InstallRun` | Package Center |
| `PlanApply` | the protocol: state machine, invariants over runs, and one apply as imperative code |
| `AutoBlock`, `AutoBlockList`, `NfsExport`, `TeamFolder`, `FirewallProfile`, `Membership` | the guarded changes |
| `Cidr`, `Addresses`, `Connections`, `FirewallRules`, `FirewallGuard` | addresses, subnets, active sources, the evaluator and the guard |
| `DiscoveryStore` | the saved-discovery set |
| `KeyedRows`, `Sorting`, `Text`, `Results` | keyed lists and diffs, stable sorting, ASCII text, results |

`hashJSON` is an injective function on plan contents, `net.ParseIP` and `net.ParseCIDR` are parameters
that yield addresses and subnets, and what DSM, other clients and the clock do is a parameter of each
step.

## Model

| member | source | states |
|---|---|---|
| Versions.ParsePackageVersion | internal/synology/compatibility/target.go:74-86 | The segments are the numbers of the digit runs; one overflowing run makes the version unknown |
| Versions.PrintedIsRead | internal/synology/compatibility/target.go:72-86 | Numbers printed in decimal, with any separators between them, are read back as they were; one number beyond 64 bits makes the version unknown |
| Versions.Compare | internal/synology/compatibility/target.go:92-113 | Negative, zero or positive exactly when the first differing segment, missing ones read as zero, is smaller, absent or larger |
| Versions.OlderIsTransitive | internal/synology/compatibility/target.go:92-113 | Being older is transitive |
| Versions.OlderIsAsymmetric | internal/synology/compatibility/target.go:92-113 | Two versions are never each older than the other |
| Versions.VersionsAreTotal | internal/synology/compatibility/target.go:63-66 | Any two versions compare: one is older or they are the same up to trailing zeros |
| Versions.DocumentedOrder | internal/synology/compatibility/target.go:63-66 | The documented texts, parsed and compared: 3.5 is below 3.5.0-1, and 3.9.9-9999 is below 4.0.0 |
| Versions.TrailingZeroIsSame | internal/synology/compatibility/target.go:92-113 | Every text is the same version as itself followed by .0, so equal order does not mean equal text |
| Catalog.CatalogById | internal/application/package_center.go:330-350 | Offers exactly the listed ids, each with the first row that no row of the id beats (stable before beta, then newer) |
| Catalog.BestOffersAreUnique | internal/application/package_center.go:330-350 | A catalog determines its offers: exactly one row per listed id is best |
| Catalog.OfferIsStableAndNewest | internal/application/package_center.go:326-329 | A beta never shadows a stable row, and no build of the offered channel is newer |
| Catalog.OffersIgnoreRowOrder | internal/application/package_center.go:330-350 | Permuting the catalog changes only which of several equal-version rows of one channel is offered |
| InstallOrder.ResolveInstallOrder | internal/application/package_center.go:356-393 | Succeeds exactly when everything the target needs is offered, downloadable and acyclic; then the order lists exactly the needed packages, once each, dependencies first, target last; an error names a real defect |
| InstallOrder.Resolver.Visit | internal/application/package_center.go:361-388 | Keeps `visiting` equal to the call stack and the stack a dependency path; extends the order up to the visited package or reports a justified error; terminates as the unvisited offers shrink |
| InstallOrder.Resolver.VisitNew | internal/application/package_center.go:378-387 | A package that is not installed, listed or being visited ends up last in a longer order, after its dependencies |
| InstallOrder.Resolver.VisitDependencies | internal/application/package_center.go:379-383 | Afterwards every dependency is installed or listed, and the stack is as before |
| InstallOrder.Resolver.Enter | internal/application/package_center.go:378 | Marking a package as being visited puts it on the dependency path and strictly shrinks the unvisited offers |
| InstallOrder.Resolver.Finish | internal/application/package_center.go:384-386 | The package leaves the stack and is appended to an order that stays duplicate-free and dependency-closed |
| InstallOrder.Resolver.StackedIsOnCycle | internal/application/package_center.go:365-367 | Meeting a package that is being visited means a real dependency cycle through it |
| InstallOrder.OrderForbidsCycles | internal/application/package_center.go:352-355 | No listed package lies on a cycle, because positions strictly fall along dependencies |
| InstallOrder.ListsPath | internal/application/package_center.go:352-355 | A dependency-closed order misses nothing reachable from a package it lists |
| InstallOrder.OrderMeansResolvable | internal/application/package_center.go:356-393 | An install order exists only for a target whose needs are installable and acyclic |
| InstallOrder.OrderIsLeast | internal/application/package_center.go:352-355 | Nothing superfluous is installed: every dependency-closed set with the target contains the whole order |
| InstallPlanning.BuildSteps | internal/application/package_center.go:192-206 | One step per package of the order with its download data; all but the last are dependencies and listed as such |
| InstallPlanning.StepsAreSound | internal/application/package_center.go:192-206 | Steps built from an install order install needed, absent packages once each, after what they depend on |
| InstallPlanning.PlanInstall | internal/application/package_center.go:159-216 | Fails exactly for a present target or unmet needs; its steps touch no installed package and end with the target |
| InstallPlanning.FindCurrent | internal/application/package_center.go:245-255 | Finds the last inventory row of the target, and one exactly if the target is installed |
| InstallPlanning.PlanUpdate | internal/application/package_center.go:240-324 | Succeeds exactly for an installed target with a strictly newer offer and resolvable new needs; touches no installed package but the target |
| InstallRun.VerifyUpdatePrecondition | internal/application/package_center.go:461-483 | Passes exactly when the first inventory row of the target has the planned, non-blank version |
| InstallRun.Nas.PackageInstall | internal/synology/packagecenter.go:382-420 | Polls until a poll fails, the inventory shows the package at the expected version, or the deadline; success means the last inventory read shows it |
| InstallRun.InstallSucceedsIff | internal/synology/packagecenter.go:382-420 | Success exactly when some poll shows the package at the expected version and no poll up to it fails |
| InstallRun.ApplyInstallPlan | internal/application/package_center.go:425-450 | Tries the steps in order, stops at the first failure, returns the confirmed prefix, and changes nothing for a stale update |
| InstallRun.DependenciesPrecedeEveryStep | internal/application/package_center.go:430-449 | At every prefix of a run, aborted or not, a step's dependency was present before the step was tried and still is, provided others do not remove it meanwhile and, if the plan saw it installed, it was still there at the start |
| InstallRun.RunTouchesNothingInstalled | internal/application/package_center.go:430-449 | A package the plan saw installed, other than an update's target, is at the end of any run what it was at the start, unless others touch it |
| InstallRun.DependenciesPresentIff | internal/application/package_center.go:425-449 | A completed run in which others leave the dependencies alone ends with all of them exactly if those the plan saw installed were still there at the start |
| InstallRun.CompletedRunMayLackADependency | internal/application/package_center.go:425-449 | Such a run that completes without a dependency, because it was removed after planning |
| InstallRun.UpdateEndsNewer | internal/application/package_center.go:268-274 | A completed update leaves a strictly newer version than the one its precondition read |
| PlanApply.NextIsSound | internal/application/accountprotection_write.go:119-140 | Every step of any session or outsider keeps every session's evidence good |
| PlanApply.EveryRunIsSound | internal/application/accountprotection_write.go:119-140 | In every run a write follows a re-read by the same apply that rebuilds the plan field for field, and Applied follows a later read that verifies |
| PlanApply.HashBindsBody | internal/application/accountprotection_write.go:124-131 | Equal plan hashes mean the rebuilt contents are the submitted ones |
| PlanApply.WriteMeetsPlannedState | internal/application/accountprotection_write.go:119-140 | A write comes with evidence of its re-read, and meets a state from which the plan would be rebuilt whenever the NAS is the same at the two reads and the write; the exact condition for each guarded change is proved in its own module |
| PlanApply.GoodPlanIsWritten | internal/application/accountprotection_write.go:119-132 | Whatever others turn the NAS into after the re-read, a plan that passed it is written |
| PlanApply.UndisturbedApplySucceeds | internal/application/accountprotection_write.go:119-140 | An accepted plan that still matches is reported applied if nobody interferes and the write has its effect |
| PlanApply.QuietApplyRepeats | internal/application/accountprotection_write.go:119-140 | A plan that still matches and is already in force is applied twice in a run in which the NAS never changes |
| PlanApply.EveryPlanWasApproved | internal/application/accountprotection_write.go:238-260 | In every run, whatever an apply works on, and so whatever it writes, was submitted with its own non-blank hash as the approval, was valid, unedited, and planned for the revision of that moment |
| PlanApply.EveryAttemptIsMade | internal/application/drive_admin.go:1091-1125 | While the NAS does not show the change an apply reads on until its last attempt, and then has failed |
| PlanApply.ApprovalBindsContents | internal/application/accountprotection_write.go:238-260 | In every run, two writes that were submitted with the same approval have the same contents |
| PlanApply.WriteIsFinal | internal/application/accountprotection_write.go:119-140 | What an apply has written, and with which evidence, never changes: it writes once |
| PlanApply.EditedPlanIsRefused | internal/application/accountprotection_write.go:252-258 | A plan edited after planning is accepted under no approval |
| PlanApply.AppliedPlanIsNotRepeated | internal/application/accountprotection_write.go:119-131 | After a verified apply the same request passes a re-read again only if the NAS changed in between |
| PlanApply.AppliedPlanStaysRefused | internal/application/accountprotection_write.go:119-131 | The same for every pair of writes in every run |
| PlanApply.Apply | internal/application/accountprotection_write.go:71-89 | One apply writes at most once, never with an approval that is not the plan's hash, nor for an invalid, edited or outdated plan, nor after a failed read; its outcome is justified by the states the NAS went through |
| AutoBlock.VerificationIsTheNoOpTest | internal/application/accountprotection_write.go:163-169 | Verification passes exactly where the planner sees nothing to do, which is where the patch changes nothing |
| AutoBlock.PlansNameTheirChanges | internal/application/accountprotection_write.go:171-213 | A plan is made exactly when its summary names something; high risk and warnings go together |
| AutoBlock.PlannedIff | internal/application/accountprotection_write.go:103-105 | A plan is made exactly if the settings can be read and written and a requested field differs from the observed one |
| AutoBlock.RefusedShapeIff | internal/application/accountprotection_write.go:142-161 | Which requests are turned away: no field, a count or window below one, negative days, or expiry switched on with zero days |
| AutoBlock.SummaryIff | internal/application/accountprotection_write.go:171-213 | The summary names exactly the requested fields that differ, with old and new value |
| AutoBlock.HighRiskIff | internal/application/accountprotection_write.go:171-213 | High risk means exactly that blocking is switched off, or made to need more attempts or a longer window |
| AutoBlock.AppliedSettingsAreInForce | internal/application/accountprotection_write.go:215-236 | In every run, success means that each requested field was read back with the requested value |
| AutoBlock.AppliedSettingsAreNotReplanned | internal/application/accountprotection_write.go:103-105 | A verified patch is not planned again |
| AutoBlock.AppliedSettingsStayRefused | internal/application/accountprotection_write.go:119-140 | In every run, a second write of a verified patch needs a change of the NAS |
| AutoBlock.WriteMeetsPlannedSettingsIff | internal/application/accountprotection_write.go:120-132 | In every run the write meets a state that the plan describes exactly if the NAS is as it was at the re-read |
| AutoBlock.WriteMayMeetAnyState | internal/application/accountprotection_write.go:120-132 | The write of a good plan goes ahead in whatever state others leave the NAS in after the re-read |
| AutoBlock.WriteMayMeetAnotherState | internal/application/accountprotection_write.go:120-132 | For instance when someone lowers the threshold before a write that raises it |
| Connections.ProtectedSources | internal/application/accountprotection_write.go:933-945 | Computes the distinct non-blank sources in order of first appearance |
| Connections.SourcesAreExact | internal/application/accountprotection_write.go:933-945 | The protected sources are exactly the non-empty origins of the connections, each once |
| Connections.SourcesGrow | internal/application/accountprotection_write.go:933-945 | More connections only add sources at the end |
| AutoBlockList.MatchingSource | internal/application/accountprotection_write.go:973-980 | Returns a protected source the target covers, and none only if no source is covered |
| AutoBlockList.MatchingSourceIsFirst | internal/application/accountprotection_write.go:973-980 | The source that is named is the first that is covered |
| AutoBlockList.WithinTargetIsCoverage | internal/application/accountprotection_write.go:990-1004 | Coverage depends only on the address's value, for single addresses and subnets of either family |
| AutoBlockList.PlannedIff | internal/application/accountprotection_write.go:813-874 | A plan is made exactly if the list that the edit names lacks the entry to add, or has the one to remove, and nothing is shut out without override: a block covers no active source and is not broad, a removed allow entry covers none |
| AutoBlockList.HighRiskIff | internal/application/accountprotection_write.go:835-873 | High risk means exactly that an active source is shut out or exposed, or that a broad entry is added |
| AutoBlockList.WarningsIff | internal/application/accountprotection_write.go:835-873 | Which warnings a plan carries, and that its summary is the edit |
| AutoBlockList.ValidShapeIff | internal/application/accountprotection_write.go:796-811 | An edit is valid exactly if it names the allow or the block list and a readable target |
| AutoBlockList.WrittenEditIsValid | internal/application/accountprotection_write.go:796-811 | In every run, what is written names the allow or the block list and a readable target |
| AutoBlockList.AppliedEditIsInTheList | internal/application/accountprotection_write.go:876-893 | In every run, success means that the entry was read back from the list that the edit names, or was gone from it |
| AutoBlockList.PlannedBlockSparesConnections | internal/application/accountprotection_write.go:836-851 | A block planned without override covers no readable active source and is not broad |
| AutoBlockList.PlannedExposureSparesConnections | internal/application/accountprotection_write.go:859-868 | Taking an entry off the allow list without override covers no readable active source |
| AutoBlockList.WrittenBlockSparesConnections | internal/application/accountprotection_write.go:773-794 | In every run, a block written without override covers none of the sources active at its own re-read |
| AutoBlockList.WrittenExposureSparesConnections | internal/application/accountprotection_write.go:773-794 | In every run, an allow entry removed without override covers none of the sources active at its own re-read |
| AutoBlockList.WriteMeetsPlannedListsIff | internal/application/accountprotection_write.go:773-794 | In every run the write meets a state that the plan describes exactly if the lists are as at the first read and the active sources as at the second |
| AutoBlockList.NarrowTargetSize | internal/application/accountprotection_write.go:1006-1020 | Not broad means exactly at most 2^8 addresses under a 32-bit mask, 2^64 under a 128-bit mask |
| AutoBlockList.NarrowV4TargetSize | internal/application/accountprotection_write.go:1009-1020 | A narrow IPv4 target holds at most 2^8 addresses exactly if it has a 32-bit mask or at least 120 prefix bits |
| AutoBlockList.MappedRangeIsNotBroad | internal/application/accountprotection_write.go:1015-1019 | The IPv4-mapped range under a 96-bit prefix passes as narrow and covers every IPv4 address |
| AutoBlockList.AppliedEditIsNotReplanned | internal/application/accountprotection_write.go:819-825 | A verified list edit is not planned again |
| AutoBlockList.RiskIsWarned | internal/application/accountprotection_write.go:835-873 | High risk comes with a warning, and without override only for a broad allow entry |
| Cidr.CidrHostBounds | internal/application/firewall_write.go:132-140 | Returns the network address and the address with every host bit set |
| Cidr.MatchIsInterval | internal/application/firewall_write.go:132-140 | For every length and prefix, an address matches the subnet exactly if its big-endian value lies between the bounds |
| Cidr.SubnetSize | internal/application/firewall_write.go:132-140 | The bounds enclose two to the power of the host bits values |
| Cidr.BlocksNest | internal/application/firewall_write.go:116-130 | A prefix block that shares an address with a wider one lies inside it |
| Addresses.ContainsIsCovers | internal/domain/firewall/evaluate.go:267-279 | Subnet membership in shortest form is lying between two values and being of the subnet's family |
| Addresses.FamilyOfValue | internal/domain/firewall/evaluate.go:298-312 | IPv4 addresses, in either form, are exactly one interval of sixteen-byte values |
| Addresses.LongFormIsSame | internal/domain/firewall/evaluate.go:267-279 | A four-byte subnet holds the same addresses as its sixteen-byte form, whose prefix is 96 bits longer |
| FirewallRules.PortsCoverIff | internal/domain/firewall/evaluate.go:195-219 | A port is covered exactly if a range holds it that no unreadable token precedes, and excluded exactly if all tokens are readable and none holds it |
| FirewallRules.PortMatchIff | internal/domain/firewall/evaluate.go:164-191 | Listed destination ports decide; the client's ports, unresolved services and empty lists are in doubt |
| FirewallRules.SourceMatchIff | internal/domain/firewall/evaluate.go:244-312 | A source matches by the number that the address stands for: equal, inside the subnet and of its family, or between the bounds; unreadable ones are in doubt |
| FirewallRules.RuleMatchIff | internal/domain/firewall/evaluate.go:128-162 | A rule matches exactly if protocol, ports and source do, and does not exactly if one of them does not |
| FirewallRules.FirstDecidingRule | internal/domain/firewall/evaluate.go:95-125 | The first enabled rule that matches, or denies and may match, gives its action; without one the section's policy allows, denies or defers |
| FirewallRules.ChainAllowsIff | internal/domain/firewall/evaluate.go:38-68 | On an interface its own section decides if it does, then the global one, and otherwise the session passes |
| FirewallRules.EvaluateIsCautious | internal/domain/firewall/evaluate.go:95-125 | A section that allows does so whatever its undecided rules match; one that defers never denies |
| FirewallRules.EvaluateIsWorstCase | internal/domain/firewall/evaluate.go:16-21 | The evaluator is first match with undecided rules turned against the session |
| FirewallRules.AllowedSessionPasses | internal/domain/firewall/evaluate.go:38-68 | An allowed session passes on every interface, whatever the undecided rules match |
| FirewallRules.AllowedIffAlwaysPasses | internal/domain/firewall/evaluate.go:38-68 | The evaluator allows exactly the sessions that pass in every case |
| FirewallGuard.DetermineConnection | internal/application/firewall_write.go:61-83 | keep_reachable if given, else the one current source, else none |
| FirewallGuard.DeterminedIff | internal/application/firewall_write.go:61-83 | A tuple is determined exactly if all current connections that show a source show the same one, and then it is that source |
| FirewallGuard.TupleIsUnique | internal/application/firewall_write.go:57-60 | The management tuple is determined by its inputs |
| FirewallGuard.GuardProbeIPs | internal/application/firewall_write.go:120-130 | A readable address gives that address; a subnet gives two, with its lowest and its highest value; otherwise there is an error |
| FirewallGuard.EvaluateGuard | internal/application/firewall_write.go:87-114 | Fails closed exactly without a source; passes without override exactly if the profile lets in the source itself, or both ends of the subnet; an override is recorded exactly past a refusal |
| FirewallGuard.RangeAllowedIffRepresentatives | internal/application/firewall_write.go:116-119 | A subnet is wholly allowed exactly if its first address and every rule boundary inside it are |
| FirewallGuard.TwoProbesSufficeIff | internal/application/firewall_write.go:97-103 | Past two allowed probes the subnet is wholly allowed exactly if no rule boundary inside is refused |
| FirewallGuard.UnsplitRangeIsAllowed | internal/application/firewall_write.go:116-119 | If every enabled rule covers all or none of the subnet, two allowed probes vouch for all of it |
| FirewallGuard.WideSubnetIsUnsplit | internal/application/firewall_write.go:116-119 | A rule source at least as wide as the probed subnet never splits it, whichever form either is written in |
| FirewallGuard.NarrowRuleIsMissed | internal/application/firewall_write.go:125-127 | A deny rule for one address inside the subnet is missed by both probes |
| FirewallProfile.Named | internal/application/firewall_write.go:646-652 | Looks a section up by its adapter; none exactly if the adapter is not listed |
| FirewallProfile.NamedIsLast | internal/application/firewall_write.go:646-652 | Of several sections of one adapter the lookup finds the one that no later section of that adapter follows |
| FirewallProfile.TupleOfIsTheTuple | internal/application/firewall_write.go:249 | The planner's tuple is the one determined from the sessions it read |
| FirewallProfile.ProfilesEqualIff | internal/application/firewall_write.go:654-666 | Against a profile that names each adapter once, the comparison finds exactly the profiles that name the same adapters once each, with the same rules and, up to letter case, policies |
| FirewallProfile.EqualProfilesAllowTheSame | internal/application/firewall_write.go:654-666 | What compares equal to such a profile allows every session that it allows |
| FirewallProfile.VerificationVouchesIff | internal/application/firewall_write.go:302-314 | Every profile that verification accepts keeps an allowed session exactly if the planned profile names no adapter twice, or names one in two ways so that nothing is ever accepted |
| FirewallProfile.RepeatedAdapterIsAccepted | internal/application/firewall_write.go:316-342 | A valid request that lists a new adapter twice can be verified over a section that others added and that denies the session |
| FirewallProfile.PlannedIff | internal/application/firewall_write.go:240-266 | A plan is made exactly if it changes or activates something and, where it takes effect, the guard lets it pass; it takes effect exactly if it activates or edits the profile in force, and carries the guard's decision exactly then |
| FirewallProfile.ValidShapeIff | internal/application/firewall_write.go:316-342 | Which requests are valid: named profile and adapters, known policies and actions, a readable source if one is to be kept |
| FirewallProfile.WrittenProfileKeepsTheSession | internal/application/firewall_write.go:250-314 | In every run, a write without override, if the request activates or the re-read found the profile in force, was planned to let the source itself, or both ends of its subnet, in on every interface; and if it is reported applied, and the planned profile names no adapter twice, the profile read back from the NAS does so too |
| FirewallProfile.AppliedProfileHasRequest | internal/application/firewall_write.go:302-314 | In every run, success means that the profile read back has every requested section, and every other section the re-read showed, with the same rules and policy |
| FirewallProfile.MergeIsDistinctIff | internal/domain/firewall/evaluate.go:343-366 | The merged profile names no adapter twice exactly if the profile does not and the request lists no new adapter twice |
| FirewallProfile.NamedMerge | internal/domain/firewall/evaluate.go:343-366 | In a merged profile an adapter has its desired section if there is one, else its current one |
| FirewallProfile.FreshMergeVerifiesIff | internal/synology/firewall.go:226-245 | The write merges into the profile as it is by then; what it writes passes verification exactly if that profile names no adapter twice, the request lists none twice that is new to it, and its sections that are not requested are as they were planned |
| FirewallProfile.FreshMergeKeepsTheSession | internal/synology/firewall.go:226-245 | Under that condition what an effective write without override merges keeps the session, whether or not it is confirmed later |
| FirewallProfile.FreshMergeMayLockOut | internal/domain/firewall/evaluate.go:338-342 | A section added by others after the re-read, with which the merge denies every session that the guard has let pass |
| FirewallProfile.WriteMayLockOut | internal/application/firewall_write.go:279-299 | A run in which that happens: an effective write, passed by the guard without override, merges into a profile under which no session is allowed |
| FirewallProfile.WriteMeetsPlannedProfileIff | internal/application/firewall_write.go:281-299 | In every run the write meets a state that the plan describes exactly if profile and status are as at the first read, and the tuple and the active sources as determined then |
| FirewallProfile.MergeIsIdempotentOnceVerified | internal/domain/firewall/evaluate.go:343-366 | Merging the same sections into a verified profile changes nothing |
| FirewallProfile.ReplanRefusedIff | internal/application/firewall_write.go:240-243 | A verified change is refused again exactly if it does not ask for activation or the guard refuses |
| FirewallProfile.AppliedProfileStaysRefused | internal/application/firewall_write.go:279-299 | In every run, a request that does not activate, applied with no adapter named twice, is written again only after the NAS has changed |
| FirewallProfile.ActivationIsPlannedAgain | internal/application/firewall_write.go:240-243 | A request for activation that is planned, and planned again from a state that verifies it |
| KeyedRows.IndexSize | internal/application/nfs_export.go:283-291 | The pigeonhole: an index is as large as its list exactly if no key repeats |
| KeyedRows.MatchIsPermutation | internal/application/nfs_export.go:281-299 | Against unique keys, equal length and equal index hold exactly for permutations |
| KeyedRows.DiffTurnsObservedIntoDesired | internal/application/nfs_export.go:229-249 | Carrying out the announced entries gives exactly the desired rows |
| KeyedRows.DiffRemovesIff | internal/application/nfs_export.go:242-248 | A diff removes something exactly if an observed key is no longer wanted |
| KeyedRows.EmptyDiffIff | internal/application/nfs_export.go:221-251 | Nothing is announced exactly if the rows agree by key, which is a match exactly if the observed keys are unique |
| NfsExport.IndexRules | internal/application/nfs_export.go:273-279 | Rules by folded client, the last one counting |
| NfsExport.SameClientIff | internal/application/nfs_export.go:273-279 | Two rules are for one client exactly if their clients agree up to case and surrounding spaces |
| NfsExport.ValidRuleIff | internal/application/nfs_export.go:193-219 | Which rules are valid: a visible client of 1 to 255 characters, and known privilege, squash and security |
| NfsExport.ExportRulesMatch | internal/application/nfs_export.go:283-299 | Decides equal length and equal index, in whatever order the clients are visited |
| NfsExport.ValidateRequest | internal/application/nfs_export.go:193-219 | Accepts exactly valid requests with unique clients, and names the first rule that spoils the list |
| NfsExport.NfsExportPlanEffects | internal/application/nfs_export.go:221-251 | Announces the diff, in order, and is destructive exactly if a client is dropped |
| NfsExport.AnnounceRemovals | internal/application/nfs_export.go:242-249 | Announces every dropped client and flags exactly then |
| NfsExport.ExposureIff | internal/application/nfs_export.go:255-271 | Which rule gives which warning: open to many for writing or reading, broadened to writing, lowered security |
| NfsExport.PlannedWarningsIff | internal/application/nfs_export.go:221-251 | A plan warns of what each new or changed rule exposes, and of each client that loses its access |
| NfsExport.PlannedIff | internal/application/nfs_export.go:160-191 | A valid request is planned exactly if the rules can be set and are no permutation of the requested ones; high risk means destructive or with warnings |
| NfsExport.PlannedEntriesAreTheChange | internal/application/nfs_export.go:160-191 | A plan's entries turn the observed rules into the requested ones, remove exactly if destructive, and are empty only if a client is repeated |
| NfsExport.RepeatedClientMakesAnEmptyPlan | internal/application/nfs_export.go:172-180 | A repeated observed client gives a plan that announces nothing |
| NfsExport.AppliedExportIsExact | internal/application/nfs_export.go:138-145 | In every run, success means a permutation of the requested rules was read back |
| NfsExport.AppliedExportIsNotReplanned | internal/application/nfs_export.go:172-174 | A verified export is not planned again |
| NfsExport.WriteMeetsPlannedRulesIff | internal/application/nfs_export.go:121-135 | In every run the write meets a state that the plan describes exactly if the NAS is as it was at the re-read |
| Membership.ValidateMembership | internal/application/management.go:416-446 | Accepts exactly well-named, distinct groups that include the mandatory one |
| Membership.ReservedIff | internal/application/management.go:918-920 | Exactly admin, guest and root are reserved, in any spelling |
| Membership.ManagedNameIff | internal/application/management.go:898-903 | Which names are accepted: 1 to 64 letters, digits, dots, dashes and underscores, starting with a letter or digit |
| Membership.WrittenMembershipIsValid | internal/application/management.go:416-446 | In every run, what is written is for an unreserved user and lists distinct, well-named groups, the mandatory one among them |
| Membership.SameStringSet | internal/application/management.go:1016-1030 | Decides equal length and one-way inclusion of the folded names |
| Membership.InclusionIsEquality | internal/application/management.go:690-698 | Against a validated request the one-way test is equality of the folded sets |
| Membership.InclusionNeedsDistinctRequest | internal/application/management.go:1016-1030 | With a repeated request the test accepts a different set |
| Membership.MembershipDelta | internal/application/management.go:990-1014 | Strictly sorted lists of exactly the groups to add and to remove, the mandatory one spared |
| Membership.DeltaIsDeterministic | internal/application/management.go:1001-1013 | The delta is the same whatever order the maps are visited in |
| Membership.DeltaReachesDesiredIff | internal/application/management.go:990-1014 | Removing and adding the delta reaches the desired set exactly if the mandatory group is kept |
| Membership.ChangeIsDestructive | internal/application/management.go:967-975 | Destructive exactly if a group is lost or administrator rights are requested |
| Membership.PlannedIff | internal/application/management.go:261-275 | A plan is made exactly if user, membership and all requested groups exist; it is destructive exactly if a group is lost or administrator rights are requested |
| Membership.ReplayableIffNoOp | internal/application/management.go:117-126 | Some state passes verification and gives the same plan once more, exactly if the plan asks for the groups the user has anyway |
| Membership.AppliedPlanNeedsAChange | internal/application/management.go:117-149 | In every run, an applied plan that had something to do is written again only after the NAS has changed |
| Membership.NoOpPlanIsAppliedTwice | internal/application/management.go:117-149 | A plan that had nothing to do is applied twice while the NAS stays as it is |
| Membership.NoOpPlanExists | internal/application/management.go:261-275 | Such a plan exists, because membership planning has no test for having nothing to do |
| Membership.AppliedMembershipIsExact | internal/application/management.go:690-698 | In every run, success means that exactly the requested groups were read back, once each |
| Membership.WriteMeetsPlannedMembershipIff | internal/application/management.go:117-139 | In every run the write meets a state that the plan describes exactly if user and membership are as they were at the re-read and the requested groups still exist |
| TeamFolder.VerifyPostcondition | internal/application/drive_admin.go:1091-1125 | Succeeds exactly if one of five reads confirms and no earlier one fails, and returns the first confirming folder |
| TeamFolder.FiveReadsAreMade | internal/application/drive_admin.go:1091-1125 | A folder change that does not show is read back five times before it has failed |
| TeamFolder.RequestedFieldsAreDesired | internal/application/drive_admin.go:1145-1169 | What is asked for is each requested field, otherwise for a versioning change the observed one, and all off at count zero |
| TeamFolder.ValidChangeIff | internal/application/drive_admin.go:1304-1350 | Which requests are valid, action by action |
| TeamFolder.PlannedIff | internal/application/drive_admin.go:1192-1255 | A valid change is planned exactly if its folder exists and it has something to do; disabling is destructive, enabling is not; homes are of high risk |
| TeamFolder.WarningsIff | internal/application/drive_admin.go:1257-1297 | Which warnings a plan carries |
| TeamFolder.AppliedFolderMeetsRequest | internal/application/drive_admin.go:1091-1125 | In every run, success means that the folder was read back disabled, or enabled with the count, policy and days asked for |
| TeamFolder.DesiredIsFixedPoint | internal/application/drive_admin.go:1145-1169 | From any state that shows the desired versioning, the request asks for the same again |
| TeamFolder.VerifiedFolderIsNotReplanned | internal/application/drive_admin.go:1211-1234 | A verified enable, disable or set-versioning is not planned again |
| TeamFolder.AppliedFolderWasSeen | internal/application/drive_admin.go:1064-1089 | In every run, success means the plan was rebuilt before the write and the folder seen in force after it |
| TeamFolder.WriteMeetsPlannedFolderIff | internal/application/drive_admin.go:1064-1089 | In every run the write meets a state that the plan describes exactly if the folder is as it was at the re-read and team folders can still be changed |
| TeamFolder.DestructiveIffSomeVersionIsLost | internal/application/drive_admin.go:1275-1297 | Flagged, with versions kept at all, exactly if some allowed history loses a version |
| TeamFolder.FlaggedWithoutLoss | internal/application/drive_admin.go:1292-1296 | With versioning off, a new retention limit is flagged although nothing is lost |
| DiscoveryStore.Store.Merge | internal/application/discovery_store.go:90-117 | The file becomes the sorted upsert of the sweep, and stays untouched by an empty one |
| DiscoveryStore.Store.Clear | internal/application/discovery_store.go:119-125 | No file is left |
| DiscoveryStore.UpsertIndexed | internal/application/discovery_store.go:102-110 | One turn of the loop replaces or appends a record and keeps the index exact |
| DiscoveryStore.IndexRecords | internal/application/discovery_store.go:98-101 | The index holds the last position of every key |
| DiscoveryStore.RunStore | internal/application/discovery_store.go:86-89 | A store used any number of times is where the run of its operations leads |
| DiscoveryStore.StoreRefinesMap | internal/application/discovery_store.go:86-117 | After any run the file is exactly the simple map, one record per key |
| DiscoveryStore.SameKeyIff | internal/application/discovery_store.go:130-143 | Two sightings share a key exactly if both have a serial and the serials agree up to case; or neither has, and the MACs agree; or neither has either, and the first addresses agree; or only hostnames are left, and agree |
| DiscoveryStore.FileTellsHistory | internal/application/discovery_store.go:86-117 | After any run the file has a record of a device exactly if a sweep since the last clear saw it; then exactly one, with the device as last seen and the first and last times |
| DiscoveryStore.RecordTellsItsHistory | internal/application/discovery_store.go:86-117 | The map has a record of a device exactly if a sweep since the last clear saw it, with the device as last seen and the first and last times |
| DiscoveryStore.RecordsAreOrderedIff | internal/application/discovery_store.go:147-172 | The comparator is a strict weak order exactly if no unreadable address lies, as text, between two readable ones whose numbers do not follow their texts |
| DiscoveryStore.EveryFileSortsIff | internal/application/discovery_store.go:147-172 | Sorting gives a sorted file for all records with the admitted addresses exactly under that condition |
| DiscoveryStore.TangledRecordsCannotBeSorted | internal/application/discovery_store.go:147-172 | Without it, three records have no sorted arrangement by any algorithm |
| DiscoveryStore.ReadableAddressesCompare | internal/synology/findhost/codec.go:211-214 | The addresses a sweep reports, which are readable or missing, always meet it |
| DiscoveryStore.UnreadableAddressBreaksTheOrder | internal/application/discovery_store.go:159-166 | A file edited by hand can break it: an address cut short to 1x beside 9.0.0.1 and 10.0.0.1 |
| DiscoveryStore.MergedRecordsAreSorted | internal/application/discovery_store.go:98-113 | A merge sorts any file, however it came about, whose addresses and the sweep's meet that condition |
| DiscoveryStore.RecordsAreSorted | internal/application/discovery_store.go:111 | After any run over sweeps that meet it the file is sorted |
| DiscoveryStore.SortedAscends | internal/application/discovery_store.go:147-172 | What sorted means: numbers ascend where both addresses are readable, texts where not, and hostnames at one place |
| DiscoveryStore.AnyStableSortAgrees | internal/application/discovery_store.go:147-154 | Any stable sort by the comparator gives the same file |
| DiscoveryStore.UpdatedAtIsLastSweep | internal/application/discovery_store.go:90-117 | The file's update time is that of the last sweep that found something; there is no file exactly if none did since the last clear |
| DiscoveryStore.TimesAreOrdered | internal/application/discovery_store.go:102-112 | With a clock that never runs back, first seen, last seen and updated are in order |

## Left out

- PlanApply: one NAS only; remote authorization and the resolution of profile names only add refusals and are not modelled. The observed fingerprint is determined by the observed state inside the hashed contents.
- PlanApply.Apply: cancellation is a failing call at the point where it strikes.
- FirewallProfile.WrittenProfileKeepsTheSession: status and rules are taken as one read, the sessions as a later one; the code reads the three one after another.
- FirewallProfile.MergeIsIdempotentOnceVerified: assumes one section per adapter, as DSM returns them; the rule total of a section is not modelled.
- FirewallRules: port and source texts come parsed into tokens and addresses, and the reason text of a verdict is not modelled.
- FirewallGuard.GuardProbeIPs: printing a bound and parsing it again is taken to give the same address.
- TeamFolder.DestructiveIffSomeVersionIsLost: retention is newest-first with a count and an age limit (the fifo policy); what the smart policy thins out inside those limits is not in the code.
- InstallRun.ApplyInstallPlan: the hash and metadata checks before the loop are those of PlanApply.
- InstallRun.Nas.PackageInstall: the wait between polls; the deadline is the end of the sequence of polls.
- DiscoveryStore.Store.Merge: file system and JSON errors; of the device only the fields that decide key, order and record are kept.
- Text: ASCII only; Unicode folding and spacing are not modelled.
- Summary and warning lines are labels with their arguments, not English text.
- The other identity and share resources, Account Protection thresholds, enforced two-factor policy, firewall enable/disable and the local package install repeat the same protocol.
- HTTP clients, sessions, credentials, gateway entry points, CLI and MCP surfaces, and the read-only modules.
