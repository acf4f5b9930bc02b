# Verification of safeslop

This project models the parts of safeslop where a wrong step would matter most and proves what they promise,
for every input, every run and every crash point. The repository's own model check of the session protocol is
exhaustive but finite (two grants, revisions 0 to 2); the proofs here have no such bounds.

`dafny verify dfyconfig.toml` checks the whole project.

## What is modelled

**Session egress authority** (`ProtocolReducer`, `SessionRecord`, `ProtocolAdapter`, `AdapterLemmas`,
`EgressMachine`, `EgressSafety`, `EgressTheorems`, `EgressEffects`, `EgressDrivers`). A running session has a durable
record and a proxy that enforces some generation of it. `EgressMachine` is a step relation over a world in which the
disk may hold one of several records (after an uncertain commit), the proxy serves some generation or none, effects
have every outcome their contracts allow, and the driver may die between any two effects. `EgressTheorems` proves the
authority law, crash atomicity of every command with its recovery, exact success and cooperative recovery for every
run; `EgressEffects` proves what a grant, a revoke and a dismissal do to the rows, the acknowledgements and the
proxy, and when they are carried out. `EgressDrivers` holds the drivers in the shape of the source, as methods that
consult the modelled reducer and adapter, and proves that they follow the machine step by step and that the refusals
the source guards against cannot happen, except one (a colliding row id, below). The reducer itself is proved safe
for arbitrary grant sets and revision bounds.

**Proxy generations** (`Overlay`, `OverlayMeaning`, `PolicyOracle`, `ExactEgress`). The overlay text is given a
meaning by an interpreter of the ACL lines it uses, and that meaning, its injectivity and the policy oracle are
compared.

**The package catalog** (`Names`, `DependencyGraph`, `Catalog`, `InstallOrder`, `Resolver`, `CatalogEdit`).
Requires-closure, deterministic topological order, conflicts, pinning, validation, reverse closure and bumps.

**Host paths** (`HostPath`). The restartable symlink walk against a file system that may change between any two
calls, and the projection law.

**Credential leases** (`Lease`, `LeaseStop`). The timing of the renewal loop in 64-bit nanoseconds, and the
interleavings of the loop with `Stop`.

**Step protocols** (`PolicyMachine`, `PolicyTransaction`, `ForgejoGC`, `PtyHub`, `EventLog`). Atomic policy
replacement by many writers with process and machine crashes; discover, re-list, delete against an arbitrary
server; the single-client terminal hub.

**Text tables** (`Observations`, `Allowlist`). Denied-egress reports and the composed proxy allowlist.

## What turned out differently from what is promised

- The oracle's hard-deny list holds textual prefixes, so it also denies grantable names such as 10.example.com
  that the proxy overlay allows (`PolicyOracle.OracleHonoursOverlayIff`, `PolicyOracle.PrefixDenyContradictsGrant`).
- Denied-egress reports depend on line order when a log line reaches 64 KiB, because the scanner stops there
  (`Observations.OrderFreeIff`).
- Composing the allowlist is idempotent for one-line entries; an entry with a line break inside it can break that
  (`Allowlist.ComposeIdempotentIff`, `Allowlist.LineBreakBreaksIdempotence`).
- Reverse closure walks the package list while resolution walks the index, so with duplicate names they disagree
  (`CatalogEdit.DualIff`, `CatalogEdit.ShadowBreaksDuality`); validation rules duplicates out.
- The renewal delay overflows for lifetimes of 2^62 nanoseconds or more and becomes zero
  (`Lease.WaitsIffFits`, `Lease.OverlongLifetimeBreaksRate`).
- A terminal client accepted just before the listener closes can be left open (`PtyHub.LeftOpenIff`,
  `PtyHub.LateClientIsLeftOpen`).
- A grant whose freshly drawn row id collides with an existing one is refused rather than retried
  (`AdapterLemmas.WidenRefusedIff`).

## Assumptions

- Effects: a nil commit stored the candidate, an uncertain one left the old or the new record, any other error
  left the old one; an apply leaves the old or the target proxy whatever it reports; a positive inspect is right
  about the proxy; a nil teardown proves there is none, a failed one leaves it as it was or gone. The record that
  the next command reads is the one the disk holds from then on.
- Digests are compared symbolically; `OverlayMeaning.DigestStandsForBytes` and `OverlayMeaning.EqualDigestsAgree`
  say what that amounts to: no SHA-256 collision between overlay texts.
- A failed rename or link changes nothing, the file lock is exclusive and dies with its holder, and a synced file
  keeps its content.
- The clock of a lease is monotonic; sockets, the terminal, the server and the file system answer arbitrarily.
- The IP-literal parser recognises a fully qualified name only as a dotted quad.

## Model

| member | source | states |
|---|---|---|
| EgressTheorems.EveryRunBoundsRuntime | internal/cli/session_protocol.go:12-331 | In every run of grants, revokes, dismissals and recoveries, with a crash possible between any two effects and every effect outcome allowed, the authority the proxy enforces is within every record the disk may hold, and a record that says stopped never coexists with a live proxy |
| EgressTheorems.ShrinkNeedsProof | internal/cli/session_protocol.go:189-221 | A commit that would take authority away from a possible record is only ever requested after the last runtime effect observed exactly the candidate generation, or proved the runtime gone |
| EgressTheorems.EvidenceIsTrue | internal/engine/container/egress_grant_apply.go:39-51 | What an inspect or a teardown proved is still true of the proxy when the driver relies on it |
| EgressTheorems.SuccessIsExact | internal/cli/session_protocol.go:73-80 | Whenever recover, grant (duplicates included), revoke or dismiss returns nil there is one possible record, running, without a transition, its generation recorded as applied, and the proxy serves exactly that generation |
| EgressTheorems.CommandIsAtomic | internal/cli/session_protocol.go:94-317 | Any command, with the recovery it starts with, is crash atomic: until recovery ends, every record the disk may hold carries exactly the authority of the record the command read or the one its narrow marker names; from then on it carries what recovery left or the command's next authority |
| EgressTheorems.EveryCommandIsAtomic | internal/cli/session.go:1578-1658 | The same in every run, from every point at which a grant, revoke, dismiss or recovery has just read a record |
| EgressTheorems.RecoveryStep | internal/cli/session_protocol.go:94-221 | Each effect of recovery either stays in recovery over the same two authorities or ends it on one certain record that carries one of them |
| EgressTheorems.NoApplyAfterUncertainNarrow | internal/cli/session_protocol.go:285-299 | After an uncertain final narrow commit, of a revoke or of recovery, no further apply is issued; only teardown and the failure mark follow |
| EgressTheorems.CooperativeRecovery | internal/cli/session_protocol.go:94-141 | One recovery whose effects cooperate ends within four effects with no transition and proxy equal to record; the pending set is taken exactly when a narrow candidate was what the proxy served; a blocked record ends stopped with no proxy |
| EgressTheorems.CoopIsStep | internal/engine/container/egress_grant_apply.go:112-125 | The cooperative outcomes are among those the effect contracts allow, so that recovery is a run of the machine |
| EgressTheorems.EveryCandidateIsAcceptable | internal/engine/session/store.go:458-468 | Every record a driver asks the store to commit is valid and on the current version, so the store never answers stale or corrupt |
| EgressEffects.NilMeansDone | internal/cli/session.go:1578-1658 | Whenever a command answers nil it has been carried out on the record recovery left: a grant found a row of its destination or appended exactly its row, a revoke removed exactly the row of its id and kept the others in order, a dismissal set exactly that acknowledgement, and nothing else changed |
| EgressEffects.GrantGrants | internal/cli/session.go:1578-1609 | A nil grant: the record authorises the destination and the overlay the proxy enforces holds it |
| EgressEffects.RevokeRevokes | internal/cli/session.go:1637-1658 | A nil revoke: no row of that id is left, and unless the profile has the destination too it is out of the record and out of the enforced overlay |
| EgressEffects.ErrorUndoes | internal/cli/session.go:1523-1562 | A command that fails after its recovery leaves the rows and the revision recovery left, unless the record still runs under a marker; acknowledgements and profile rules are never touched |
| EgressEffects.CooperativeCommand | internal/cli/session.go:1578-1658 | With cooperative effects a command is carried out exactly when it is permitted (a grantable destination that is new with a free row id or already granted, an existing row id, a grantable destination to dismiss), and otherwise refused with nothing changed |
| EgressEffects.CooperativeFromStart | internal/cli/session_protocol.go:94-221 | Any command on any running record ends within eight cooperative effects: on a blocked record it fails with the proxy gone, on any other it is carried out exactly when it is permitted on what recovery left |
| EgressEffects.FailedGrantStops | internal/cli/session_protocol.go:56-91 | A grant that fails after its intent is durable ends stopped, without a proxy, on the rows it had before |
| EgressEffects.FailedRevokeRestores | internal/cli/session_protocol.go:256-331 | A revoke whose apply, inspect or final commit is known to have failed ends on the old rows with the proxy serving the old generation |
| EgressEffects.MarkTriedTwice | internal/cli/session.go:1500-1508 | The failure mark is committed with one retry and no more |
| EgressSafety.EffectKeepsInv | internal/cli/session_protocol.go:12-331 | Every effect, with any allowed outcome, keeps the inductive invariant at every driver position |
| EgressSafety.WidenIntentValid | internal/cli/session_protocol.go:12-92 | The record a grant first commits is valid and only adds authority |
| EgressSafety.NarrowIntentValid | internal/cli/session_protocol.go:231-260 | The record a revoke first commits is always valid and still carries the old authority |
| EgressSafety.TakeCandidateValid | internal/cli/session_protocol.go:189-221 | Taking a recorded narrow candidate gives a valid record with exactly the candidate generation and no more authority |
| SessionRecord.EffectiveIsAuthority | internal/cli/session.go:1675-1697 | The de-duplicated overlay of a record enforces exactly the union of persistent rules and grants |
| SessionRecord.DedupDistinct | internal/cli/session.go:1675-1697 | The overlay names no destination twice |
| SessionRecord.EffectiveStartsWithRules | internal/cli/session.go:1671-1696 | The overlay starts with the profile's rules as they are |
| SessionRecord.EffectiveMore | internal/cli/session.go:1678-1691 | and a further row adds its destination at the end exactly when it is new |
| SessionRecord.FindDestFinds | internal/engine/session/egress_grant.go:110-145 | A duplicate destination is found exactly when some row has it, and that row is the one returned |
| SessionRecord.WithoutIdFinds | internal/engine/session/egress_grant.go:169-185 | Revoking by id is refused exactly when no row has the id |
| SessionRecord.WithoutIdCuts | internal/engine/session/egress_grant.go:169-185 | Otherwise it removes exactly one row and keeps the order of the rest |
| SessionRecord.CutIsNarrower | internal/engine/session/store.go:172-189 | The store's one-grant-narrower matcher accepts every single removal from a list with distinct ids |
| SessionRecord.NarrowerIsOneRowLess | internal/engine/session/store.go:172-189 | The greedy matcher accepts a list when and only when it is the active one without one row |
| SessionRecord.NarrowerIsSubset | internal/engine/session/store.go:172-189 | Conversely whatever that matcher accepts only lost rows |
| SessionRecord.ValidAuthorityBuilds | internal/engine/session/store.go:191-216 | A record with valid authority always has a canonical generation |
| ProtocolReducer.EveryRunIsSafe | internal/engine/session/protocol.go:324-550 | The invariants of the repository's finite model that speak of one state (types, record shape, one owner, runtime within durable, agreement at rest, uncertainty blocks, stopped holds nothing, invalid persistence cannot succeed) hold in every state of every run, for any grant set and any revision bound |
| ProtocolReducer.OnlyExactOwnerHandsOff | internal/engine/session/protocol.go:368-378 | A hand-off or a release is only ever taken from a resting session held by exactly its first owner, and after a hand-off no claim, hand-off or release follows |
| ProtocolReducer.OwnerLife | internal/engine/session/protocol.go:324-378 | A stored claim makes the session run under exactly the first owner, a release takes it back, a hand-off passes it to exactly the second, detached |
| ProtocolReducer.NoReachableDeadlock | internal/engine/session/protocol.go:324-550 | Every reachable state accepts some event, for any bounds |
| ProtocolReducer.StoppedRequiresProvenTeardown | internal/engine/session/protocol.go:324-550 | A stopped state is preceded in its run by a proven teardown |
| ProtocolReducer.DurableShrinksOnlyAfterInspect | internal/engine/session/protocol.go:324-550 | Durable authority shrinks only to the generation the immediately preceding event inspected on the runtime |
| ProtocolReducer.StepKeepsPhase | internal/engine/session/protocol.go:324-550 | Every action keeps the phase invariant |
| ProtocolReducer.RunKeepsPhase | internal/engine/session/protocol.go:324-550 | Hence it holds along every run |
| AdapterLemmas.WidenEdges | internal/cli/session_protocol.go:12-92 | Every reducer edge the grant driver demands is accepted, with the exact next states |
| AdapterLemmas.WidenIntentProjected | internal/engine/session/protocol.go:1174-1217 | The grant driver's first candidate is the widen intent, and is refused exactly when that record is not valid |
| AdapterLemmas.WidenRefusedIff | internal/engine/session/egress_grant.go:110-145 | That refusal happens exactly when the freshly drawn row id is already taken |
| AdapterLemmas.WidenFinalProjected | internal/engine/session/protocol.go:1229-1235 | Its final candidate is the acknowledged record |
| AdapterLemmas.NarrowEdges | internal/cli/session_protocol.go:231-317 | Every reducer edge the revoke driver demands is accepted |
| AdapterLemmas.NarrowIntentProjected | internal/engine/session/protocol.go:1247-1252 | The revoke driver's first candidate is the narrow intent |
| AdapterLemmas.NarrowFinalProjected | internal/engine/session/protocol.go:1229-1235 | Its final candidate is the recorded narrow candidate taken |
| AdapterLemmas.RestoredProjected | internal/engine/session/protocol.go:1219-1227 | Both cleanup paths propose the old record without its marker |
| AdapterLemmas.VerifiedProjected | internal/engine/session/protocol.go:1078-1089 | Stable recovery proposes the record with its own generation recorded as applied, and generation equality is exact |
| AdapterLemmas.TransitionStatesAccepted | internal/engine/session/protocol.go:1006-1038 | A persisted transition of any recoverable record maps to its active and recovery states |
| AdapterLemmas.BaselineIsNotNarrowed | internal/engine/session/protocol.go:733-775 | The adapter's own baseline never doubles as the narrowed symbol |
| AdapterLemmas.RecoveryEdges | internal/cli/session_protocol.go:94-141 | Every reducer edge of recovery is accepted |
| AdapterLemmas.RecoveredProjected | internal/cli/session_protocol.go:177-187 | Recovery to the durable authority proposes the acknowledged record |
| AdapterLemmas.CandidateProjected | internal/cli/session_protocol.go:189-221 | Recovery to an inspected narrow candidate proposes that candidate |
| AdapterLemmas.BlockedStateAccepted | internal/engine/session/protocol.go:938-968 | Failing closed always finds a blocked state that keeps the record's authority bound |
| AdapterLemmas.StoppedProjected | internal/engine/session/protocol.go:1300-1314 | A proven teardown proposes the stopped record, with the restored authority when one is given |
| EgressDrivers.Transaction.Commit | internal/engine/session/store.go:458-468 | A commit is known new, uncertain or known old, is one step of the history, and only a known commit moves the locked record |
| EgressDrivers.Transaction.BeginApply | internal/engine/container/egress_grant_apply.go:39-51 | An apply, reported as succeeded or failed, leaves the old proxy or the target one |
| EgressDrivers.Transaction.Inspect | internal/engine/container/egress_grant_apply.go:112-125 | A positive inspect names what the proxy serves |
| EgressDrivers.Transaction.ApplyAndInspect | internal/engine/container/egress_grant_apply.go:39-125 | Apply followed by its acknowledgement succeeds only when the target is served |
| EgressDrivers.Transaction.Teardown | internal/cli/session.go:1537-1551 | A nil teardown proves there is no proxy; a failed one leaves it or removes it |
| EgressDrivers.RunWiden | internal/cli/session_protocol.go:12-92 | The grant driver follows the machine step by step to its end, for every effect outcome, and returns nil only with the machine's success |
| EgressDrivers.RunNarrow | internal/cli/session_protocol.go:231-317 | So does the revoke driver |
| EgressDrivers.FinishWiden | internal/cli/session_protocol.go:70-91 | The final commit of a grant: nil only on a known success, otherwise fail closed |
| EgressDrivers.FinishNarrow | internal/cli/session_protocol.go:284-316 | The final commit of a revoke: an uncertain one fails closed without a further apply, a known failure restores the old proxy and record |
| EgressDrivers.RestoreNarrow | internal/cli/session_protocol.go:319-331 | So does its clean-up after a failed apply |
| EgressDrivers.RecoverStable | internal/cli/session_protocol.go:143-162 | So does recovery of a record without a transition |
| EgressDrivers.ApplyDurable | internal/cli/session_protocol.go:164-175 | So does the re-apply of the durable generation |
| EgressDrivers.CommitRecovered | internal/cli/session_protocol.go:177-187 | So does the commit of a recovered record |
| EgressDrivers.CommitRecoveredNarrow | internal/cli/session_protocol.go:189-221 | So does the commit of an inspected narrow candidate |
| EgressDrivers.RecoverTransition | internal/cli/session_protocol.go:108-141 | So does recovery of a record with a transition |
| EgressDrivers.Recover | internal/cli/session_protocol.go:94-141 | Recovery as a whole ends at the command's own start with a stable record, or at failure |
| EgressDrivers.CommitFailureState | internal/cli/session.go:1500-1511 | The failure mark is attempted at most twice |
| EgressDrivers.FailClosed | internal/cli/session.go:1523-1562 | Teardown comes before any durable narrowing, and the mark that follows is the stopped or the uncertain record |
| EgressDrivers.GrantEgress | internal/cli/session.go:1582-1609 | Recovery, the append and the grant driver, with the machine's answer; on nil the destination is in the record's authority and in the overlay the proxy serves, by exactly one new row or by one that was there |
| EgressDrivers.RevokeEgress | internal/cli/session.go:1641-1658 | Likewise; on nil the row of that id is gone, the others are kept in order, and the proxy serves the new record |
| EgressDrivers.DismissObservation | internal/cli/session.go:1615-1635 | Likewise; on nil that destination is acknowledged at that time and every other acknowledgement is kept |
| EgressDrivers.NilIsExact | internal/cli/session.go:1578-1658 | A nil answer leaves a running record without a transition and a proxy that serves exactly it |
| EgressDrivers.HistoryIsBounded | internal/cli/session_protocol.go:12-331 | Every point of a command's history, hence every point at which it may be killed, keeps the proxy within every possible record |
| Overlay.Render | internal/engine/egress/generation.go:42-55 | The builder loop writes exactly the three lines of each destination, in order |
| Overlay.Build | internal/engine/egress/generation.go:26-40 | A generation is built exactly for a non-negative revision and destinations that are their own normal form |
| OverlayMeaning.PatternIsExact | internal/engine/egress/generation.go:49-50 | The escaped, anchored pattern matches its host and no other text |
| OverlayMeaning.OverlayMeansItsDestinations | internal/engine/egress/generation.go:26-55 | Read by an ACL interpreter, the text allows a host and port exactly when that pair is one of the destinations |
| OverlayMeaning.BodyInjective | internal/engine/egress/generation.go:37-39 | Equal texts come from equal revisions and equal destination lists |
| OverlayMeaning.EqualDigestsAgree | internal/engine/egress/generation.go:38-39 | Equal digests mean equal revision and destinations, or exhibit a digest collision |
| OverlayMeaning.DigestStandsForBytes | internal/engine/egress/generation.go:26-40 | The symbolic digest of the session record is equal exactly when the overlay bytes are |
| PolicyOracle.IsHardDenied | internal/engine/container/policy.go:29-44 | The search loops decide the hard-deny predicate |
| PolicyOracle.DecideWithGrants | internal/engine/container/policy.go:98-121 | The oracle: hard denies first, then open mode, then grants, then the static allowlist |
| PolicyOracle.DecisionCases | internal/engine/container/policy.go:29-123 | Private and metadata names are denied in every mode, IP literals exactly outside open mode, everything else passes in open mode and otherwise as a granted pair or by a covering list entry |
| PolicyOracle.EntryCovers | internal/engine/container/policy.go:115-120 | A list entry, with or without its dot, covers its name and everything under it |
| PolicyOracle.OracleReadsTheOverlay | internal/engine/container/policy.go:98-121 | In deny mode the oracle allows exactly what is not hard denied and is allowed by the overlay text or the static list |
| PolicyOracle.OracleHonoursOverlayIff | internal/engine/container/policy.go:16-44 | The oracle honours every pair the overlay allows exactly when no granted name starts with a blocked textual prefix |
| PolicyOracle.GrantableHardDenied | internal/engine/container/policy.go:29-44 | A grantable destination is hard denied exactly when its name starts with a blocked prefix |
| PolicyOracle.PrefixDenyContradictsGrant | internal/engine/container/policy.go:16 | 10.example.com:443 is grantable and allowed by the overlay, and the oracle denies it |
| DependencyGraph.ReachedIsLeastClosed | internal/engine/policy/resolve.go:61-88 | What is reached from the seeds is the least requires-closed set that holds them |
| DependencyGraph.GreedyIsLeast | internal/engine/policy/resolve.go:159-175 | Placing the least ready name each time gives the dictionary-least of all topological orders |
| DependencyGraph.LeastTopologicalUnique | internal/engine/policy/resolve.go:131-135 | That order is unique, so input order and map iteration cannot show |
| DependencyGraph.StuckReachesCycle | internal/engine/policy/resolve.go:176-187 | When nothing is ready, the names left over are exactly those from which a requires-cycle is reached |
| DependencyGraph.TopologicalIffAcyclic | internal/engine/policy/resolve.go:131-188 | An order is found exactly when the restricted relation has no cycle, self edges included |
| Names.SortedListingUnique | internal/engine/policy/resolve.go:107-110 | A set has one sorted duplicate-free listing |
| Names.LeIsDictionaryOrder | internal/engine/policy/resolve.go:131-188 | Names are ordered by prefix or by the first byte that differs |
| Names.LexLeIsDictionaryOrder | internal/engine/policy/resolve.go:131-188 | and lists of names by the first name that differs |
| Names.Sort | internal/engine/policy/resolve.go:158 | Sorting permutes and orders |
| Catalog.NewCatalog | internal/engine/policy/catalog.go:153-168 | The index loops: the last package of a name wins |
| Catalog.ViewShowsLast | internal/engine/policy/catalog.go:153-168 | What the resolver sees is the last package and the last bundle of each name: its requires, conflicts and runtime egress, and its packages |
| Catalog.GatherSeeds | internal/engine/policy/resolve.go:35-53 | The seeds: agent default bundle, declared bundles, packages, or the first bundle that is missing |
| Catalog.SeedsAreAskedFor | internal/engine/policy/resolve.go:36-53 | The seeds are exactly the packages the profile lists, those of its bundles and those of the bundle its agent implies, or the first missing bundle is refused |
| Catalog.Closure | internal/engine/policy/resolve.go:55-83 | The queue loop returns each reached known name once, or an unknown name that is reached |
| InstallOrder.CountEdges | internal/engine/policy/resolve.go:136-150 | In-degrees and dependents count every requirement, duplicates and self edges included |
| InstallOrder.Release | internal/engine/policy/resolve.go:165-175 | Releasing dependents lowers each count by its multiplicity and readies exactly those that reach zero |
| InstallOrder.Topo | internal/engine/policy/resolve.go:131-188 | Topological sort: the dictionary-least order when the names are acyclic, else exactly the names above a cycle, sorted |
| Resolver.FindConflict | internal/engine/policy/resolve.go:90-102 | A conflict is reported exactly when two members of the closure conflict in either direction |
| Resolver.UnionEgress | internal/engine/policy/resolve.go:113-123 | Runtime egress is the sorted union over the closure |
| Resolver.Resolve | internal/engine/policy/resolve.go:34-125 | The resolver returns a resolution, or a refusal that holds of the profile: an unknown package the seeds reach, a conflict when all they reach is known, or the sorted names that run into a cycle when in addition nothing conflicts |
| Resolver.RefusalIsRight | internal/engine/policy/resolve.go:34-125 | A refusal means that no resolution exists |
| Resolver.AnswerIsExact | internal/engine/policy/resolve.go:34-125 | Which answer a profile gets is determined: unknown is reported exactly when an unknown package is reachable, a conflict exactly when none is and two reached packages conflict, a cycle exactly when neither holds and one is reached, and a resolution exactly when none of the three holds |
| Resolver.BundleRefusalIsExact | internal/engine/policy/resolve.go:36-51 | A bundle refusal happens when and only when a declared bundle or the one the agent implies is missing, and names that one, the implied one first and then the first missing in order |
| Resolver.IdentityIsAskedFor | internal/engine/policy/resolve.go:34-88 | A name is installed exactly when requires edges lead to it from a package the profile lists, a package of one of its bundles, or one of the bundle its agent implies unless bareAgent |
| Resolver.ResolutionIsSound | internal/engine/policy/resolve.go:34-125 | Everything a resolution reaches is known, free of cycles and of conflicts |
| Resolver.ResolutionUnique | internal/engine/policy/resolve.go:83-86 | A profile has at most one resolution |
| Resolver.IdentityIsLeast | internal/engine/policy/resolve.go:61-88 | The identity set is the least requires-closed superset of the seeds |
| Resolver.PinResolvesTheSame | internal/cli/session.go:814-817 | Re-resolving a session's pinned identity set without the agent bundle gives back the same resolution, order and egress included |
| CatalogEdit.ReverseClosure | internal/engine/policy/catalog_edit.go:252-282 | The queue loop returns exactly the other packages from which the root is reached, sorted; unknown roots are refused |
| CatalogEdit.DualIff | internal/engine/policy/catalog_edit.go:252-282 | Reverse closure is dual to the resolver's closure exactly when no shadowed duplicate adds a requirement the index does not reach |
| CatalogEdit.DistinctIsDual | internal/engine/policy/catalog_edit.go:252-282 | Distinct package names, which validation demands, are enough |
| CatalogEdit.ShadowBreaksDuality | internal/engine/policy/catalog_edit.go:260-265 | With a duplicate name it fails: a package is reported as affected that never pulls the root in |
| CatalogEdit.Validate | internal/engine/policy/catalog.go:205-275 | Validation accepts exactly the consistent catalogs: distinct names, resolvable targets, pinned digests, no over-wide egress, no requires-cycle |
| CatalogEdit.ValidIffSound | internal/engine/policy/catalog.go:205-275 | Accepted catalogs, entry by entry: named and pinned packages of known kinds, real digests of both architectures for binaries, known references, dotted egress names, distinct names, resolvable defaults, no cycle |
| CatalogEdit.ValidCatalogAnswers | internal/engine/policy/catalog.go:205-275 | Against a valid catalog a profile is refused only for a bundle or package it lists itself that is not there, or for a conflict |
| CatalogEdit.BumpPackage | internal/engine/policy/catalog_edit.go:63-144 | A bump succeeds only through its gates, yields a valid catalog that differs in that package's version and digests alone, and reports the reverse closure; from a valid catalog it succeeds whenever the gates allow it |
| CatalogEdit.BumpWrites | internal/engine/policy/catalog_edit.go:63-144 | A bump writes the version and, for a binary, exactly the two build architectures' digests as given, real ones; every other field and package is as it was |
| CatalogEdit.BumpKeepsValid | internal/engine/policy/catalog_edit.go:118-144 | The edited catalog of a valid one is valid and looks the same to the resolver |
| CatalogEdit.BumpKeepsResolutions | internal/engine/policy/catalog_edit.go:118-144 | A bump changes no profile's resolution and no refusal |
| CatalogEdit.AffectedIsExact | internal/engine/policy/catalog_edit.go:252-282 | A profile installs the bumped package exactly when one of its seeds is that package or in the reported blast radius |
| HostPath.OpenPinnedPath | internal/engine/hostpath/core.go:203-381 | Against an arbitrary changing file system the walk ends after at most 40 dereferences, none repeated; from a non-escaping start an opened path is made of plain names, is where its followed links lead, was last reached through non-links only, and keeps the caller's law |
| HostPath.WalkOnce | internal/engine/hostpath/core.go:207-379 | One pass over the components up to the first link; a refusal is the one that the entry it ended on calls for: unavailable when missing or denied, a loop exactly for a repeated link or a forty-first, the source type for a special or a non-directory on the way |
| HostPath.FollowLink | internal/engine/hostpath/core.go:224-285 | A followed link that goes up k directories and down some names leads from its own directory exactly there and then along the rest, an absolute one to its names below the root; never outside the root, and it passes the law |
| HostPath.CleanShape | internal/engine/hostpath/core.go:460-472 | A cleaned path is dot-dots followed by plain names, and only plain names when rooted |
| HostPath.CleanPlain | internal/engine/hostpath/core.go:460-468 | Cleaning a path of plain names again changes nothing |
| HostPath.DotDotTakesBack | internal/engine/hostpath/core.go:262 | A dot-dot takes back the name before it and nothing else, wherever the two stand |
| HostPath.DotsDoNothing | internal/engine/hostpath/core.go:262 | Empty fields and single dots do nothing |
| HostPath.LeadingDotDot | internal/engine/hostpath/core.go:262 | A leading dot-dot stays in a relative path and vanishes at the root |
| HostPath.DotDotsTakeBack | internal/engine/hostpath/core.go:262 | k dot-dots after plain names take back the last k of them and any more stick out in front |
| HostPath.RedirectLeads | internal/engine/hostpath/core.go:254-263 | A relative target that goes up k directories and down some names leads from the directory of its link exactly there, or escapes; an absolute one leads to its own names below the root |
| HostPath.StrictTargetExact | internal/engine/hostpath/core.go:435-458 | An absolute target is accepted exactly when it is the root's text followed by one or more plain names, and those names are returned |
| HostPath.UnderRootIsPrefix | internal/engine/hostpath/projection.go:717-720 | The textual containment test is containment of components |
| HostPath.LawCode | internal/engine/hostpath/projection.go:699-715 | The law code in its order of checks |
| HostPath.LawfulMeans | internal/engine/hostpath/projection.go:699-715 | Lawful text is exactly a component path properly inside home or the config directory, outside every excluded root, and not a cargo credentials file |
| HostPath.SecretsAreKeptOut | internal/engine/hostpath/projection.go:582-598 | Nothing lawful lies under the named credential, configuration and cache directories |
| HostPath.OpenProjected | internal/engine/hostpath/projection.go:582-598 | An opened projection source is a proper descendant of its root and keeps the law its start obeyed |
| Lease.Wrap | internal/engine/creds/lease.go:162-165 | The wrapped duration is the 64-bit value congruent to the exact one, and the exact one when it fits |
| Lease.TwoThirdsExactlyBelowOverflow | internal/engine/creds/lease.go:162-168 | The two-thirds delay is right exactly below 2^62 nanoseconds; from there on the product wraps and the delay is zero |
| Lease.LeaseRetryDelay | internal/engine/creds/lease.go:234-246 | The doubling loop computes the initial retry times a power of two, capped at five minutes |
| Lease.BoundedJitter | internal/engine/creds/lease.go:255-267 | Jitter never shortens the delay, never exceeds a fifth more or the cap, and passes values in range through |
| Lease.Lease.ExpiredAt | internal/engine/creds/lease.go:183-202 | Expired exactly from the nearer of expiry and horizon on |
| Lease.Lease.NextDelay | internal/engine/creds/lease.go:149-173 | Terminal from the deadline on; otherwise a healthy lease waits two thirds of its remaining life to the nanosecond, or to a nearer horizon, and a degraded one its retry delay, clipped at the deadline |
| Lease.HealthyRenewsInTime | internal/engine/creds/lease.go:120-173 | A healthy lease with fitting life has a turn that renews, no later than two thirds of its life, exactly when the horizon lies beyond that point |
| Lease.DegradedRetries | internal/engine/creds/lease.go:160-173 | A degraded lease retries exactly when its retry delay ends before the deadline |
| Lease.Lease.SetRenewalFailure | internal/engine/creds/lease.go:212-221 | A failure counts one attempt and sets a retry within the jitter bounds of that attempt |
| Lease.Lease.SetRenewalSuccess | internal/engine/creds/lease.go:223-232 | A success resets attempts and takes the new expiry |
| Lease.Lease.AwaitTurn | internal/engine/creds/lease.go:124-138 | A turn comes only before the deadline and spaced from the previous call |
| Lease.Lease.Renew | internal/engine/creds/lease.go:139-145 | One call is made, at the checked time, and its answer is taken exactly when ten minutes of life are left |
| Lease.Lease.Run | internal/engine/creds/lease.go:120-147 | Along any number of rounds every call starts before the expiry in force and the horizon, at least five seconds after a failure and 400 seconds after a success of fitting lifetime, and the rounds are turns of the loop: the timer armed after the last outcome ran its delay |
| Lease.RateBound | internal/engine/creds/lease.go:120-173 | Before a horizon at most one call fits in every five seconds |
| Lease.WaitsIffFits | internal/engine/creds/lease.go:162-173 | After a usable renewal the loop waits 400 seconds, or to the deadline, exactly when less than 2^62 nanoseconds of life remain, and from there on it does not wait |
| Lease.OverlongLifetimeBreaksRate | internal/engine/creds/lease.go:120-173 | From any healthy lease with that much life or more the loop may make any number of calls in one nanosecond before the deadline |
| LeaseStop.StopQuiesces | internal/engine/creds/lease.go:286-311 | Once Stop has returned, no callback starts and no timer is armed, in every interleaving |
| LeaseStop.WaitEnds | internal/engine/creds/lease.go:296-304 | While Stop waits, the loop has exited or can move |
| LeaseStop.RoundsGoOn | internal/engine/creds/lease.go:120-147 | Undisturbed the loop runs any number of rounds, each with one timer and one Renew |
| LeaseStop.FirstStopIsNotEnough | internal/engine/creds/lease.go:301-309 | A run in which the first stop finds no timer and a later one is still armed when the loop exited |
| PolicyMachine.OutcomesAreTrue | internal/engine/policy/transaction.go:45-55 | A known failure never changed the file; any other outcome changed it exactly once, to the whole content |
| PolicyMachine.CommittedIsDurable | internal/engine/policy/transaction.go:98-142 | When known-committed is decided the whole content is visible and survives a machine crash; when uncertain it is visible |
| PolicyMachine.CrashRevealsWhole | internal/engine/policy/transaction.go:116-121 | A machine crash reveals a whole content because every published file was synced first |
| PolicyMachine.ReadersSeeWhole | internal/engine/policy/transaction.go:98-142 | No reader ever opens a partial file |
| PolicyMachine.NoLostUpdate | internal/engine/policy/transaction.go:57-75 | Every change starts from what the previous one left, and a call with an expected hash, or create-only, replaced exactly that |
| PolicyMachine.MutualExclusion | internal/engine/policy/transaction.go:77-96 | Two calls are never between check and write together |
| PolicyMachine.OthersKeepOut | internal/engine/policy/transaction.go:77-96 | While a call holds the lock no step of another call changes the file, and no other call ever moves it on or writes in its name |
| PolicyMachine.UnguardedLosesUpdates | internal/engine/policy/transaction.go:57-75 | Two calls with neither guard, of any contents, both under way before anything is written: both report success and the second has replaced what the first committed |
| PolicyMachine.StepKeepsInv | internal/engine/policy/transaction.go:57-142 | Every step of any writer, process crash, machine crash or arrival keeps the invariant |
| PolicyTransaction.Call.ReplacePolicyAtomic | internal/engine/policy/transaction.go:45-55 | The call follows the machine with any steps of other calls between its own; since it got the lock a known failure left the file as it was, anything else published the approved content once, and known-committed left only that for a crash to reveal; when no effect fails it commits exactly if the file it found is the wanted one |
| PolicyTransaction.Call.ReplaceUnderLock | internal/engine/policy/transaction.go:57-75 | Read, check, write under the lock; when no effect fails it writes exactly if there is no file for a create-only call, the file has the expected hash if one was named, and validation passed |
| PolicyTransaction.Call.WritePolicyAtomic | internal/engine/policy/transaction.go:98-142 | Fill, sync, publish, settle, with the failure class of each step |
| PolicyTransaction.Call.Settle | internal/engine/policy/transaction.go:122-142 | After publishing, every failure is uncertain and none undoes the write |
| ForgejoGC.Targets | internal/cli/creds_gc.go:198-234 | Every request valid and linked, duplicates dropped, in the order of first mention |
| ForgejoGC.ListKeys | internal/cli/creds_gc.go:247-281 | A listing is complete only over the target's consecutive non-empty pages ended by an empty one, first key of each id, none malformed; and the answer to the last page determines what the listing is |
| ForgejoGC.EveryIdKept | internal/cli/creds_gc.go:273-276 | Every id listed stays represented |
| ForgejoGC.KeptIsFirst | internal/cli/creds_gc.go:247-280 | A listing holds exactly the first key of each id over all pages |
| ForgejoGC.HasExactKey | internal/cli/creds_gc.go:283-290 | The recheck wants the same id with the same title |
| ForgejoGC.Discover | internal/cli/creds_gc.go:129-157 | Rows and candidates are those of the listings, in order, each read from its own target |
| ForgejoGC.DeleteOne | internal/cli/creds_gc.go:166-195 | A DELETE is sent exactly when the re-list still holds the id and title, naming that repository and id; the row follows the outcome |
| ForgejoGC.RunGC | internal/cli/creds_gc.go:106-196 | Nothing is deleted in a dry run or after a failed discovery; otherwise each candidate gets one guarded step |
| ForgejoGC.DeletesAreSafe | internal/cli/creds_gc.go:106-196 | A DELETE names a requested repository and a key whose id and exact title were in its complete discovery and in the re-list just before; no key gets two |
| ForgejoGC.EveryStaleKeyIsFound | internal/cli/creds_gc.go:141-150 | Every key of a complete listing with the exact title is a candidate, exactly once |
| ForgejoGC.EveryStaleKeyIsSettled | internal/cli/creds_gc.go:163-196 | After a run that deletes, each such key has exactly one step and a row of its own, which says deleted exactly when its DELETE succeeded |
| ForgejoGC.KeylessTargetRow | internal/cli/creds_gc.go:128-153 | A repository that is not there, could not be listed or has no such key has exactly one row, with count 0, and no candidate |
| ForgejoGC.RowStandsForKey | internal/cli/creds_gc.go:141-150 | When it has such keys, each of its rows stands for exactly one of them |
| ForgejoGC.CandidatesOwnRows | internal/cli/creds_gc.go:145-150 | Every candidate has its own found row |
| ForgejoGC.RowsTellTheTruth | internal/cli/creds_gc.go:166-195 | Each candidate's row ends matching its own step, deleted exactly when its DELETE succeeded |
| PtyHub.EveryClientSeesAStretch | internal/cli/supervise.go:239-260 | Each client receives a contiguous in-order stretch of chunks, and an exit frame only after it, once |
| PtyHub.AttachedClientIsCurrent | internal/cli/supervise.go:178-203 | While a client is attached it has been sent exactly the chunks from the first one read after it took the slot on, all but one now being written to it, and all of them once the terminal is drained |
| PtyHub.OnlyOwnDropEvicts | internal/cli/supervise.go:335-342 | A client loses the slot only to its own drop or the final close, and the slot is never handed on |
| PtyHub.SlotNeverReturns | internal/cli/supervise.go:295-313 | A client that left the slot never holds it again |
| PtyHub.StepKeepsInv | internal/cli/supervise.go:239-352 | Every step of reader, accept loop, pumps and teardown keeps the invariant |
| PtyHub.RunKeepsAccounted | internal/cli/supervise.go:295-352 | Every accepted client is at every moment either waiting for the accept loop, in the slot, or closed or about to be closed by a thread, and only one of these |
| PtyHub.LeftOpenIff | internal/cli/supervise.go:191-196 | Once shutdown is over a client is left open exactly when it holds the slot, which is exactly when it took the slot after the final close had emptied it and its pump has not let go; it has been sent nothing |
| PtyHub.LateClientIsLeftOpen | internal/cli/supervise.go:191-196 | That happens: a client accepted just before the listener closes ends up in the slot, never closed and without an exit frame |
| PtyHub.AcceptorVerdict | internal/cli/supervise.go:295-311 | A free slot goes to the accepted client, a taken one stays as it is and the client is refused |
| PtyHub.HangingUpFrees | internal/cli/supervise.go:315-342 | A client that hangs up can leave the slot and be closed by its own pump, and an earlier client's slot is untouched |
| PtyHub.StayingClientGetsAll | internal/cli/supervise.go:239-352 | For any number of chunks there is a run in which a client that stays gets all of them and the exit frame and is closed |
| EventLog.Log.Tee | internal/cli/supervise.go:262-289 | Counted bytes never exceed a positive cap, at most one marker, nothing after it, and without write failures the log is the output up to the truncation; a chunk is written exactly when the log is present, not truncated and the write succeeds |
| Observations.Parse | internal/engine/container/egress_observation.go:36-66 | The map and sort loops compute the report of the lines that are read |
| Observations.ReportReadsLines | internal/engine/container/egress_observation.go:36-97 | Each row counts the lines before the first over-long one that deny its destination, and carries the latest time any of them gives; every denied destination has a row |
| Observations.ByHostThenPort | internal/engine/container/egress_observation.go:60-75 | Rows are ordered by host and then by port |
| Observations.ReportIsOrderFree | internal/engine/container/egress_observation.go:36-66 | The report depends only on the multiset of denials |
| Observations.CountsAddUp | internal/engine/container/egress_observation.go:44-53 | Counts add up to the number of denials read |
| Observations.OrderFreeIff | internal/engine/container/egress_observation.go:37-42 | The multiset of lines determines the report exactly when no line is over-long or none is a denial |
| Observations.OrderMatters | internal/engine/container/egress_observation.go:37-42 | The two orders that show it otherwise |
| Observations.Filter | internal/cli/session.go:248-264 | The filter keeps exactly the rows that are not hidden, in order |
| Observations.PendingIff | internal/cli/session.go:248-264 | A row is hidden exactly when its destination's last acknowledgement is not before its last denial |
| Observations.ShownIffNotAcknowledged | internal/cli/session.go:248-264 | With one acknowledgement per destination a row is shown exactly when none of its destination is as late as its last denial |
| Observations.LastAckDecides | internal/cli/session.go:252-261 | With several the last one decides |
| Observations.PendingInOrder | internal/cli/session.go:256-263 | The rows that stay keep their order |
| Observations.LaterDenialReappears | internal/cli/session.go:245-264 | With one acknowledgement per destination a strictly later denial brings the row back |
| Allowlist.ComposeAllowlist | internal/engine/container/launch.go:129-170 | The loops compute the composed text |
| Allowlist.ComposeKeepsReach | internal/engine/container/launch.go:129-170 | Exactly the inputs' domains stay reachable, host by host |
| Allowlist.ComposeHasNoOverlap | internal/engine/container/launch.go:147-169 | No duplicates and no bare entry equal to or under an emitted wildcard |
| Allowlist.KeptInOrder | internal/engine/container/launch.go:162-169 | First-seen order is kept |
| Allowlist.TrimCuts | internal/engine/container/launch.go:132-145 | Trimming takes space off both ends and nothing else |
| Allowlist.FirstSeenInOrder | internal/engine/container/launch.go:132-146 | Entries stand in the order in which the inputs first name them |
| Allowlist.ReachesMeans | internal/engine/container/launch.go:147-161 | A bare entry is its own name; one with a dot is also every name under it |
| Allowlist.TextIsEntriesIff | internal/engine/container/launch.go:170 | The proxy reads back exactly the entries when and only when no entry has a line break inside it |
| Allowlist.ComposeFixedIff | internal/engine/container/launch.go:129-170 | A text is left alone by composing again exactly when its lines are settled: distinct, trimmed, not empty and without overlap |
| Allowlist.ComposeIdempotent | internal/engine/container/launch.go:129-170 | Composing twice is composing once when no extra entry has a line break inside it after trimming |
| Allowlist.ComposeIdempotentIff | internal/engine/container/launch.go:129-170 | Composing twice is composing once exactly when the lines that the surviving inputs break into are trimmed, not empty, all different and not covered by a wildcard among them |
| Allowlist.LineBreakBreaksIdempotence | internal/engine/container/launch.go:132-139 | With such an entry it need not be |
| Text.SplitJoin | internal/engine/hostpath/core.go:460-468 | Splitting undoes joining of separator-free fields |
| Text.JoinSplit | internal/engine/hostpath/core.go:460-468 | Joining undoes splitting, for every text |
| Text.DecimalInjective | internal/engine/egress/generation.go:49-51 | Different numbers have different numerals |
| Text.DecimalDenotes | internal/engine/egress/generation.go:26-55 | A numeral denotes its number and has no leading zero |
| ExactEgress.OctetIsByte | internal/engine/policy/policy.go:255-285 | The octets of a dotted quad are the numerals of 0 to 255 |
| ExactEgress.GrantableCharacters | internal/engine/policy/policy.go:255-285 | A grantable host consists of lower-case letters, digits, hyphens and dots, is none of the reserved names, and its port is 80 or 443 |
| ExactEgress.LabelHyphens | internal/engine/policy/policy.go:255-285 | A label may have inner hyphens, none at an end, and no other character |

## Left out

- EgressDrivers.Recover: starts on a running record; on any other the source answers nil without an effect.
- ProtocolReducer.OnlyExactOwnerHandsOff: the reducer's events carry no ownership token, so the finite model's exact-live evidence is read off the owner in the state; the signal action is not a reducer edge.
- Lease.RateBound: stated for lifetimes below 2^62 nanoseconds, because beyond them the code does not keep the rate (OverlongLifetimeBreaksRate).
- Lease.Lease.Run: stated for any number of rounds, since without a horizon the loop need not end.
- HostPath.OpenProjected: stated for starts that do not escape the root, as the callers check; the law is not claimed for the children of a glob, which the source does not check.
- HostPath.OpenPinnedPath: dot-dot in a link target is resolved lexically, as the source does, not through the linked directory; descriptors, mount ids and the later revalidation of retained edges appear only as outcomes.
- CatalogEdit.BumpPackage: the channel, scheme and ordering gates on versions are one arbitrary function, so no monotonic floor is claimed; sharing of slices and maps between the old and new catalog is not modelled.
- Observations.Parse: lines are sequences of bytes; the line parser is an arbitrary function of the line, and the grantability text of a row, a function of host and port, is omitted.
- ForgejoGC.ListKeys: JSON decoding, URL escaping, tokens and timeouts are outside; ids are compared as the text of the JSON number, as the source does, so 1 and 1.0 count as two keys.
- PtyHub.EveryClientSeesAStretch: frames are delivered whole or not at all; partial writes end the client.
- EventLog.Log.Tee: bytes of a failed write, and of the marker, are not counted against the cap, as in the source.
- PolicyOracle.DecideWithGrants: the static allowlist asset and the squid configuration template are not part of this model.
- Overlay.Build: lower-casing and trimming of hosts happen before; the builder accepts only their fixed points.
- Sessions that are created, launched, claimed, handed off, stopped or reconciled, and the reducer actions' concrete owners and process ids.
- Grant sources, creation times, other timestamps and the JSON form of the record.
- Removal of temporary files after a failed policy replacement, and the validation callback beyond its verdict.
- Power loss that undoes a record commit after the next command has read it.
- A proxy that dies on its own between commands.
- Lost updates by profile egress commands that pass no expected hash, beyond UnguardedLosesUpdates.
- Command-line parsing, JSON envelopes, the Emacs interface, profile evaluation and lint, image garbage collection, package-lock and proxy-image validation: they would add only easy members.
