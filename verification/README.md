# Verified models of a private-wallet data plane

The project models four parts of the repository and proves what they promise.

**Corpus journal** (`Journal*`, `Key*`, `LegacyMigration`, `Utf8`, `WalletNamespace`). A proof-of-innocence corpus is
stored as a base record, numbered deltas, an optional snapshot of blocked shields and a head. Writers
commit by compare-and-swap; an independent audit reads everything back. Tables are maps from
structured keys to rows, a write transaction is one atomic step, and a row is either the record that
was encoded or bytes that do not decode. `JournalKeys` and `KeyRange` show that the textual keys and
prefix scans realise the structured keys, and exactly when they do not.

**Corpus cache** (`Merkle`, `Poi*`). The cache holds a forest of depth-16 trees, statuses, blocked
shields and two cursors. It is synchronised from a peer that may answer anything, captures what it
read as a delta, and is rebuilt by replaying deltas beside an incrementally updated dense tree.
The hash is any two-to-one function. `PoiAgree` and `CorpusJournal` join journal and cache: what
syncs capture and appends store is what loading gives back, over every history.

**Indexed artifacts** (`Stream*`, `CatalogListing`, `Chunk*`, `Wire`, `ArtifactKinds`, `Sorting`). Chunks and catalogs
are published in generations with overlapping ranges. The stream planner folds them into one current
view, the chunk planner packs items by size, and chunk files carry a header with a section table.

**Spending keys** (`Modular`, `BabyJub`, `CyclicPowers`, `Eddsa`). Baby Jubjub addition (ERC-2494)
with few multiplications, double-and-add, pruning as in section 5.1.5 of RFC 8032, and the signing
equation. Hash functions and the field inverse are uninterpreted. Associativity on the multiples of
the base point and the order of that point are a stated hypothesis (`Eddsa.GroupLaws`,
`Eddsa.EdwardsGroupLaws`) of the results that need them.

Objects that the program updates in place are classes (`DbStore`, `WalletStore`, `LegacyStore`,
`PoiCache`, `DenseMerkleTree`, `JournalReplay`, `ArtifactStreamPlanner`, `ChunkPlanner`, `Cursor`);
their methods are proved against functions on values, and the theorems are about those functions.
Beside each such function stands what it decides, written on the rows, pages, keys or listings alone:
`JournalExact` and `JournalAudit` for conditions and audit, `LegacyMigration` for the key rules,
`PoiPlaces` and `PoiPages` for the cache, `StreamComplete`, `StreamListing` and `CatalogListing` for
the planner, `ChunkBytes` for chunk files.

Where a promise turned out to hold only under a condition, the condition is stated exactly and a
family of counterexamples is proved beside it:

- An append keeps the journal sound if and only if it is admissible (`AppendAgreesExactly`): it may
  not be head-only, its delta may not run backwards, its condition must describe the base truthfully,
  the base must carry the current generation, and the written rows must fit the caps that only the
  audit checks.
- A commit moves its corpus forward if and only if the head it writes fits the row cap that only
  readers enforce (`CommitAdvances`). Conditions that expect no journal or an implicit base are always
  single-use; the others are as long as no oversized head is written (`ConditionsAreSingleUse`), and
  oversized heads open them again for every commit at every revision
  (`OversizedHeadReopensCondition`, `OversizedHeadReopensRepair`, `LongTextCommits`).
- A base may be put under a journal if and only if it keeps the foundation (`PutAgreesExactly`).
- Textual identity scans are exact if and only if no identity hides in another's key space
  (`IdentityScanExactly`, `SomeIdentityHides`).
- A superseded range counts as covered if and only if it is covered and its candidates do not break
  off (`CoveredExactly`); a whole family of plans is refused although everything is covered
  (`RefusedWithoutHole`, `NestedIsListed`).
- Split coverage is the newest listed coverage exactly where the checkpoint of that catalog keeps it
  (`PlannedCoverageIsNewest`).
- Two indexes share a place in the forest if and only if they are equal modulo 2^48
  (`SamePlaceExactly`); with the cursor below that, leaves lie under it if and only if none was placed
  at the last 64-bit index (`StepStaysBelow`, `LeavesBelowOverRun`, `LastIndexEscapes`).
- The dense tree of a replay mirrors the forest if and only if it was extended or its tree held nothing
  past the tip (`TipMirrorsExactly`), which is always so up to 2^48 leaves and not after
  (`TipMirrorsBelow`, `WrappedTipMisses`).
- Two migrated rows meet if and only if they name the same thing (`MetaTargetsMeetExactly` and its
  companions), which two spellings of one key do (`SpellingsConflict`).
- Decoding undoes encoding if and only if the version and the size limit allow it (`RoundTrip`);
  re-encoding gives the same bytes if and only if the contract was spelled canonically (`ReEncode`).
- A canonical UTXO row survives a second migration if and only if its id has no separator
  (`CanonicalUtxoKeptExactly`).

Run `dafny verify dfyconfig.toml` to verify everything.

## Model

| member | source | states |
|---|---|---|
| JournalStore.DbStore.InspectJournal | crates/local-db/src/lib.rs:2695-2966 | the audit answers Valid exactly when base, head, deltas and snapshot fit together row by row and Missing exactly when no row is stored; the bundle holds those rows and the token names them |
| JournalAudit.SoundExactly | crates/local-db/src/lib.rs:2695-2966 | what the audit accepts, read off the rows: a truthful base, a head in range, gapless deltas whose counts, sizes, cursors and roots lead to the head, and a snapshot with the hash and count the head names |
| JournalStore.ScanDeltas | crates/local-db/src/lib.rs:2806-2908 | the delta loop accepts exactly the rows whose count, payload total, cursor and root chains and revision coverage match the head |
| JournalStore.DbStore.AppendIfCurrent | crates/local-db/src/lib.rs:2982-3147 | an append commits exactly when the rows stand as its condition says and its caps and cursors hold, and stores the head, delta and snapshot stamped with the next revision; every other outcome is told apart exactly and leaves every table as it was |
| JournalExact.AppendAppliesExactly | crates/local-db/src/lib.rs:2982-3147 | an append is applicable if and only if its watermark and generation are current, the stored rows are what its condition names, and base, cursors, counts and sizes continue them within the caps |
| JournalExact.CompactionExactly | crates/local-db/src/lib.rs:3039-3051 | compaction is asked for if and only if the journal stands as expected and the delta would pass the cap on count or payload |
| JournalStore.DbStore.RebaseIfCurrent | crates/local-db/src/lib.rs:3149-3232 | a rebase commits exactly when the rows stand as its condition says; it then replaces base and journal of one corpus by the new base and a head with the fields written out, and otherwise changes nothing |
| JournalExact.ObservesExactly | crates/local-db/src/lib.rs:4964-5200 | a condition holds if and only if watermark and generation are current, the stored rows are those it names (no valid base, a base without journal, a head with the same six fields, or the inspected corrupt rows) and the revision can grow |
| JournalExact.RebaseAppliesExactly | crates/local-db/src/lib.rs:3149-3232 | a rebase is applicable if and only if its base ends at its cursor and the stored rows stand as its condition says |
| JournalExact.MismatchExactly | crates/local-db/src/lib.rs:5018-5200 | a condition is answered by a mismatch, not an error, exactly when the rows stand otherwise and the head, where one is read, is readable |
| JournalStore.DbStore.PutBase | crates/local-db/src/lib.rs:2968-2980 | writes one base record and touches no other row |
| JournalStore.DbStore.Clear | crates/local-db/src/lib.rs:3268-3295 | removes exactly the rows of both tables and moves to the next generation, or fails on overflow and changes nothing |
| JournalStore.DbStore.AdvanceWatermark | crates/local-db/src/lib.rs:3330-3363 | the stored sequence never decreases and ends at or above the offered one |
| JournalStore.DbStore.ObserveManifest | crates/local-db/src/lib.rs:3365-3420 | accepts, reports rollback, or reports equivocation; only an accepted observation writes |
| JournalRuns.AppendHeadIsValid | crates/local-db/src/lib.rs:3047-3114 | the head an append stamps passes head validation whenever the append commits |
| JournalRuns.AppendAgreesExactly | crates/local-db/src/lib.rs:2982-3147 | writer and auditor agree on one append: the journal stays Valid if and only if the append carries a forward delta or a snapshot, describes its base truthfully and fits the row caps |
| JournalRuns.RebaseAgreesExactly | crates/local-db/src/lib.rs:3149-3232 | a rebase of any journal, however corrupt, inspects Valid if and only if the new head row fits its cap |
| JournalRuns.CorruptTokenIsAccepted | crates/local-db/src/lib.rs:5024-5057 | the token of a corrupt inspection always opens the repairing rebase |
| JournalRuns.PutAgreesExactly | crates/local-db/src/lib.rs:2968-2980 | a base put under a sound journal keeps it sound if and only if there are no journal rows or generation, payload hash and tip stay the same |
| JournalRuns.StepAgreesExactly | crates/local-db/src/lib.rs:2968-3295 | from sound tables every operation leaves all corpora Missing or Valid if and only if it was admissible |
| JournalRuns.AgreementOverRun | crates/local-db/src/lib.rs:2695-3295 | over every run of admissible appends, rebases, clears, base puts and watermark updates no audit ever reports corruption |
| JournalRuns.AgreementFromEmpty | crates/local-db/src/lib.rs:2695-3295 | from empty tables the audit reports corruption exactly after the first operation whose caller breaks the conditions; the generation of the base then needs no check where a head exists |
| JournalConditions.CommitAdvances | crates/local-db/src/lib.rs:2982-3232 | generation and revision strictly increase, lexicographically, on a commit if and only if the head it writes fits its row cap |
| JournalConditions.ConditionFixesStanding | crates/local-db/src/lib.rs:5018-5200 | a condition that commits pins down where its corpus stands |
| JournalConditions.ConditionsAreSingleUse | crates/local-db/src/lib.rs:4964-5200 | over every run from any tables, a condition commits twice for a corpus only if it expects corruption or a rebased head and a commit to that corpus since wrote an oversized head |
| JournalConditions.OversizedHeadReopensCondition | crates/local-db/src/lib.rs:2982-3232 | every append or rebase on a rebased head, at any revision, whose own head row is oversized can be made to commit a second time by a run of repairs |
| JournalConditions.OversizedHeadReopensRepair | crates/local-db/src/lib.rs:3149-3232 | the repair of such a head can itself commit twice under one token |
| JournalConditions.LongTextCommits | crates/local-db/src/lib.rs:2982-3147 | oversized heads exist: every append also commits with a text longer than the cap |
| JournalRuns.WatermarksFollow | crates/local-db/src/lib.rs:3330-3420 | over every run a publisher watermark never goes back and never changes hash within a sequence |
| JournalRuns.ManifestsNeverEquivocate | crates/local-db/src/lib.rs:4964-5016 | observations and commits that vouch for one publisher have nondecreasing sequences and one hash per sequence |
| JournalKeys.IdentityScanExactly | crates/local-db/src/lib.rs:909-946 | a textual identity scan visits exactly the rows of that identity and of identities hiding in its key space |
| JournalKeys.PipeFreeNeverHides | crates/local-db/src/lib.rs:922-933 | identities without a separator in their version text never hide |
| JournalKeys.SomeIdentityHides | crates/local-db/src/lib.rs:922-933 | every identity has another one hiding in its key space, so the separator rule is needed |
| JournalKeys.DeltaScanExactly | crates/local-db/src/lib.rs:935-946 | the delta scan visits exactly the deltas of the corpus |
| JournalKeys.DeltaScanAscends | crates/local-db/src/lib.rs:1002-1018 | key order of deltas is revision order |
| JournalKeys.RowTextInjective | crates/local-db/src/lib.rs:897-1018 | different rows have different textual keys |
| Utf8.EncodeKeepsOrder | crates/local-db/src/lib.rs:5410-5433 | byte order of stored UTF-8 keys is code point order, so ranges over strings are ranges over keys |
| Utf8.EncodeReads | crates/local-db/src/lib.rs:5410-5433 | the bytes of a character are a lead byte and its continuation bytes, and their payload bits are the code point |
| KeyRange.PrefixRangeEnd | crates/local-db/src/lib.rs:5435-5448 | for every string the computed range holds exactly the strings with that prefix; there is no end exactly for all-maximal prefixes |
| KeyRange.RemovePrefixMatching | crates/local-db/src/lib.rs:5410-5433 | removes exactly the matching rows under the prefix and counts them; zero exactly when nothing changed |
| WalletNamespace.DeletionIsExact | crates/local-db/src/lib.rs:2385-2462 | a row survives deletion exactly when it belongs to another namespace |
| WalletNamespace.DeletionIsIdempotent | crates/local-db/src/lib.rs:2385-2462 | deleting twice is deleting once |
| WalletNamespace.WalletStore.DeleteNamespace | crates/local-db/src/lib.rs:2385-2462 | removes the rows of all tables and the marker, and counts them kind by kind; the report is zero exactly when nothing was stored |
| KeyMigration.CanonicalKeyInjective | crates/local-db/src/lib.rs:254-268 | different wallets, chains or contracts have different cache keys |
| LegacyMigration.CanonicalLayout | crates/local-db/src/lib.rs:254-268 | a cache key spells the domain, the length of the wallet id, the id, the chain and the contract, in that order |
| KeyMigration.CollectRows | crates/local-db/src/migrations.rs:213-328 | collects a move for exactly the rows with a legacy key, or fails on a malformed one |
| KeyMigration.Preflight | crates/local-db/src/migrations.rs:330-349 | rejects exactly repeated or occupied destinations |
| KeyMigration.Apply | crates/local-db/src/migrations.rs:351-364 | writes every destination, removes every source, and keeps every other row |
| KeyMigration.MetaTargetsMeetExactly | crates/local-db/src/migrations.rs:213-233 | two metadata rows get one key if and only if they name the same wallet, chain and contract |
| KeyMigration.UtxoTargetsMeetExactly | crates/local-db/src/migrations.rs:235-258 | two UTXO rows get one key if and only if wallet, chain, contract and UTXO id are the same |
| KeyMigration.ContextTargetsMeetExactly | crates/local-db/src/migrations.rs:260-328 | two pending or recovery rows get one key if and only if chain, wallet and commitment are the same |
| KeyMigration.SpellingsConflict | crates/local-db/src/migrations.rs:330-349 | a table that spells one composite key in two ways is refused |
| KeyMigration.MigrationKeepsCount | crates/local-db/src/migrations.rs:171-211 | the number of rows of a table is conserved |
| KeyMigration.RerunIsNoOp | crates/local-db/src/migrations.rs:171-211 | migrated tables can be migrated again and do not change |
| KeyMigration.CanonicalUtxoKeptExactly | crates/local-db/src/migrations.rs:235-258 | a canonical UTXO row is kept if and only if its id has no separator |
| LegacyMigration.LegacyStore.MigrateCompositeKeys | crates/local-db/src/migrations.rs:171-211 | the migration is accepted if and only if in each table every legacy row is well-formed and its place is free and wanted by no other; every row is then found where it belongs with its contents, or no table changes |
| LegacyMigration.ParseLegacyExactly | crates/local-db/src/migrations.rs:366-387 | a key reads as wallet, chain and contract if and only if it spells them with separators, a decimal chain and a hexadecimal address in any spelling |
| LegacyMigration.MetaRuleExactly | crates/local-db/src/migrations.rs:213-233 | which key and bytes a metadata row gets, written out on the spelled key |
| LegacyMigration.UtxoRuleExactly | crates/local-db/src/migrations.rs:235-258 | which key and bytes a UTXO row gets, written out on the spelled key |
| LegacyMigration.PendingRuleExactly | crates/local-db/src/migrations.rs:260-297 | which key and record a pending row gets, written out on the wallet it names; its key may be its own or the one of schema 7 without the wallet |
| LegacyMigration.WrittenIsRead | crates/local-db/src/migrations.rs:377-387 | the composite key as it used to be written reads back as its wallet, chain and contract |
| LegacyMigration.RecoveryRuleExactly | crates/local-db/src/migrations.rs:299-328 | which key and record a recovery row gets; it must be stored under its own key |
| LegacyMigration.OrderlyIsMigratable | crates/local-db/src/migrations.rs:171-349 | collecting and preflight accept all four tables if and only if every row is in order |
| LegacyMigration.MigratedArrives | crates/local-db/src/migrations.rs:171-364 | after an accepted migration every row is where the rules put it |
| Merkle.SubtreeRootIsNodeFrom | crates/merkletree/src/tree/mod.rs:142-159 | skipping empty spans gives the root of the complete tree over the first leaves |
| Merkle.Tree.ComputedRoot | crates/merkletree/src/tree/mod.rs:65-87 | cached, sparse and layered roots are all the reference root |
| Merkle.ProofsVerify | crates/merkletree/src/tree/mod.rs:105-140 | folding a proof from its leaf reaches the root |
| Merkle.SparseProve | crates/merkletree/src/tree/mod.rs:105-140 | the sparse proof is the reference proof over the first leaves |
| Merkle.DenseNodes | crates/merkletree/src/tree/mod.rs:323-388 | every stored node of a dense tree is the reference node |
| Merkle.HashActive | crates/merkletree/src/tree/mod.rs:347-365 | hashing only the active prefix of a layer gives the whole parent layer |
| Merkle.DenseMerkleTree.FromPrefix | crates/merkletree/src/tree/mod.rs:323-365 | the dense tree holds exactly the first leaves |
| Merkle.DenseMerkleTree.Root | crates/merkletree/src/tree/mod.rs:382-388 | is the reference root of its leaves |
| Merkle.DenseMerkleTree.SetLeaf | crates/merkletree/src/tree/mod.rs:394-407 | rewrites one leaf and keeps every node the hash of its children |
| Merkle.DenseMerkleTree.Prove | crates/merkletree/src/tree/mod.rs:410-429 | is the reference proof of its leaves |
| PoiModel.SamePlaceExactly | crates/core/src/tree.rs:9-13 | two global indexes share a tree number and position if and only if they are equal modulo 2^48 |
| PoiModel.AcceptableDeltaApplies | crates/poi/src/cache.rs:805-894 | an accepted delta always applies and lands on its end cursors, so the final cursor check cannot fail |
| PoiModel.CursorsStayTogether | crates/poi/src/cache.rs:805-894 | equal event and leaf cursors stay equal over any sequence of deltas |
| PoiInvariants.StatusOverRun | crates/poi/src/cache.rs:660-667 | after any run a commitment is Valid exactly if it was ever marked, else blocked exactly if currently listed, else missing |
| PoiInvariants.RootsNeverStale | crates/poi/src/cache.rs:688-705 | in every reachable cache, failed operations included, validated roots are the roots of the current forest |
| PoiInvariants.SameBlockedSameCache | crates/poi/src/cache.rs:896-937 | replacing the blocked list by one with the same content changes only the synced flag |
| PoiInvariants.ReachableBlockedMarked | crates/poi/src/cache.rs:896-937 | in every reachable cache each blocked commitment has a status |
| PoiInvariants.ReachableTreesHeld | crates/poi/src/cache.rs:765-978 | in every reachable cache each recorded position lies in a tree of the forest |
| PoiPlaces.PlacesOverRun | crates/poi/src/cache.rs:765-978 | after every run the position recorded for a commitment is that of its last placement, and the leaf at a place is the last one put there; both are read off the operations |
| PoiPlaces.ServedExactly | crates/poi/src/cache.rs:1393-1455 | after every run a proof can be served for a commitment if and only if it was placed and nothing else was put over its last place |
| PoiBounds.StepStaysBelow | crates/poi/src/cache.rs:736-978 | one operation keeps leaves below the cursor if and only if it places none at the last 64-bit index while the cursor is below 2^48 |
| PoiBounds.LeavesBelowOverRun | crates/poi/src/cache.rs:765-978 | over every run whose cursor ends at most at 2^48, leaves lie below the cursor if and only if the cursor is at 2^48 or no operation placed a leaf at the last 64-bit index |
| PoiBounds.LastIndexEscapes | crates/poi/src/cache.rs:765-803 | a leaf at the last 64-bit index is left above the cursor |
| PoiSync.PoiCache.ApplyPoiEvents | crates/poi/src/cache.rs:736-763 | marks event commitments and raises the cursor, in order, up to the first overflow |
| PoiSync.PoiCache.ApplyPoiLeaves | crates/poi/src/cache.rs:765-803 | places non-zero leaves and raises the cursor, in order, up to the first overflow |
| PoiSync.PoiCache.ApplyBlockedShields | crates/poi/src/cache.rs:896-916 | records the list and never downgrades a valid commitment |
| PoiSync.PoiCache.ReplaceBlockedShields | crates/poi/src/cache.rs:918-937 | forgets statuses that only the old list gave, then applies the new one |
| PoiSync.PoiCache.ApplyVerifiedArtifactEvents | crates/poi/src/cache.rs:939-978 | places and marks artifact events and raises both cursors |
| PoiSync.PoiCache.ApplyJournalDelta | crates/poi/src/cache.rs:805-894 | all or nothing: accepted exactly when version, identity, cursors, indexes and leaves are as written out, otherwise the cache is unchanged |
| PoiSync.LeavesMatchEvents | crates/poi/src/cache.rs:846-872 | accepts exactly contiguous events whose commitments are the leaves, position by position |
| PoiSync.PoiCache.CurrentRootsReadonly | crates/poi/src/cache.rs:684-686 | the roots of all trees of the forest |
| PoiSync.PoiCache.AcceptCurrentRoots | crates/poi/src/cache.rs:980-986 | validated roots are those of the forest as it stands |
| PoiSync.PoiCache.ValidateRoots | crates/poi/src/cache.rs:1372-1391 | the peer judges the current roots, which are then validated or rejected; an empty forest is never accepted |
| PoiSync.PoiCache.PoiMerkleProofs | crates/poi/src/cache.rs:1393-1455 | proofs exist exactly under validated roots for commitments held where recorded; each carries its commitment and folds to the root of its tree, in every reachable cache a validated one |
| PoiSync.PoiCache.SyncEvents | crates/poi/src/cache.rs:1128-1205 | reading succeeds if and only if the pages are in range, contiguous and verified up to a page shorter than asked or the budget; the events are then exactly those pages, already applied |
| PoiSync.PoiCache.SyncLeaves | crates/poi/src/cache.rs:1207-1278 | reading succeeds if and only if full pages and a last one hold exactly the commitments of the events, which are then placed |
| PoiSync.PoiCache.FetchBlocked | crates/poi/src/cache.rs:1287-1325 | reading succeeds if and only if the pages end with a short one within the limit and every record verifies; the list is then exactly those pages |
| PoiSync.PoiCache.SyncBoundedCandidate | crates/poi/src/cache.rs:1085-1370 | sync succeeds if and only if what its scope needs can be read, page by page; the result reports the events in order and the signed blocked list, a list only when it is news, and from every reachable cache replaying it is accepted and gives the synced cache |
| PoiPages.EventsSoundExactly | crates/poi/src/cache.rs:1128-1205 | pages of events are read to the end if and only if they stop there and their events have consecutive indexes from the start, verify, and leave room for the next request |
| PoiSync.CapturableExactly | crates/poi/src/cache.rs:1128-1278 | events and leaves can be captured if and only if some number of event pages is in order and the leaf pages spell the same commitments |
| PoiSync.ReplaceableExactly | crates/poi/src/cache.rs:1287-1325 | a blocked list can be read if and only if full pages end with a short one within the limit and every record is signed |
| PoiReplay.TipMirrorsExactly | crates/poi/src/cache.rs:1529-1577 | after a delta the dense tree holds the leaves of the forest if and only if it was extended or its tree held nothing past the tip; for deltas that do not come round to the same tree number twice |
| PoiReplay.TipMirrorsBelow | crates/poi/src/cache.rs:1529-1577 | up to 2^48 leaves the dense tree always mirrors the forest, however deltas cross trees |
| PoiReplay.WrappedTipMisses | crates/poi/src/cache.rs:1569-1577 | past 2^48 a rebuilt dense tree can miss leaves that the forest still has |
| PoiReplay.ExtendDense | crates/poi/src/cache.rs:1550-1568 | sets exactly the non-zero leaves of the delta in place |
| PoiReplay.ReachableIsReplayable | crates/poi/src/cache.rs:608-614 | a cache reached by any run meets what incremental replay asks of its start if and only if its cursor is 2^48, or below it and no leaf went to the last 64-bit index |
| PoiReplay.JournalReplay.ApplyDelta | crates/poi/src/cache.rs:1529-1589 | for every delta: an acceptable one is applied, the dense tree is extended, rebuilt or kept, and the root reported is that of the dense tree when it is the tip tree, else the one of the cache; any other delta changes nothing |
| PoiReplay.JournalReplay.Finish | crates/poi/src/cache.rs:1591-1594 | ends with the roots of the forest validated |
| PoiReplay.ReplayJournal | crates/sync-service/src/poi_artifacts.rs:1642-1677 | replaying stored rows succeeds if and only if each is accepted in turn, continues the roots and ends at the root reported; the cache is then what the deltas give |
| PoiReplay.ReplayRecomputes | crates/sync-service/src/poi_artifacts.rs:1642-1677 | up to 2^48 leaves a journal replays if and only if each row ends at the root recomputed from the forest |
| PoiReplay.ReplayedIsReachable | crates/sync-service/src/poi_artifacts.rs:1642-1677 | a replayed cache is again reachable, so every invariant holds of it |
| PoiAgree.DeltaAgrees | crates/poi/src/cache.rs:805-894 | caches that agree on cursors, positions, leaves and valid commitments accept the same deltas and agree afterwards, whatever their blocked lists |
| PoiAgree.ReplacedAgrees | crates/poi/src/cache.rs:918-937 | replacing the blocked list keeps two caches in agreement |
| PoiAgree.SameCache | crates/poi/src/cache.rs:660-705 | reachable caches in agreement with one blocked list are the same cache once their roots are accepted, up to the synced flag |
| CorpusJournal.RebaseStarts | crates/sync-service/src/poi_artifacts.rs:2015-2036 | a rebase whose payload is a cache starts a journal in step with that cache |
| CorpusJournal.LoadExactly | crates/sync-service/src/poi_artifacts.rs:1613-1702 | loading gives a cache if and only if it is the base with the stored deltas replayed in revision order and the snapshot applied, and cursors and roots are those of the head |
| CorpusJournal.AppendKeepsInStep | crates/sync-service/src/poi_artifacts.rs:2037-2110 | an append that carries the delta and blocked list a sync captured keeps the journal in step with the synced cache |
| CorpusJournal.InStepLoads | crates/sync-service/src/poi_artifacts.rs:1613-1702 | up to 2^48 leaves a journal in step with a cache loads: base, deltas, blocked snapshot and the comparison with the head all succeed and give that cache |
| CorpusJournal.CapturedJournalLoads | crates/sync-service/src/poi_artifacts.rs:1613-2110 | over every history of up to 2^48 leaves, a journal started by a rebase and grown by appends that carry what syncs captured is sound and loads to the cache as it then is, whatever happened to other corpora |
| StreamFold.ReplaceableIsGreatest | crates/indexed-artifacts/src/lib.rs:817-849 | of disjoint chunks at most one is replaceable, it is the one with the greatest range, and all others are stable |
| StreamFold.RepeatRemovesNothing | crates/indexed-artifacts/src/lib.rs:1145-1214 | skipping a repeated chunk never also removes one |
| StreamFold.SweepIsSound | crates/indexed-artifacts/src/lib.rs:957-987 | whenever the sweep succeeds, every index of the range is covered, for every list |
| StreamFold.SweepIsExact | crates/indexed-artifacts/src/lib.rs:957-987 | over ascending ranges the sweep succeeds if and only if the range is covered and no range before the finishing one ends more than one below the next start |
| StreamFold.CoveredExactly | crates/indexed-artifacts/src/lib.rs:957-987 | a superseded range counts as covered if and only if each index is in a current chunk or newer coverage and its candidates do not break off |
| StreamFold.CoveredIsFound | crates/indexed-artifacts/src/lib.rs:957-987 | a covered superseded index lies in a current chunk or in coverage newer than the superseded chunk |
| StreamOverlay.CutPoints | crates/indexed-artifacts/src/lib.rs:493-522 | cutting keeps exactly the indexes outside the cutting range whose piece does not start after the checkpoint |
| StreamOverlay.OverlayIsDisjoint | crates/indexed-artifacts/src/lib.rs:1108-1142 | stored coverage never overlaps |
| StreamOverlay.OverlayIsExact | crates/indexed-artifacts/src/lib.rs:1108-1142 | an index is covered in a generation if and only if that is the newest one covering it and, where newer ranges meet it, its checkpoint is neither before its start nor before the end of one left of the index |
| StreamOrder.AdjacentIsPairwise | crates/indexed-artifacts/src/lib.rs:704-724 | comparing neighbours of a sorted generation finds every overlap |
| StreamOrder.PlanIgnoresOrder | crates/indexed-artifacts/src/lib.rs:1000-1068 | rearranging the chunks, catalogs and boundaries of a stream changes neither its plan nor whether it has one |
| StreamSafety.FoldedIsSound | crates/indexed-artifacts/src/lib.rs:1000-1068 | after all generations the current chunks are pairwise disjoint listed chunks |
| StreamSafety.StableSurvivesGenerations | crates/indexed-artifacts/src/lib.rs:1070-1214 | a sealed, complete or non-final chunk is never removed by a later generation |
| StreamComplete.CompletedIsFinal | crates/indexed-artifacts/src/lib.rs:1070-1214 | over the whole listing, nothing read after a chunk or catalog that completes the stream reaches past its end, and no chunk meets a completing catalog |
| StreamComplete.FixedIsRepeated | crates/indexed-artifacts/src/lib.rs:1145-1214 | a sealed or complete chunk is met in later generations only by chunks of the same bytes |
| StreamComplete.EntryRefusedExactly | crates/indexed-artifacts/src/lib.rs:1145-1214 | an entry is refused if and only if it ends past the completed tail, meets a completed range, or a current chunk that is neither repeated nor replaceable is in its way |
| StreamComplete.CoverageRefusedExactly | crates/indexed-artifacts/src/lib.rs:1070-1107 | coverage is refused if and only if it ends past the completed tail |
| StreamComplete.ClosingsOverRun | crates/indexed-artifacts/src/lib.rs:1000-1214 | over every fold the completed tail and ranges are those of listed chunks and catalogs that complete the stream |
| StreamListing.GenerationIsApart | crates/indexed-artifacts/src/lib.rs:704-724 | an accepted generation lists no two chunks that meet |
| StreamListing.OverlapExactly | crates/indexed-artifacts/src/lib.rs:851-865 | of a chunk that gives way exactly the requested indexes have to be covered anew |
| StreamListing.FinalExactly | crates/indexed-artifacts/src/lib.rs:799-808 | a chunk is marked final if and only if none of its generation starts after it and no boundary of the generation starts after its end |
| StreamSafety.NothingRequestedIsLost | crates/indexed-artifacts/src/lib.rs:1000-1318 | in every successful plan each requested index of each listed chunk is in a required chunk that is the chunk, one of equal content or newer, or in catalog coverage newer than it |
| StreamGap.RefusedExactly | crates/indexed-artifacts/src/lib.rs:1259-1268 | once folded, a stream has no plan if and only if a superseded range has a hole or its candidates break off |
| StreamGap.RefusedWithoutHole | crates/indexed-artifacts/src/lib.rs:957-1268 | for every range relisted in two parts by newer catalogs, the first with a chunk strictly inside its part, the plan is refused for a gap although the catalogs cover everything |
| StreamGap.NestedIsListed | crates/indexed-artifacts/src/lib.rs:957-1268 | every such choice of chunks and catalogs can be listed |
| StreamShape.PlansAreWellShaped | crates/indexed-artifacts/src/lib.rs:1259-1318 | required chunks are listed, meet the request, ascend without overlap and only the last can be transient; prior tails end before the request |
| StreamListing.ChunksExactly | crates/indexed-artifacts/src/lib.rs:1259-1318 | a finished plan requires a chunk if and only if it is a current chunk that meets the request, with its role |
| StreamListing.PriorTailsExactly | crates/indexed-artifacts/src/lib.rs:1259-1318 | it retains a chunk before the request if and only if that is sealed, complete or not final, or something newer lies after it |
| StreamListing.CoverageListedExactly | crates/indexed-artifacts/src/lib.rs:1259-1318 | it lists coverage if and only if a required chunk or stored catalog coverage gives it |
| StreamCoverage.PlannedCoverageIsNewest | crates/indexed-artifacts/src/lib.rs:1000-1143 | the coverage of a whole fold is disjoint and covers an index in a generation if and only if that is the newest listed catalog over it and its checkpoint keeps the index |
| StreamCoverage.PlannedCoverageIsListed | crates/indexed-artifacts/src/lib.rs:493-522 | every stored piece of coverage is cut from a listed catalog and keeps its generation, partition and flags, with the checkpoint no further than its end |
| StreamPlanner.IsCoveredBy | crates/indexed-artifacts/src/lib.rs:957-987 | the sweep as a loop decides whether current chunks and newer coverage cover a superseded range |
| StreamPlanner.RemoveMarked | crates/indexed-artifacts/src/lib.rs:1204-1206 | removing marked indexes from the back leaves exactly the chunks that stay |
| StreamPlanner.ArtifactStreamPlanner.ApplyEntry | crates/indexed-artifacts/src/lib.rs:1145-1214 | applies an entry in place, or fails exactly when it is refused |
| StreamPlanner.ArtifactStreamPlanner.ApplyCoverage | crates/indexed-artifacts/src/lib.rs:1070-1143 | applies coverage in place, or fails exactly when it extends a completed stream |
| StreamPlanner.ArtifactStreamPlanner.Finish | crates/indexed-artifacts/src/lib.rs:1259-1318 | sorts, checks every superseded range and lists the plan |
| StreamPlanner.PlanOneStream | crates/indexed-artifacts/src/lib.rs:1000-1068 | the running planner computes the plan the theorems are about |
| StreamCatalogs.PlansIgnoreListingOrder | crates/indexed-artifacts/src/lib.rs:569-675 | reordering catalogs, their chunks or the context descriptors changes neither the plan nor whether there is one |
| CatalogListing.EntriesExactly | crates/indexed-artifacts/src/lib.rs:580-631 | a stream reads exactly the chunks of its target and partition, with generation and catalog, that catalogs in scope list |
| CatalogListing.CoversExactly | crates/indexed-artifacts/src/lib.rs:580-608 | it reads exactly the coverage of catalogs in scope that belong to it |
| CatalogListing.BoundariesExactly | crates/indexed-artifacts/src/lib.rs:632-653 | its boundaries are exactly those of the context descriptors in its scope |
| CatalogListing.StreamsExactly | crates/indexed-artifacts/src/lib.rs:580-653 | the streams planned are exactly those a chunk, catalog or boundary names |
| CatalogListing.PlanExactly | crates/indexed-artifacts/src/lib.rs:569-675 | a plan exists if and only if no range runs backwards and every stream has one; it then holds exactly the chunks, coverage and prior tails of the streams |
| StreamCatalogs.NoRequestedIndexIsLost | crates/indexed-artifacts/src/lib.rs:569-675 | over all streams, each requested index of each wanted chunk is in a required chunk of its stream that is the chunk, one of equal content or newer, or in required coverage of a newer catalog of its stream |
| ChunkLayout.TakesHeader | crates/indexed-artifacts/src/lib.rs:1423-1454 | reading back a laid-out header gives the header, the spelling of its contract and the payload |
| ChunkLayout.HeaderTaken | crates/indexed-artifacts/src/lib.rs:1482-1531 | whatever reads as a header is laid out as one |
| ChunkBytes.LayoutExactly | crates/indexed-artifacts/src/lib.rs:1423-1454 | a chunk file is laid out if and only if its bytes say so: magic, little-endian numbers, dataset and range bytes, section table and payload each at its offset |
| ChunkCodec.ValidateForPayload | crates/indexed-artifacts/src/lib.rs:1576-1625 | accepts exactly matching length, unique ids, in-bounds sections and pairwise disjoint non-empty ranges |
| ChunkBytes.FitsExactly | crates/indexed-artifacts/src/lib.rs:1576-1625 | a header fits if and only if lengths agree, ids differ, sections end within the payload and no byte lies in two of them |
| ChunkCodec.NeighboursDecide | crates/indexed-artifacts/src/lib.rs:1609-1623 | comparing sorted neighbours finds every overlap of sections |
| ChunkCodec.DecodeIsExact | crates/indexed-artifacts/src/lib.rs:1456-1531 | decoding accepts exactly the laid-out files of readable envelopes, and returns that envelope |
| ChunkBytes.DecodesExactly | crates/indexed-artifacts/src/lib.rs:1456-1531 | bytes decode to an envelope if and only if they are its file of version 2, within the limit of its dataset in bytes, and its header holds together |
| ChunkBytes.EncodesExactly | crates/indexed-artifacts/src/lib.rs:1423-1454 | an envelope encodes to bytes if and only if its header holds together, its sections can be counted, and the bytes are its file with the canonical contract |
| ChunkCodec.RoundTrip | crates/indexed-artifacts/src/lib.rs:1423-1531 | decoding undoes encoding if and only if the envelope has the current version and is within its size limit |
| ChunkCodec.ReEncode | crates/indexed-artifacts/src/lib.rs:1423-1531 | whatever decodes can be encoded, to the same bytes if and only if the contract was spelled canonically |
| ChunkCodec.SectionsResolve | crates/indexed-artifacts/src/lib.rs:1384-1421 | in a decoded file every declared section resolves to its own bytes |
| ChunkCodec.SectionPayload | crates/indexed-artifacts/src/lib.rs:1384-1421 | finds the first section with the id, within the payload |
| ChunkCodec.Cursor.ReadExact | crates/indexed-artifacts/src/lib.rs:2122-2133 | takes bytes off the front or leaves the cursor where it is |
| ChunkCodec.Cursor.ReadU16 | crates/indexed-artifacts/src/lib.rs:2139-2142 | reads a little-endian number, or fails at the end |
| ChunkCodec.Cursor.ReadU64 | crates/indexed-artifacts/src/lib.rs:2144-2149 | reads a little-endian number, or fails at the end |
| ChunkCodec.DecodeHeader | crates/indexed-artifacts/src/lib.rs:1482-1531 | reads a header exactly when there is one of this version within its size limit |
| ChunkCodec.DecodeEnvelope | crates/indexed-artifacts/src/lib.rs:1456-1465 | decoding as it runs computes the decoding the theorems are about |
| ChunkCodec.EncodeEnvelope | crates/indexed-artifacts/src/lib.rs:1423-1454 | encoding as it runs computes the encoding the theorems are about |
| ChunkPacking.PackingIsUnique | crates/indexed-artifacts/src/lib.rs:1831-1890 | items have at most one split into groups that ends a group exactly where the next item could not join |
| ChunkPacking.PackedSizes | crates/indexed-artifacts/src/lib.rs:1875-1890 | chunks of several items are within the soft maximum, all chunks within the hard maximum |
| ChunkPacking.GroupRules | crates/indexed-artifacts/src/lib.rs:1831-1890 | every item joined a group of its kind that stayed within the maxima, and was below target or did not pass it |
| ChunkPacking.SplitReasons | crates/indexed-artifacts/src/lib.rs:1831-1890 | every group ended because the next item is of another kind, would pass the soft maximum, or would pass a target already met |
| ChunkPacking.EndIsGreatest | crates/indexed-artifacts/src/lib.rs:1855-1911 | the end of a group is the greatest end of its items |
| ChunkPacking.PackingConserves | crates/indexed-artifacts/src/lib.rs:1831-1911 | rows, bytes and item counts are conserved |
| ChunkPacking.OnlyBadItemsStop | crates/indexed-artifacts/src/lib.rs:1831-1873 | with room for the sums, an item stops the planner if and only if its range runs backwards or its size passes the hard maximum |
| ChunkPacking.ChunkPlanner.Push | crates/indexed-artifacts/src/lib.rs:1831-1873 | extends the packing by one item, or refuses it |
| ChunkPacking.PlanChunks | crates/indexed-artifacts/src/lib.rs:1753-1763 | the result summarises the one packing of the items; failure is exactly a bad configuration or a refused item |
| BabyJub.AddIsSchoolbook | crates/railgun-wallet/src/keys.rs:87-104 | where denominators invert, the sum with fewer products is the twisted Edwards sum and the only one |
| BabyJub.AddCommutes | crates/railgun-wallet/src/keys.rs:87-104 | addition commutes |
| BabyJub.AddIdentity | crates/railgun-wallet/src/keys.rs:87-107 | the starting point of multiplication is neutral |
| CyclicPowers.AddsUp | crates/railgun-wallet/src/keys.rs:106-121 | multiples of a point add up, from associativity and identity on them |
| CyclicPowers.DoubleAndAdd | crates/railgun-wallet/src/keys.rs:106-121 | double-and-add is repeated addition, where addition is associative on the multiples |
| CyclicPowers.SigningEquation | crates/railgun-wallet/src/keys.rs:232-233 | the reduced response satisfies S*B = R + (8h)*A |
| Eddsa.Prune | crates/railgun-wallet/src/keys.rs:278-284 | edits the hash in place |
| Eddsa.PrunedScalar | crates/railgun-wallet/src/keys.rs:278-284 | every pruned secret is a multiple of eight from 2^254 up to 2^255 |
| Eddsa.PrunedIsSecret | crates/railgun-wallet/src/keys.rs:278-284 | the pruned number is the low 32 bytes with the low three bits and the top bit cleared and the second highest set, and nothing else of the hash changes |
| Eddsa.BytesAreMasked | crates/railgun-wallet/src/keys.rs:278-284 | the edited bytes are the masks of the program |
| Eddsa.EdwardsGroupLaws | crates/railgun-wallet/src/keys.rs:87-121 | of the group laws a curve needs only associativity on multiples of its base point and the order of that point; the identity laws follow |
| Eddsa.PublicSpendingKey | crates/railgun-wallet/src/keys.rs:260-267 | is the public point of the secret |
| Eddsa.Sign | crates/railgun-wallet/src/keys.rs:207-239 | every signature is below the suborder, verifies under the public key against the five hashed numbers, and its nonce point comes from hashing the second half of the secret hash and the message, given the group laws |
| Eddsa.NonceInputsMeetExactly | crates/railgun-wallet/src/keys.rs:214-216 | two messages give the same nonce input if and only if they are equal |
| Eddsa.SignSpendMessage | crates/railgun-wallet/src/keys.rs:253-256 | the same for the curve the wallet uses, as an equation between its points |

## Left out

- PoiReplay.ReplayRecomputes: speaks of cursors up to 2^48, because tree numbers are cast to 32 bits and a rebuilt tree can then miss leaves (`WrappedTipMisses`); whether its root differs is up to the hash.
- CorpusJournal.InStepLoads: speaks of cursors up to 2^48 for the same reason; the payload decoders are any functions, and the provenance checks of the loaded record are not modelled.
- CorpusJournal.CapturedJournalLoads: speaks of cursors up to 2^48 for the same reason.
- CyclicPowers.DoubleAndAdd: promises repeated addition where addition is associative on the multiples of the point; associativity is not derived from the curve equation.
- CyclicPowers.SigningEquation: assumes associativity on the multiples of the base point and its order.
- Eddsa.PublicSpendingKey: promises the public point under the same hypothesis.
- Eddsa.Sign: assumes associativity on the multiples of the base point and its order.
- Eddsa.SignSpendMessage: assumes the same of the Baby Jubjub subgroup.
- StreamCatalogs.PlansIgnoreListingOrder: models the grouping of listings into streams and the final merge on values, not as the loops that fill the maps.
- ChunkCodec.DecodeEnvelope: reports that decoding fails, not which error it is; a contract text that is not valid UTF-8 is one that does not parse.
- LegacyMigration.LegacyStore.MigrateCompositeKeys: the schema 7 to 8 and 9 to 10 migrations around it would only add easy members.
- PoiSync.PoiCache.PoiMerkleProofs: the sparse branch is not modelled, because every tree with a requested commitment is served densely.
- PoiSync.PoiCache.SyncBoundedCandidate: signature checks and hexadecimal parsing of blocked shields are uninterpreted; timeouts and logging are not modelled.
- Encodings of stored records: any encoding whose decoder inverts it; only row lengths are kept, as uninterpreted functions, a head being at least as long as its texts. The replacement token stands for the rows it hashes.
- Storage engine, file locks, blob files, temporary files and symbolic link checks: input and output.
- Manifest signatures, JSON catalogs and zstd compression: library code around the planner and the codec.
- Key derivation from mnemonics, viewing keys, addresses and note encryption: uninterpreted cryptography.
- RPC pools, providers, transaction building and ABI decoding: glue whose properties are settled by one branch.
- Exact error payloads, timestamps and log output.
