# Bitrouter: the fenced execution store and five smaller cores

The main part models the execution store in `apps/bitrouter/src/agent_store.rs`. One
database holds the journals of all executions. Server instances compete for ownership
of it; the winner's generation fences every write. `ExecutionDb` gives the tables and
the effect of each transaction on all of them. `ExecutionStore` gives the statements
themselves, with the source's loops, cursors and early returns, as a class whose
methods are proved equal to those effects. The remaining modules state what holds over
every run of claims, stops and commits by any number of instances:

- `Ownership`: election, fencing, and the two modes that exclude each other.
- `Journal`, `AcceptanceKeys`, `Discovery`, `Repacking`: what the tables mean in terms
  of the committed history.
- `Readers`, `HistoryReader`, `IndexReader`: following a cursor page by page while the
  store changes.
- `Outcomes`: what each operation answers, told from the tables alone.

A run is a sequence of steps. Every writer takes the ownership row's lock first, so
each transaction is one step. Besides the current writer there is an older one, which
keeps the same fence, versions and keys, but packs rows its own way, writes its own
format number and does not know the discovery index; it is required to store the facts
it says it stores (`Cooperating`). An older binary may also win the ownership; it then
neither repairs the index nor repacks. A further step burns index positions, as rolled-back
inserts may do. A page request may meet any state reached from the one before.

`Basics`, `Paging`, `Codec` and `Keyset` hold what these share. Text is a sequence of
UTF-8 bytes, one per character. The JSON, compression and size functions of the
libraries below are parameters (`Wire`) with the laws the store relies on (`Lawful`);
`Wires` shows that these laws can hold together.

The other modules:

- `FeatureGraph`: the build identity, from the manifest's feature graph.
- `Experiment`: the discrete-event publication experiment, its learner and control
  plane an arbitrary oracle. The oracle's answers are functions of the arrival number or
  the time, which covers whatever it answers from in one run.
- `ConnectedAgents`: paging through a live sample by cursor.
- `RawString`: the raw-string literals the build script prints, against the reader of
  section "Raw string literals" of the Rust Reference.
- `ConfigSynthesis`: writes at JSON pointers and the rendering of a harness's config.

Where the code does not do quite what is said of it:

- The history reader's early size test (`agent_store.rs` 506-512) can turn an error into
  a page with more to come: a row of the projection that is too long and does not bear its
  own place is then reported only by the next page. `EarlyTestWitness` is such a store,
  `EarlyTestMattersExactly` says over every store exactly when it happens.
- A commit does not check that a thread event bears its own row, and the history reader
  does: past one that does not, no history walk ever gets (`HistoryWalkFinishesExactly`);
  the journal reader and a load read straight on.
- A harness with a default model and no model list gets a default that its config does
  not list. `UnlistedDefaultIsWritten` is a published registry entry of this kind,
  `RenderedConfig` has the exact condition.

## Model

| member | source | states |
|---|---|---|
| Codec.EncodeIsLossless | apps/bitrouter/src/agent_store/codec.rs:60-89 | packing an unmarked text decodes back to it, never grows it, leaves public events as plain text and never emits the retired prefix |
| Codec.EncodeTakesTheShorter | apps/bitrouter/src/agent_store/codec.rs:60-89 | a text of 4 KiB to 4 MiB that is no public event takes the envelope whenever that is shorter; every other text stays as it is |
| Codec.DecodeOpensEitherVersion | apps/bitrouter/src/agent_store/codec.rs:91-107 | an envelope is opened as its own version, one over 4 MiB is refused, and a text under neither mark is itself |
| Codec.RecordRoundTrip | apps/bitrouter/src/agent_store/codec.rs:60-148 | a record's JSON survives encode, decode and parse, and its stored row carries the event tag exactly when it is a thread event |
| Wires.LawfulWireExists | apps/bitrouter/src/agent_store/codec.rs:91-148 | the laws assumed of the JSON and compression libraries can all hold together: one concrete set of functions has them |
| Paging.FillIsLongest | apps/bitrouter/src/agent_store.rs:200-225 | a bounded page is the longest prefix of usable rows that fits both bounds: it fits, and no longer prefix does |
| Paging.FillFails | apps/bitrouter/src/agent_store.rs:419-447 | a page fails exactly when, after a prefix that fits, the next row it looks at cannot be used |
| Paging.ReadablePage | apps/bitrouter/src/agent_store.rs:438-443 | over usable rows a page fails exactly when its first row alone exceeds the byte bound; an oversized row is reported, never skipped |
| ExecutionStore.Database.ClaimOwner | apps/bitrouter/src/agent_store.rs:239-301 | a claim has exactly the outcome and the effect on all tables that the transaction prescribes, and none when it errs |
| ExecutionStore.Database.StopOwner | apps/bitrouter/src/agent_store.rs:314-373 | a stop writes control row and proof together, returns the recorded time, and changes nothing when refused |
| ExecutionStore.Database.ReadOwner | apps/bitrouter/src/agent_store.rs:303-312 | reads the one retained proof of an instance, or none when there is none |
| ExecutionStore.Database.CommitRecords | apps/bitrouter/src/agent_store.rs:657-815 | root, index, keys and rows are written together under fence and expected version, or every table is as before |
| ExecutionStore.Database.CompactLegacyRecords | apps/bitrouter/src/agent_store.rs:821-896 | the keyset loop ends; the rows it takes strictly ascend by (execution, sequence), are exactly the selected ones, and the table is the row-wise repacked one; it fails exactly when some selected row of a supported root cannot be decoded or has no root |
| ExecutionStore.Database.ReconcileExecutionIndex | apps/bitrouter/src/agent_store.rs:901-951 | adds one entry per missing root in id order; with a budget, refuses exactly when the sum of all missing sizes overflows |
| ExecutionStore.Database.MeasureMissing | apps/bitrouter/src/agent_store.rs:913-934 | pages of 128 by keyset sum the sizes of exactly the roots the later insert adds, and report overflow exactly when that sum overflows |
| ExecutionStore.Database.FetchMissing | apps/bitrouter/src/agent_store.rs:916-923 | one keyset page: the least ids past the cursor, ascending, nothing before them left out, empty only at the end |
| ExecutionStore.Database.ReadRecords | apps/bitrouter/src/agent_store.rs:386-457 | the row-at-a-time loop returns the page that the bounds admit of the slice (after, cutoff], with the guards in the source's order |
| ExecutionStore.Database.ThreadHistory | apps/bitrouter/src/agent_store.rs:459-542 | the loop over tagged rows returns the page of the tagged rows in range, with the early size test and the identity check |
| ExecutionStore.Database.AdmitRow | apps/bitrouter/src/agent_store.rs:506-535 | one selected row grows the page, ends it or fails, in the order of the source's tests |
| ExecutionStore.Database.PushHistoryEvent | apps/bitrouter/src/harness/storage.rs:325-343 | appends within the byte bound, refuses on a page already begun, errs on a lone event that cannot fit |
| ExecutionStore.Database.ReadIndex | apps/bitrouter/src/agent_store.rs:165-237 | the limit-plus-one fetch and the byte cut return the page of all positions in range, as if the list were not cut to limit plus one |
| ExecutionStore.Database.Load | apps/bitrouter/src/agent_store.rs:558-603 | returns the rows 1..version decoded in order, or an error exactly when some row is missing, extra or unreadable |
| Ownership.NextElected | apps/bitrouter/src/agent_store.rs:239-373 | every step keeps: proofs for exactly generations 1..current, control row equal to the last proof, earlier proofs stopped, distinct instances; and no proof is lost or stop time changed |
| Ownership.RunElected | apps/bitrouter/src/agent_store.rs:239-373 | the same in every state of every run |
| Ownership.AtMostOneLiveOwner | apps/bitrouter/src/agent_store.rs:239-373 | in every reachable state an unstopped proof is that of the current generation |
| Ownership.RunRetains | apps/bitrouter/src/agent_store.rs:239-373 | across any stretch of a run proofs and recorded stop times are kept and roots only added |
| Ownership.CommitGenerationsNeverDecrease | apps/bitrouter/src/agent_store.rs:719-731 | generations of successful owned commits never decrease over a run |
| Ownership.NoCommitAfterStop | apps/bitrouter/src/agent_store.rs:719-731 | after an owner's stop no commit naming its generation succeeds |
| Ownership.NoCommitAfterTakeover | apps/bitrouter/src/agent_store.rs:719-731 | after a later claim is won no commit of an earlier generation succeeds |
| Ownership.LiveOwnerExcludesOthers | apps/bitrouter/src/agent_store.rs:250-260 | while an owner lives, whatever else happens, ownership is unchanged and any other claimant gets Blocked with that owner and changes nothing, until a stop names exactly that instance and generation |
| Ownership.RepeatedStopReturnsFirst | apps/bitrouter/src/agent_store.rs:329-366 | a repeated stop succeeds exactly while its generation is current, and then returns the first stop |
| Ownership.StopProofReadsBack | apps/bitrouter/src/agent_store.rs:303-312 | the stopped proof reads back as it was returned, in every later state |
| Ownership.RetiredInstanceNeverReturns | apps/bitrouter/src/agent_store.rs:250-280 | an instance once stopped never acquires again |
| Ownership.BootstrapIsForever | apps/bitrouter/src/agent_store.rs:261-268 | once a root exists without an owner the fence stays empty |
| Ownership.ModesExcludeEachOther | apps/bitrouter/src/agent_store.rs:261-268 | no run holds both a successful unowned commit and an acquired claim, in either order |
| Outcomes.UnownedClaim | apps/bitrouter/src/agent_store.rs:261-269 | without an owner: roots give Unfenced and change nothing, an empty store gives generation 1 |
| Outcomes.OwnedClaim | apps/bitrouter/src/agent_store.rs:250-295 | the whole outcome table over an owner: renewal to itself while it lives, Blocked with its proof to any other, Blocked to its own instance once stopped, and once stopped the next generation to a fresh instance, or exactly the listed failures with nothing changed |
| Outcomes.FreshInstanceTakesOver | apps/bitrouter/src/agent_store.rs:258-295 | in every reachable state whose owner has stopped, an instance that never owned takes over with the next generation while generations last |
| Outcomes.StopHandsOver | apps/bitrouter/src/agent_store.rs:314-373 | in particular right after the current owner's stop |
| Outcomes.FirstOrRepeatedStop | apps/bitrouter/src/agent_store.rs:314-373 | a stop succeeds if and only if it names the current owner and its time can be stored; the first records and returns that time in control row and proof and nothing else, a repeated one returns the first and changes nothing |
| Outcomes.OwnerReadsBack | apps/bitrouter/src/agent_store.rs:303-312 | the proof of an instance reads back with its generation and stop time, live or stopped; an instance without one reads as none |
| Outcomes.AcquiredOwnerMaySign | apps/bitrouter/src/agent_store.rs:719-731 | the owner a claim returned passes the commit fence in the state the claim leaves |
| Journal.InsertRowsMeaning | apps/bitrouter/src/agent_store.rs:799-807 | inserting payloads succeeds exactly when every sequence is free and adds those rows and no other |
| Journal.CommitAppends | apps/bitrouter/src/agent_store.rs:657-815 | a successful commit presents the current version, appends its batch to one journal and leaves every other as it was |
| Journal.NextJournal | apps/bitrouter/src/agent_store.rs:657-896 | every step leaves sequences 1..version gap-free and every journal as it was, plus the batch of a successful commit |
| Journal.JournalIsHistory | apps/bitrouter/src/agent_store.rs:657-815 | in every reachable state a journal is the concatenation, in commit order, of its successful batches |
| Journal.VersionIsUsedOnce | apps/bitrouter/src/agent_store.rs:761-777 | of all commits presenting the same execution and expected version at most one succeeds |
| Journal.LoadReturnsHistory | apps/bitrouter/src/agent_store.rs:558-603 | after any run a load returns the committed history and never a gap; only an unsupported format stops it |
| Journal.FactsGrow | apps/bitrouter/src/agent_store.rs:799-807 | over a run every journal is only extended |
| Journal.ReachedFacts | apps/bitrouter/src/agent_store.rs:386-457 | facts already read are a prefix of the journal in every later state |
| AcceptanceKeys.InsertKeysMeaning | apps/bitrouter/src/agent_store.rs:778-798 | key insertion succeeds exactly when no key is taken, repeated within the batch or of another thread, and adds exactly the batch's entries |
| AcceptanceKeys.NextProjected | apps/bitrouter/src/agent_store.rs:778-807 | every step keeps the key table equal to the accepted-key records of all journals, each entry naming its journal, and keeps every entry |
| AcceptanceKeys.KeysAreProjection | apps/bitrouter/src/agent_store.rs:955-969 | over every run that equality holds, and an entry once found is found the same ever after |
| AcceptanceKeys.FindKeyReadsHistory | apps/bitrouter/src/agent_store.rs:955-969 | a lookup finds an entry exactly when some committed history accepted that scope and key, and it is that entry |
| AcceptanceKeys.KeyConflictUndoesCommit | apps/bitrouter/src/agent_store.rs:778-815 | a conflicting key, even within one batch, undoes root, index, records and keys together |
| Discovery.RepairEffect | apps/bitrouter/src/agent_store.rs:937-949 | repair indexes every root once, keeps prior positions and puts new ones above every position used, in id order |
| ExecutionDb.RootBytesIsSum | apps/bitrouter/src/agent_store.rs:927-934 | the charge of a repair is the sum of the sizes of the missing roots in whatever order |
| Discovery.RunIndexed | apps/bitrouter/src/agent_store.rs:751-759 | in every reachable state each root has at most one position, below the counter, and none ever moves |
| Discovery.CurrentWritersIndexEveryRoot | apps/bitrouter/src/agent_store.rs:740-760 | while only current writers create roots every root has an entry |
| Discovery.AcquiredClaimRepairsIndex | apps/bitrouter/src/agent_store.rs:250-295 | after any run, whatever older writers left out, an acquired claim indexes every root, moves no entry and adds only above the old head |
| Discovery.CommitSucceedsExactly | apps/bitrouter/src/agent_store.rs:657-815 | in every reachable state the current writer's commit succeeds if and only if: nonempty batch, version in range, fence admits the signer, expected version is the history's length, format supported, keys free |
| Discovery.CommitExtendsHistory | apps/bitrouter/src/agent_store.rs:657-815 | after a successful commit a load returns the old history with exactly the batch added, at the current format |
| Outcomes.CommitAnswers | apps/bitrouter/src/agent_store.rs:657-815 | in every reachable state a commit returns the length the history then has, if and only if batch, signer as the control row has it, expected version, stored format and keys are all right; otherwise it changes nothing |
| Outcomes.OwnerCommitsInSequence | apps/bitrouter/src/agent_store.rs:667-671 | after a commit the same signer's next one passes if and only if it presents the version returned |
| Repacking.TakeoverKeepsMeaning | apps/bitrouter/src/agent_store.rs:818-896 | after a winning takeover every row decodes as before, no sequence or version moved, no retired envelope is left under a supported root, other roots are byte-identical, rows not in the retired envelope never grow |
| Repacking.TakeoverFailsExactly | apps/bitrouter/src/agent_store.rs:270-295 | a takeover fails if and only if generations are exhausted, the instance owned before, the repair's estimate overflows or a selected row lacks its root or cannot be decoded; then every table is as it was |
| Repacking.ReachableRowsAreUsable | apps/bitrouter/src/agent_store.rs:859-873 | in every reachable state no row stands in the way of a takeover |
| Repacking.RepackIsIdempotent | apps/bitrouter/src/agent_store.rs:863-885 | repacking a repacked row changes nothing |
| Repacking.RepackedRowExactly | apps/bitrouter/src/agent_store.rs:829-886 | what the pass leaves of a row, told from the row: the retired envelope is packed anew, a plain record of 4096 characters or more other than an event is packed if shorter, all else is untouched |
| Readers.RecordPageIsSlice | apps/bitrouter/src/agent_store.rs:386-457 | a journal page is the longest prefix of the slice that its bounds allow, empty only at the cutoff; it errs exactly when the first record alone is too large |
| Readers.RecordWalkIsSlice | apps/bitrouter/src/agent_store.rs:452-456 | following the cursor with a pinned cutoff, any commits, claims and repacking in between, yields exactly the slice as it was when pinned |
| Readers.RecordWalkFinishes | apps/bitrouter/src/agent_store.rs:419-447 | such a walk needs no more pages than records, whatever the bounds |
| Outcomes.RecordPageAnswers | apps/bitrouter/src/agent_store.rs:394-415 | the answer to every request, with or without a cutoff: bounds, then nothing for an unknown execution, then the guards, then the page of the slice; without a cutoff the slice ends where the journal does |
| Outcomes.WalkFromStartIsJournal | apps/bitrouter/src/agent_store.rs:402-456 | a walk whose first page names no cutoff returns, once finished, everything the journal held past the start when it began |
| Outcomes.LoadAnswers | apps/bitrouter/src/agent_store.rs:558-603 | a load by format: none, the whole journal with its format and version, or an error |
| Outcomes.HistoryRefuses | apps/bitrouter/src/agent_store.rs:467-485 | the history reader's refusals before any row, and its empty final page at the cutoff |
| Outcomes.IndexRefuses | apps/bitrouter/src/agent_store.rs:172-187 | the index reader's refusals before any row, and its empty final page at the cutoff |
| HistoryReader.HistoryWalkFinishesExactly | apps/bitrouter/src/agent_store.rs:523-527 | given room and one request per event a history walk finishes if and only if every event of the range bears its own row; one that does not is never read past |
| HistoryReader.EarlyTestMattersExactly | apps/bitrouter/src/agent_store.rs:506-535 | in every state of the store the early size test changes the answer if and only if the request is within the protocol and the scan meets, past a nonempty prefix that fits, an event over the bound by more than 94 bytes that does not bear its own row |
| HistoryReader.EarlyTestCanMatter | apps/bitrouter/src/agent_store.rs:506-527 | one commit of a good and a giant misnamed event makes such a store: the reader reports the first and more to come where the later checks alone would fail |
| HistoryReader.EarlyTestWitness | apps/bitrouter/src/agent_store.rs:506-527 | that store in full, with every size computed |
| HistoryReader.EarlyTestIsHarmless | apps/bitrouter/src/agent_store.rs:506-535 | where every event of the range bears its own row the early test with its slack never changes the answer |
| HistoryReader.HistoryPageIsFilter | apps/bitrouter/src/agent_store.rs:459-542 | in every state a history page is the longest admissible prefix of the journal filtered to thread events, with more reported exactly when something is left; it fails exactly when, past an admissible prefix, an event bears another row, or the first is too large |
| HistoryReader.HistoryPageDelivers | apps/bitrouter/src/agent_store.rs:459-542 | every returned page, whatever its bounds, delivers leading events of the range, each checked against its row, and is not empty when continued |
| HistoryReader.EventsAfter | apps/bitrouter/src/agent_store.rs:491-497 | continuing past the place of an event leaves exactly the later events |
| HistoryReader.HistoryWalkIsFilter | apps/bitrouter/src/agent_store.rs:459-542 | a finished walk by the last event's sequence, whatever the bounds and the steps in between, has yielded every thread event of the range once and in order, and every one of them bears its own row |
| IndexReader.IndexPageIsPrefix | apps/bitrouter/src/agent_store.rs:200-237 | an index page is the longest prefix of the positions in range that fits; its cursor is its last position exactly when something is left |
| IndexReader.FirstPagePinsHead | apps/bitrouter/src/agent_store.rs:176-187 | a page without a cutoff is the page at the head of that moment, and reports it |
| IndexReader.PositionsAreStable | apps/bitrouter/src/agent_store.rs:188-195 | positions at or below a used cutoff are the same in every later state |
| IndexReader.IndexWalkFinishes | apps/bitrouter/src/agent_store.rs:200-230 | an index walk needs no more pages than positions, whatever the bounds, when each has room for every entry |
| IndexReader.IndexWalkListsEveryRoot | apps/bitrouter/src/agent_store.rs:165-237 | a finished walk lists every root indexed at or below the cutoff once and in position order, at a version at least as new, with any commits and repairs in between |
| IndexReader.ClaimedWalkNamesEveryRoot | apps/bitrouter/src/agent_store.rs:165-295 | after any run, whatever roots older writers left out, a finished walk pinned at the head a won claim leaves names every root of the store exactly once, with any steps in between |
| FeatureGraph.ClosureIsLeast | apps/bitrouter/build_artifact.rs:111-139 | the names reached by chains of edges are the least closed set that holds the roots |
| FeatureGraph.EdgeForms | apps/bitrouter/build_artifact.rs:123-138 | a dep: edge leads nowhere, d/f to d exactly if that is an optional dependency with a feature, any other name to itself |
| FeatureGraph.WholeGraph | apps/bitrouter/build_artifact.rs:28-68 | the graph has the declared features with their edges, and an edgeless one for each dependency some table marks optional unless it is declared or named by a dep: edge |
| FeatureGraph.PushTargets | apps/bitrouter/build_artifact.rs:123-138 | pushes exactly the local, existing optional and plain targets of one feature, in order; dep: edges push nothing |
| FeatureGraph.Normalize | apps/bitrouter/build_artifact.rs:111-145 | the worklist ends, and returns the ascending closure without default and otel, or an error exactly when a reached name is unknown; so the visiting order does not matter |
| FeatureGraph.NormalizedMonotone | apps/bitrouter/build_artifact.rs:111-145 | more roots never hide a feature and never repair an unknown name |
| FeatureGraph.NormalizedExpanded | apps/bitrouter/build_artifact.rs:84-91 | starting from any part of the closure that holds the roots gives the same result |
| FeatureGraph.ReadGraph | apps/bitrouter/build_artifact.rs:23-41 | the declared graph, or an error exactly when the table is missing or some value is not an array of strings |
| FeatureGraph.ReadDependencies | apps/bitrouter/build_artifact.rs:57-67 | one dependency table adds its optional names, and an edgeless feature for each that is neither suppressed nor present |
| FeatureGraph.Suppress | apps/bitrouter/build_artifact.rs:47-51 | collects exactly the dependencies some dep: edge names |
| FeatureGraph.Select | apps/bitrouter/build_artifact.rs:73-83 | fails exactly when two features share an environment name, and otherwise selects exactly the enabled features |
| FeatureGraph.FromManifest | apps/bitrouter/build_artifact.rs:19-108 | the loops compute the identity that the manifest, the enabled set and the closure determine |
| FeatureGraph.SpellingDoesNotMatter | apps/bitrouter/build_artifact.rs:43-51 | writing out any set of implicit optional features as name = [dep:name] leaves features and profile the same for every enabled set |
| FeatureGraph.EnvironmentRoundTrip | apps/bitrouter/build_artifact.rs:70-83 | without a collision the variables of a set of features select exactly that set |
| FeatureGraph.CargoSelects | apps/bitrouter/build_artifact.rs:70-83 | under the environment Cargo writes (prefix, hyphens as underscores, upper case) for a set of features exactly that set is selected, and a manifest in which two features share a variable is refused |
| FeatureGraph.HyphensCollide | apps/bitrouter/build_artifact.rs:75-79 | two features whose names differ only in hyphen against underscore refuse the manifest |
| FeatureGraph.VariablesHoldNoHyphen | apps/bitrouter/build_artifact.rs:76 | no variable asked for holds a hyphen |
| FeatureGraph.IdentityIsReachability | apps/bitrouter/build_artifact.rs:84-107 | the identity fails exactly when an unknown name is reached from the selection or the default; its features are the reached ones except default and otel |
| FeatureGraph.ExpansionDoesNotMatter | apps/bitrouter/build_artifact.rs:70-102 | the identity is the same whether the environment holds the user's choice or anything it expands to |
| FeatureGraph.ProfileNamesTheSet | apps/bitrouter/build_artifact.rs:92-102 | each profile holds exactly for its set of listed features, independent of order and spelling |
| FeatureGraph.DefaultBuildIsFull | apps/bitrouter/build_artifact.rs:85-95 | any selection between default and its closure has the full profile, unless it lists nothing |
| Experiment.KeyIsInjective | apps/bitrouter/examples/checkpoint_ts_publication.rs:432 | different arrivals have different session keys |
| Experiment.FeedShape | apps/bitrouter/examples/checkpoint_ts_publication.rs:535-561 | a session owes at most two items, due after its arrival and in order, and every item is acceptable to its evidence set |
| Experiment.DeliverBalanced | apps/bitrouter/examples/checkpoint_ts_publication.rs:300-323 | delivering the first due item keeps the books: it is the next item its session owes, and every other session is untouched |
| Experiment.AdmitBalanced | apps/bitrouter/examples/checkpoint_ts_publication.rs:431-573 | admitting a session keeps the books, whatever the control plane decides |
| Experiment.Experiment.Deliver | apps/bitrouter/examples/checkpoint_ts_publication.rs:300-323 | keeps the books and leaves exactly the items not yet due, in order |
| Experiment.Experiment.Admit | apps/bitrouter/examples/checkpoint_ts_publication.rs:431-573 | records the session in one place, queues what it owes, and fails only when the control plane does |
| Experiment.Experiment.Finish | apps/bitrouter/examples/checkpoint_ts_publication.rs:575-638 | the drain loop ends because each pass delivers something; the report is the expected one, every session is settled, and the closing checks on membership and disjoint evidence cannot fail |
| Experiment.DrainedIsSettled | apps/bitrouter/examples/checkpoint_ts_publication.rs:575-636 | after the drain the evidence sets are disjoint, hold exactly the trial and the monitored sessions, and each session with feedback shows its final observation |
| Experiment.DrainedReport | apps/bitrouter/examples/checkpoint_ts_publication.rs:597-612 | the counts equal those of the decisions and workload alone: unresolved are the silent trial sessions, label replacements are the challenger sessions in the two revised scenarios and zero elsewhere |
| Experiment.SettledFigures | apps/bitrouter/examples/checkpoint_ts_publication.rs:431-560 | where a session ends and with what, from the oracle and the workload alone: adopted ones in deployment, reserved ones in the trial, others nowhere; a heard session's entry is final with quality, cost and latency of the arm that served it, a missing one has no quality, a silent one nothing |
| Experiment.FeedIsExact | apps/bitrouter/examples/checkpoint_ts_publication.rs:535-561 | when and what a session's feedback is: provisional 0.98 at the next arrival and final after the correction delay for a revised challenger, otherwise final after the delay |
| Experiment.CountsFromOracle | apps/bitrouter/examples/checkpoint_ts_publication.rs:431-479 | the counted sets in terms of the oracle's answers |
| Experiment.EachArrivalCountsOnce | apps/bitrouter/examples/checkpoint_ts_publication.rs:623-636 | trial, deployment and unenrolled add up to the arrivals; nothing is unresolved outside the missing scenario; the baseline strategy enrolls nobody |
| Experiment.Run | apps/bitrouter/examples/checkpoint_ts_publication.rs:641-681 | a whole run reports the expected counts for every oracle, and fails only when the oracle does |
| ConnectedAgents.KeyIsInjective | apps/bitrouter/src/connected_agents.rs:79-84 | a key determines kind and id |
| ConnectedAgents.KindsAreGrouped | apps/bitrouter/src/connected_agents.rs:45-53 | rows are listed grouped by kind in one order, whatever their ids |
| ConnectedAgents.CursorRoundTrip | apps/bitrouter/src/connected_agents.rs:130-141 | a printed cursor parses back to its key if and only if the boot id has no slash and the key is 1 to 1024 bytes |
| ConnectedAgents.OtherBootIsRefused | apps/bitrouter/src/connected_agents.rs:135-138 | a cursor of another boot is refused |
| ConnectedAgents.SortLists | apps/bitrouter/src/connected_agents.rs:304 | sorting is stable and orders by key |
| ConnectedAgents.Snapshot | apps/bitrouter/src/connected_agents.rs:119-323 | fails exactly on a bad limit or cursor; otherwise reports the first rows of the ordered rows past the cursor, with a cursor exactly when rows were cut off |
| ConnectedAgents.PageMeaning | apps/bitrouter/src/connected_agents.rs:304-312 | with distinct keys a page holds exactly the sampled rows past the cursor up to its last key, and hands out a cursor exactly when some row is left |
| ConnectedAgents.WalkClimbs | apps/bitrouter/src/connected_agents.rs:304-312 | over samples that change from page to page, rows are reported in strict key order, so no key twice |
| ConnectedAgents.WalkReportsSampled | apps/bitrouter/src/connected_agents.rs:304-312 | a walk reports only rows that were sampled |
| ConnectedAgents.WalkMissesNothing | apps/bitrouter/src/connected_agents.rs:304-312 | once there is no next cursor every key present in all samples has been reported, whatever else of its row changed |
| ConnectedAgents.WalkReportsSteadyRow | apps/bitrouter/src/connected_agents.rs:304-312 | and a row that did not change is reported as it was |
| ConnectedAgents.WalkIsBounded | apps/bitrouter/src/connected_agents.rs:306-312 | a walk that goes on has no more pages than there are keys |
| ConnectedAgents.NextIsAcceptedExactly | apps/bitrouter/src/connected_agents.rs:306-311 | from the sample alone: a page has a cursor exactly when more rows than the limit are past the old one, and that cursor is accepted if and only if the boot id has no slash and the limit-th of their keys in order is at most 1024 bytes |
| ConnectedAgents.ShortKeysContinue | apps/bitrouter/src/connected_agents.rs:306-311 | while all sampled keys are within 1024 bytes no page hands out a cursor that is refused |
| ConnectedAgents.OwnedRowsContinue | apps/bitrouter/src/connected_agents.rs:306-311 | the rows the daemon samples have ids of at most 128 bytes (UUIDs, digests and validated session ids), so the cursor a page hands out is always accepted and continues past its last row |
| ConnectedAgents.AnswersAreListed | apps/bitrouter/src/connected_agents.rs:304-312 | a report is the front of the one listing the sample determines |
| ConnectedAgents.CutTwinIsLost | apps/bitrouter/src/connected_agents.rs:305-312 | a row cut off a page is behind the next cursor exactly when it shares the key of the page's last row |
| RawString.Lit | apps/bitrouter/build.rs:381-388 | the search ends within the value's length at the least count whose closing mark does not occur in the value |
| RawString.LiteralReadsBackExactly | apps/bitrouter/build.rs:386-387 | a literal reads back as its value and stops at its end, whatever follows, if and only if the value does not hold the closing mark |
| RawString.ChosenHashesAreLeast | apps/bitrouter/build.rs:382-385 | the chosen hash count works and exactly the counts at least as large do |
| ConfigSynthesis.Config.SetPointer | apps/bitrouter/src/config_synthesis.rs:285-308 | the walking write succeeds exactly when the pointer is valid and the write defined, and a failed write leaves the document as it was even where parents could have been created |
| ConfigSynthesis.PutReadsBack | apps/bitrouter/src/config_synthesis.rs:294-306 | the written path reads the value, and paths below it read the value's content |
| ConfigSynthesis.PutKeepsOthers | apps/bitrouter/src/config_synthesis.rs:294-306 | every path neither above nor below the written one reads as before |
| ConfigSynthesis.PutKeepsOrder | apps/bitrouter/src/config_synthesis.rs:282-306 | objects above the path keep their keys in order, the new key last |
| ConfigSynthesis.PutSucceedsExactly | apps/bitrouter/src/config_synthesis.rs:295-305 | a write is defined if and only if no proper prefix of the path holds a non-object |
| ConfigSynthesis.PutKeepsWellKeyed | apps/bitrouter/src/config_synthesis.rs:299-306 | object keys stay distinct |
| ConfigSynthesis.SplitJoins | apps/bitrouter/src/config_synthesis.rs:286-293 | different pointers name different paths, and segments hold no slash |
| ConfigSynthesis.ReplaceJoinsPieces | apps/bitrouter/src/config_synthesis.rs:264-266 | replacement keeps the text between matches and swaps every match |
| ConfigSynthesis.PiecesHoldNoMatch | apps/bitrouter/src/config_synthesis.rs:264-266 | no match is left between the matches |
| ConfigSynthesis.LeafIsSubstituted | apps/bitrouter/src/config_synthesis.rs:263-267 | in a string leaf every base url marker gives way first, then every credential marker of the result |
| ConfigSynthesis.SubstituteScalars | apps/bitrouter/src/config_synthesis.rs:261-280 | the in-place recursion changes every string leaf and nothing else |
| ConfigSynthesis.SubstitutionKeepsPaths | apps/bitrouter/src/config_synthesis.rs:261-280 | every path reads the substituted form of what it read, and no key moves |
| ConfigSynthesis.IdsAreExact | apps/bitrouter/src/config_synthesis.rs:221-249 | the listed ids are the catalog and the pinned model and nothing else; the default is among the ids if and only if the harness has a model list |
| ConfigSynthesis.IdsAreOrdered | apps/bitrouter/src/config_synthesis.rs:225-240 | catalog first and the pinned model appended only if new, or the pinned model first and then the whole catalog |
| ConfigSynthesis.RenderModels | apps/bitrouter/src/config_synthesis.rs:310-341 | the map arm's loop and the array arms build the collection of their shape |
| ConfigSynthesis.RenderedModelsReadBack | apps/bitrouter/src/config_synthesis.rs:310-341 | every shape lists the ids back in order, the map first occurrences only, each entry in its shape |
| ConfigSynthesis.WritesSurvive | apps/bitrouter/src/config_synthesis.rs:175-191 | any number of writes at independent paths all survive |
| ConfigSynthesis.WritesKeepOthers | apps/bitrouter/src/config_synthesis.rs:175-191 | and every path away from them reads as before |
| ConfigSynthesis.Render | apps/bitrouter/src/config_synthesis.rs:155-191 | the config is the substituted skeleton with the models, default and MCP writes in that order, or an error when one of them fails |
| ConfigSynthesis.RenderedConfig | apps/bitrouter/src/config_synthesis.rs:155-191 | with the writes apart each reads back, all else is the substituted skeleton, and a written default spells one of the ids the config lists if and only if the harness has a model list |
| ConfigSynthesis.RenderedFields | apps/bitrouter/src/config_synthesis.rs:175-191 | with the writes apart the config holds the ids in order under the model list, the pinned model or else the first of the catalog under the default in its spelling, and the servers as given |
| ConfigSynthesis.PublishedWritesAreApart | apps/bitrouter/registry-dist/agents.json:73-241 | the four published entries that write at pointers keep their writes apart, for every model, catalog and set of servers |
| ConfigSynthesis.UnlistedDefaultIsWritten | apps/bitrouter/src/config_synthesis.rs:175-186 | the registry entry of apps/bitrouter/registry-dist/agents.json lines 72-93, with a default and no list: its config names the default and lists no model |

## Left out

- Storage budgets: of the prepaid write estimates only the sum in the index repair and its overflow are modelled; a refusal by the quota itself is not.
- Compression, base64 and SHA-256 inside the row codec, and an encoder that fails: the codec is the pair of functions its callers rely on.
- SQL: a `LIKE` prefix test is an exact prefix test, text sorts by bytes, `length(payload)` is a function of the payload of which nothing is known.
- Error texts: every refusal is the same `Err`.
- Database faults, crashes and durability: a transaction commits or leaves the tables alone.
- The in-memory store in `harness/storage.rs`, which has the same interface and no tables.
- ConfigSynthesis.Config.SetPointer: the borrowed place in the tree is a path of frames that is put back into the root after every step, so aliasing of JSON nodes is not captured.
- ConfigSynthesis.Render: the skeleton arrives parsed and the MCP map rendered; creating directories, writing the file, and the environment and argument overlay are not modelled.
- FeatureGraph.FromManifest: the manifest arrives parsed; upper-casing is an arbitrary function; the wire spelling of a profile is not modelled.
- RawString.LiteralReadsBackExactly: a bare carriage return and the limit of 255 hashes in the language are not modelled.
- ConnectedAgents.Snapshot: rows arrive gathered; coverage lines, the sampling time and the columns beside kind and id are not modelled, and the library's stable sort is an insertion sort.
- Experiment.Run: quality and cost totals, the curve, transitions, waits, the traces and the maximum of pending candidates are not modelled, nor the quotas checked at the end beyond a yes or no; 64-bit floats are reals.
- Git lookups, file watching, revision checks and JSON output in `build_artifact.rs`; identifiers and tables in `build.rs`.
- Process, socket, HTTP and listing code around these cores: it would add only easy members.
