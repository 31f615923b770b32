# Watchdeck: episodes, archives, slots, outcomes and audits

A Dafny model of the stateful and arithmetic core of a market watchdeck, with proofs of the
properties its parts depend on. `dafny verify dfyconfig.toml` checks all of it.

| modules | part of the system |
|---|---|
| `Discovery`, `DiscoveryInvariant`, `DiscoveryStore`, `DiscoveryHistory`, `EpisodeHistory`, `DiscoveryPublished`, `DiscoveryRetention`, `DiscoveryPages`, `DiscoveryRead` | discovery episodes: what each operation makes of the tables, the loops that do it in place, and what whole histories make of states, episodes and published rows |
| `Service`, `ServiceLaws` | the publishing loop that drives them, with restarts, retries and storage failures |
| `Archive`, `ArchiveProgress` | archive generations: manifest rows, files and any number of workers, step by step |
| `Percentiles`, `Components`, `ComponentsLaws`, `Allocation`, `AllocationProperties`, `AllocationLaws` | scoring, ranking and the recommended slots |
| `Bundles`, `OutcomeExport`, `OutcomeReader`, `Joining`, `OutcomeRoundTrip`, `ExportLaws` | outcome input: export into fragments and reading them back |
| `Settlement`, `LeadTime`, `SettlementLaws` | settlement of one generation |
| `Evaluation`, `Metrics`, `MetricsLaws`, `LatestOutcomes` | retrieval metrics |
| `Storage`, `Families`, `FormalLook`, `FormalLookLaws` | outcome editions, evaluation runs, frozen families and the one formal look |
| `Chart`, `ChartBuild`, `ChartTimeframes`, `ChartLaws` | nested chart timeframes |
| `Snapshot`, `CandleAudit`, `AuditLaws`, `AuditDetail` | reconciliation of two candle snapshots |
| `Prelude`, `Ranking`, `Sums` | shared vocabulary, finite rankings and sums |

Code that changes things step by step is a class or a method with loops, proved against a
specification function or predicate; what the system promises is proved about that
specification. The modules named `...Laws`, and `EpisodeHistory`, `DiscoveryPublished` and
`ArchiveProgress`, say what a specification means in terms of its inputs alone, without naming the
functions it is written with. A database transaction and the replacement of a file are each one step. Prices,
scores and returns are exact reals, times are integers (milliseconds, or seconds in charts and
audits), ids are named by their position in text order, and a digest is the content it
identifies. Clocks, inputs, crashes and lost replies are parameters.

Two properties hold because of something the code itself does not check there:

- A reader accepts every export. The export files an asset's points under the group of its
  reference and does not check that the reference stays the same within a day; the reader
  would refuse the bundle. It does stay the same, because one export selects one map version and
  a compiled map's version is the digest of its rows (`OutcomeRoundTrip.ExportAlwaysAccepted`).
  The exact condition for any rows is `OutcomeRoundTrip.AcceptedIffNoSplit`; where a mapping file is
  served under a version that is not the digest of its rows
  (apps/ranking-core/src/prep_watchdeck_ranking/cli.py:32 does not recompute it),
  `OutcomeRoundTrip.SplitExample` can happen.
- Contradictory outcome editions are refused only against the latest edition before them, so an
  order of rows can hide a contradiction (`LatestOutcomes.OrderDecides`); it can exactly when the
  contradiction is not at the greatest edition of its key (`LatestOutcomes.SomeOrderRefused`,
  `LatestOutcomes.EveryOrderRefused`). The store reads back one row a key, so on its outcomes no
  order is refused (`LatestOutcomes.StoredNeverRefused`).

## Model

| member | source | states |
|---|---|---|
| DiscoveryInvariant.SaveValid | apps/attention-core/src/prep_watchdeck_attention/discovery_storage.py:232-540 | A save (duplicate rows, an older cutoff, a refresh or a new cutoff) keeps the invariant of states, episodes and projections: every episode has 1 <= confirmations, (confirmations - 1) minutes <= observed time <= last cutoff - first cutoff, and a first observation after 0; every state refers to an open episode of its own asset, identity and policy; details, metadata and summary equal the projection of the latest response and of the episode history minimum. |
| DiscoveryInvariant.InterruptValid | apps/attention-core/src/prep_watchdeck_attention/discovery_storage.py:185-230 | A recorded failed observation keeps the same invariant. |
| DiscoveryInvariant.EvaluateValid | apps/attention-core/src/prep_watchdeck_attention/discovery_storage.py:365-532 | Evaluating a new cutoff, then pruning and projecting, keeps the same invariant. |
| DiscoveryInvariant.EvaluatedStateOk | apps/attention-core/src/prep_watchdeck_attention/discovery_storage.py:367-496 | After an evaluation every present or missing asset has a state whose episode, if any, is stored, open, of the same identity and policy, and was confirmed at the state's cutoff when matched. |
| DiscoveryInvariant.OneOpenEpisodePerAsset | apps/attention-core/src/prep_watchdeck_attention/discovery_storage.py:365-517 | An asset never has two open episodes. |
| DiscoveryInvariant.OpenIffReferenced | apps/attention-core/src/prep_watchdeck_attention/discovery_storage.py:482-517 | The open episodes are exactly those that some state refers to. |
| DiscoveryInvariant.ContinuingAddsOneMinute | apps/attention-core/src/prep_watchdeck_attention/discovery_storage.py:387-424 | A continuing confirmation adds one confirmation, exactly one minute of observed time, and moves the last cutoff by exactly one minute: no duration is invented. |
| DiscoveryInvariant.CarriedOk | apps/attention-core/src/prep_watchdeck_attention/discovery_storage.py:373-481 | Confirming, closing or suspending an episode keeps its duration bounds. |
| DiscoveryInvariant.StartedFresh | apps/attention-core/src/prep_watchdeck_attention/discovery_storage.py:433-457 | An episode started at a new cutoff has an id no stored episode has. |
| DiscoveryInvariant.BrokenCoherent | apps/attention-core/src/prep_watchdeck_attention/discovery_storage.py:191-212 | Forgetting states and suspending their episodes keeps references and duration bounds. |
| DiscoveryInvariant.PrunedKeepsOpen | apps/attention-core/src/prep_watchdeck_attention/discovery_storage.py:542-551 | Pruning removes no open episode, so none a state refers to. |
| DiscoveryStore.Store.SaveDiscovery | apps/attention-core/src/prep_watchdeck_attention/discovery_storage.py:232-540 | The row-by-row update of all tables equals the whole-table change of the specification; duplicate assets raise and change nothing, an older cutoff changes nothing, and the result is true exactly for a new cutoff. |
| DiscoveryStore.Store.EvaluateRow | apps/attention-core/src/prep_watchdeck_attention/discovery_storage.py:367-499 | One turn of the row loop makes exactly the change the specification makes when this row is added to those already evaluated. |
| DiscoveryStore.Store.EvaluateMissing | apps/attention-core/src/prep_watchdeck_attention/discovery_storage.py:502-517 | One turn of the missing-asset loop suspends the open episode and forgets the state of that asset only. |
| DiscoveryStore.Store.Refresh | apps/attention-core/src/prep_watchdeck_attention/discovery_storage.py:257-364 | A same-cutoff save breaks the continuity of missing or ineligible assets and republishes, and changes nothing else. |
| DiscoveryStore.RefreshRows | apps/attention-core/src/prep_watchdeck_attention/discovery_storage.py:273-323 | The refresh loop republishes each row by its published condition and identity, and its interruptions are exactly those of the absent and the broken assets. |
| DiscoveryStore.Store.BreakAssets | apps/attention-core/src/prep_watchdeck_attention/discovery_storage.py:324-341 | The interruption loop equals breaking all its assets at once, in any order. |
| DiscoveryStore.Store.InterruptDiscovery | apps/attention-core/src/prep_watchdeck_attention/discovery_storage.py:185-230 | A failed observation forgets every state, suspends every open episode and blanks the published rows; before the first response it does nothing. |
| DiscoveryStore.Store.WriteProjection | apps/attention-core/src/prep_watchdeck_attention/discovery_storage.py:138-183 | The latest, metadata, detail and summary tables all become the projection of one response, with the minimum first observation of the stored episodes. |
| DiscoveryStore.Store.HistoryMinimumQuery | apps/attention-core/src/prep_watchdeck_attention/discovery_storage.py:168-170 | The history start is the least first observation of any stored episode, or absent when there is none. |
| DiscoveryStore.Store.Initialize | apps/attention-core/src/prep_watchdeck_attention/discovery_storage.py:30-64 | Opening the tables rebuilds the projections of a stored response without changing states, episodes or that response. |
| DiscoveryStore.DistinctByCount | apps/attention-core/src/prep_watchdeck_attention/discovery_storage.py:241-242 | Comparing the number of distinct asset ids with the number of rows detects exactly the duplicates. |
| DiscoveryHistory.ConfirmationIsHistory | apps/attention-core/src/prep_watchdeck_attention/discovery_storage.py:387-432 | Over every history of saves, refreshes, failed observations and restarts, a row of a new cutoff is published as continuing, new, reconfirmed or initially confirmed exactly as the recorded events say, with the episode its asset then has: continuing if and only if the previous observation of the asset was a match one minute earlier with the same identity, policy, map and metric versions, with nothing between that broke continuity, and an episode to carry on. |
| DiscoveryHistory.Memory | apps/attention-core/src/prep_watchdeck_attention/discovery_storage.py:482-517 | The stored state of an asset always tells what the last save that observed it said, and whether anything since broke it. |
| DiscoveryHistory.LatestCutoff | apps/attention-core/src/prep_watchdeck_attention/discovery_storage.py:243-256 | The latest response always carries the greatest cutoff accepted so far. |
| DiscoveryHistory.EvaluatedOnceInOrder | apps/attention-core/src/prep_watchdeck_attention/discovery_storage.py:243-256 | Over every history, the cutoffs of the saves that take the evaluating branch, as the tables they meet decide it, are strictly increasing: none is evaluated twice. |
| DiscoveryHistory.TakenIffEvaluates | apps/attention-core/src/prep_watchdeck_attention/discovery_storage.py:243-257 | The tables take a save for a new cutoff exactly when its cutoff is above every cutoff saved before. |
| DiscoveryHistory.OnlyEvaluationsCount | apps/attention-core/src/prep_watchdeck_attention/discovery_storage.py:257-364 | Any other operation starts, confirms, ends and prunes no episode: at most it suspends. |
| DiscoveryHistory.KindOfLast | apps/attention-core/src/prep_watchdeck_attention/discovery_storage.py:244-257 | The tables tell a new cutoff from a repeated one exactly as the whole history does. |
| DiscoveryHistory.SupportedIffContiguous | apps/attention-core/src/prep_watchdeck_attention/discovery_storage.py:387-396 | The contiguity flag computed from the stored state is true exactly when the history supports it. |
| DiscoveryHistory.EndedForever | apps/attention-core/src/prep_watchdeck_attention/discovery_storage.py:373-386 | Over every history, an ended episode never changes again and, once pruned, never comes back. |
| DiscoveryHistory.RefreshOnlySuspends | apps/attention-core/src/prep_watchdeck_attention/discovery_storage.py:257-364 | A refresh creates, ends and counts nothing: an open episode is at most suspended. |
| DiscoveryHistory.RefreshOnlyFalls | apps/attention-core/src/prep_watchdeck_attention/discovery_storage.py:278-323 | A refreshed row repeats the published condition of the same identity or falls to unknown without a confirmation. |
| EpisodeHistory.EpisodesAreHistory | apps/attention-core/src/prep_watchdeck_attention/discovery_storage.py:365-518 | Over every history, each stored episode is what the recorded events make it: it began with a match that carried no earlier one on; its confirmations are one plus its continuing rows since its last other confirmation; its observed time is one minute for each continuing row; last confirmation, source, cutoff and direction are those of its last match; it is active, or interrupted for the reason of the last break since; and if it ended, the first observation to the contrary ended it, at that time and for that reason. |
| EpisodeHistory.AlwaysTold | apps/attention-core/src/prep_watchdeck_attention/discovery_storage.py:365-518 | Over every history, the state of an asset refers to an episode exactly if some match of the asset has lasted, and that episode is the one the match began, as the events tell it. |
| EpisodeHistory.LastingIsStored | apps/attention-core/src/prep_watchdeck_attention/discovery_storage.py:433-517 | A match that no later observation contradicts has its open episode in the tables, through refreshes, failures, restarts and pruning. |
| EpisodeHistory.ProgressMatched | apps/attention-core/src/prep_watchdeck_attention/discovery_storage.py:399-424 | A continuing match adds one confirmation and one minute; any other carried-on match restarts the count at one and adds no time. |
| DiscoveryPublished.PublishedIsHistory | apps/attention-core/src/prep_watchdeck_attention/discovery_storage.py:185-364 | Over every history, each published row shows the condition, reason and confirmation the last evaluation gave its identity until a failed observation or a refresh without that identity fit to be shown, and unknown from then on; and the response is stale exactly from a failed observation to the next evaluation, with that failure's reason. |
| DiscoveryPublished.RowsNameEpisodes | apps/attention-core/src/prep_watchdeck_attention/discovery_storage.py:276-323 | Over every history, a published row names no episode but its asset's open one, and a row still shown names it whenever there is one. |
| DiscoveryPublished.RefreshedMeans | apps/attention-core/src/prep_watchdeck_attention/discovery_storage.py:276-323 | A refreshed row repeats state, reason and confirmation published for the same identity if it is fit to be shown; otherwise it is unknown, unconfirmed, and says why. |
| DiscoveryPublished.EvaluationReady | apps/attention-core/src/prep_watchdeck_attention/discovery_storage.py:501-531 | An evaluation is ready exactly if every row is known and no open episode's asset is missing, and partial otherwise. |
| DiscoveryPublished.RefreshReady | apps/attention-core/src/prep_watchdeck_attention/discovery_storage.py:324-363 | A refresh of a response that is not stale is ready exactly if every published row is known and every asset evaluated so far is repeated with its identity and policy. |
| DiscoveryPublished.SummaryShowsLatest | apps/attention-core/src/prep_watchdeck_attention/discovery_storage.py:138-183 | The summary shows the latest response row by row and the least first observation of the stored episodes. |
| DiscoveryRetention.PruneIsExact | apps/attention-core/src/prep_watchdeck_attention/discovery_storage.py:542-551 | Pruning leaves all open episodes and, of the ended ones inside the retention window, exactly the 10,000 newest by end time and id, each unchanged. |
| DiscoveryRetention.EvaluationRetains | apps/attention-core/src/prep_watchdeck_attention/discovery_storage.py:518-551 | After a new cutoff no stored episode ended more than a week before its decision, at most 10,000 ended ones are stored, and one within the week is dropped only for 10,000 that ended later. |
| DiscoveryPages.HistoryPage | apps/attention-core/src/prep_watchdeck_attention/discovery_storage.py:562-608 | A page lists the next episodes of the asset scope below the cursor, newest first; a cursor of another scope, or with a non-positive time, is refused; a next cursor is returned exactly when more remain. |
| DiscoveryPages.FollowedListsAll | apps/attention-core/src/prep_watchdeck_attention/discovery_storage.py:578-608 | The pages that a chain of next cursors yields list every episode of the scope exactly once in descending (first observation, id) order, for every limit 1..50. |
| DiscoveryPages.FollowAll | apps/attention-core/src/prep_watchdeck_attention/discovery_storage.py:553-626 | In every state the operations reach, following the next cursor from the start ends and meets no invalid cursor. |
| DiscoveryPages.NewestFirst | apps/attention-core/src/prep_watchdeck_attention/discovery_storage.py:593-601 | Listed episodes go from the newest first observation to the oldest, ties by the greater id. |
| DiscoveryPages.PositiveTimes | apps/attention-core/src/prep_watchdeck_attention/discovery_storage.py:582-588 | In every state the operations reach, first observations are positive, as the cursor check needs. |
| DiscoveryRead.ReadDiscovery | apps/attention-core/src/prep_watchdeck_attention/discovery_storage.py:553-626 | A read refuses an invalid query, then a changed generation, then a bad cursor; otherwise it returns the latest response with the selected rows, the start of their history and the page. |
| DiscoveryRead.ReadLatest | apps/attention-core/src/prep_watchdeck_attention/discovery_storage.py:87-120 | Reading a selection through the indexed details gives exactly the selected rows of the latest response, in published order. |
| DiscoveryRead.FirstObserved | apps/attention-core/src/prep_watchdeck_attention/discovery_storage.py:569-577 | The history start is the least first observation of the selected episodes, or absent. |
| Service.Service.GenerateOnce | apps/attention-core/src/prep_watchdeck_attention/service.py:108-181 | One publishing attempt: which events reach the discovery store, what becomes of the current and pending generation, the restart flag, the error and the cycle count, for every input, repeated input, pending retry, failure to prepare a candidate and storage failure. |
| Service.Service.Publish | apps/attention-core/src/prep_watchdeck_attention/service.py:158-176 | Publishing succeeds exactly when the generation is stored, is the latest, and discovery saves it; otherwise it stays pending and the failure is recorded. |
| Service.Service.EvaluateDiscovery | apps/attention-core/src/prep_watchdeck_attention/service.py:162-168 | The discovery save returns true exactly when the tables take its cutoff for new, and then its cutoff is above every cutoff evaluated before, by this process or an earlier one. |
| Service.Service.ObservationFailed | apps/attention-core/src/prep_watchdeck_attention/service.py:101-106 | A failed observation interrupts discovery, or reports the storage when even that fails. |
| Service.Service.SaveGeneration | apps/attention-core/src/prep_watchdeck_attention/storage.py:177-255 | A generation id is stored at most once with one content, and evidence at most once a cutoff. |
| Service.NothingBridged | apps/attention-core/src/prep_watchdeck_attention/service.py:95-106 | No continuing or new confirmation rests on an observation from before a process restart or a recorded failure. |
| Service.AttemptsEvaluateInOrder | apps/attention-core/src/prep_watchdeck_attention/service.py:108-181 | Whatever attempts, restarts, retries and failures led to a service, its log evaluates each cutoff at most once, in strictly increasing order (the theorem on histories, on the log every attempt keeps). |
| Service.FlagsExtended | apps/attention-core/src/prep_watchdeck_attention/service.py:162-168 | A log in which every save without the restart flag follows an evaluation of the same process stays so with the next event. |
| ServiceLaws.RepeatsIffSameMarket | apps/attention-core/src/prep_watchdeck_attention/service.py:125-135 | An observation repeats the current generation, or retries the pending one, exactly if ranking generation, map, metric and market inputs agree. |
| ServiceLaws.NewInputsArePublished | apps/attention-core/src/prep_watchdeck_attention/service.py:132-174 | An undisturbed cycle with new inputs publishes them with their own clocks and rows, as evidence exactly for the first generation of a five-minute cutoff. |
| ServiceLaws.PendingIsRetried | apps/attention-core/src/prep_watchdeck_attention/service.py:132-174 | An undisturbed cycle over the inputs of the pending generation publishes that one, with its original clocks, rows and evidence flag. |
| ServiceLaws.NotPublished | apps/attention-core/src/prep_watchdeck_attention/service.py:158-171 | No cycle publishes over another generation of the same id, behind a later decision, or as second evidence of a cutoff; and discovery then saves nothing. |
| ServiceLaws.CycleWithoutCommit | apps/attention-core/src/prep_watchdeck_attention/service.py:103-131 | A cycle that reads nothing new records no more than one failed observation, with the reason of the failure. |
| Archive.ManifestTable.StageManifest | apps/market-core/src/prep_watchdeck_market/archive.py:381-437 | Staging adds one staged row with a generation above every other of its partition. |
| Archive.ManifestTable.ConfirmManifest | apps/market-core/src/prep_watchdeck_market/archive.py:440-510 | Confirming supersedes the older current row, confirms this one and returns the files of all but the three newest superseded rows; it refuses a row that is not staged or is older than the current one, and then changes nothing. |
| Archive.ManifestTable.MarkManifestFailed | apps/market-core/src/prep_watchdeck_market/archive.py:513-526 | Only a still staged row is marked failed, and the result says whether it was. |
| Archive.StepKeeps | apps/market-core/src/prep_watchdeck_market/archive.py:113-206 | Every atomic step of every worker, including a crash and a commit whose reply is lost, keeps the protocol invariant. |
| Archive.ArchiveSafety | apps/market-core/src/prep_watchdeck_market/archive.py:113-206 | After any interleaving each partition has at most one confirmed row; it has the greatest generation of all ever confirmed and its file exists with the verified content, as do the files of the three newest superseded rows. |
| Archive.DeletesOnlySpent | apps/market-core/src/prep_watchdeck_market/archive.py:529-542 | A step deletes only the file of a failed row or of a superseded row with at least three newer superseded ones. |
| Archive.CurrentNeverGoesBack | apps/market-core/src/prep_watchdeck_market/archive.py:464-493 | Between any two points of a run the confirmed generation of a partition never decreases and never disappears. |
| Archive.RunIsLater | apps/market-core/src/prep_watchdeck_market/archive.py:440-526 | Rows are never removed, never change partition or generation, and what was ever confirmed stays confirmed or superseded. |
| Archive.FilesChange | apps/market-core/src/prep_watchdeck_market/archive.py:163-163 | Moving or removing a file keeps what the other workers rely on when no staged or required file is lost. |
| Archive.ConfirmRowsOk | apps/market-core/src/prep_watchdeck_market/archive.py:464-493 | Confirming keeps one current row a partition, above all superseded ones. |
| Archive.PathsDistinct | apps/market-core/src/prep_watchdeck_market/archive.py:408-411 | Two rows never share a file path. |
| ArchiveProgress.ConfirmsUnlessOutdated | apps/market-core/src/prep_watchdeck_market/archive.py:440-510 | Over every run, a worker whose file is in place makes its generation the current one unless a greater one is confirmed: the confirmed row before it is superseded, nothing else changes, and exactly the fourth and older superseded files are to be removed. Otherwise nothing changes. |
| ArchiveProgress.UndisturbedCallReturns | apps/market-core/src/prep_watchdeck_market/archive.py:150-187 | From every reachable state an undisturbed call returns with its generation current above all others, its file in place with the verified content, and the fourth and older superseded files gone. |
| ArchiveProgress.FailedCallCleansUp | apps/market-core/src/prep_watchdeck_market/archive.py:188-199 | A failing worker whose row is still staged marks it failed and removes its file, and touches nothing else; if the commit had succeeded, rows and files stay as they are. |
| ArchiveProgress.PrunesAll | apps/market-core/src/prep_watchdeck_market/archive.py:537-542 | A pruning worker left alone removes exactly the files it was given and returns. |
| Percentiles.MidrankPercentiles | apps/attention-core/src/prep_watchdeck_attention/percentiles.py:8-22 | The grouped loop gives each key 100 (less + (equal - 1) / 2) / (n - 1), or 50 alone; a bad minimum and too few peers are refused. |
| Percentiles.ScoreGroups | apps/attention-core/src/prep_watchdeck_attention/percentiles.py:15-22 | The running offset scores each run of equal values by counting. |
| Percentiles.OrderPreserved | apps/attention-core/src/prep_watchdeck_attention/percentiles.py:17-21 | A lower value has a lower score, and equal values have equal scores, in both directions. |
| Percentiles.Bounded | apps/attention-core/src/prep_watchdeck_attention/percentiles.py:19 | Scores stay in [0, 100]. |
| Percentiles.NegationMirrors | apps/attention-core/src/prep_watchdeck_attention/percentiles.py:17-21 | Negating all values turns every score s into 100 - s. |
| Percentiles.SumIsFiftyEach | apps/attention-core/src/prep_watchdeck_attention/percentiles.py:17-21 | The scores of n keys sum to exactly 50 n, whatever the ties. |
| ComponentsLaws.ExtremesScore | apps/attention-core/src/prep_watchdeck_attention/percentiles.py:8-22 | An untied greatest value scores 100 and an untied least one 0. |
| Allocation.AllocateShadowHotset | apps/attention-core/src/prep_watchdeck_attention/allocation.py:13-162 | The recommendation is the set its policy prescribes, its slots in score order, and the exact difference, churn and cost against the comparable previous slots. |
| Allocation.ChooseHysteresis | apps/attention-core/src/prep_watchdeck_attention/allocation.py:78-98 | The two loops choose the first k incumbents that are held or within the buffer, by seniority, and then the best challengers ranked within k. |
| Allocation.ChooseCostAware | apps/attention-core/src/prep_watchdeck_attention/allocation.py:99-118 | The cost-aware loop considers every eligible asset once in score order, filling or swapping as its turn rule says. |
| Allocation.ConsiderAsset | apps/attention-core/src/prep_watchdeck_attention/allocation.py:101-118 | A turn fills an open slot, or swaps out the weakest member that is not held exactly when the gain exceeds the transition cost. |
| Allocation.ChooseTop | apps/attention-core/src/prep_watchdeck_attention/allocation.py:76-77 | Top-k is exactly the eligible assets with fewer than k better ones. |
| AllocationProperties.CostTriangle | apps/attention-core/src/prep_watchdeck_attention/allocation.py:66-74 | A transition made through an intermediate set never costs less than the direct one, an empty transition costs nothing, and no cost is negative. |
| AllocationProperties.HeldNeverEvicted | apps/attention-core/src/prep_watchdeck_attention/allocation.py:107-118 | The cost-aware loop never evicts an incumbent inside its hold. |
| AllocationProperties.SizeWithinK | apps/attention-core/src/prep_watchdeck_attention/allocation.py:104-118 | The chosen set only grows until it has k members and never exceeds k. |
| AllocationProperties.GainCoversCost | apps/attention-core/src/prep_watchdeck_attention/allocation.py:113-118 | From any point after the slots are filled, the total score gain over 100 covers the whole transition cost, strictly if anything was swapped. |
| AllocationProperties.MembershipChangesOnce | apps/attention-core/src/prep_watchdeck_attention/allocation.py:101-118 | No asset's membership changes more than once in a call: what was evicted stays out and what was admitted stays in. |
| AllocationProperties.AllocationValid | apps/attention-core/src/prep_watchdeck_attention/allocation.py:119-162 | Every allocation has at most k distinct slots entered no later than its decision, and churn in [0, 1], so it may be the previous of the next call. |
| AllocationProperties.HysteresisSlots | apps/attention-core/src/prep_watchdeck_attention/allocation.py:78-98 | Every hysteresis slot has rank at most k, or is an incumbent that is held or has rank at most k + buffer. |
| AllocationProperties.HysteresisKeepsHeld | apps/attention-core/src/prep_watchdeck_attention/allocation.py:78-93 | An eligible incumbent inside its hold is chosen again, provided the prior slots fit in k. |
| AllocationProperties.PlainHysteresisIsTopK | apps/attention-core/src/prep_watchdeck_attention/allocation.py:78-98 | With buffer 0 and hold 0, hysteresis chooses exactly the top k when ranks follow the scores. |
| AllocationProperties.HeldOverRuns | apps/attention-core/src/prep_watchdeck_attention/allocation.py:55-98 | Over any run of comparable hysteresis or cost-aware allocations, an asset that stays eligible and inside its hold keeps its slot and entry time. |
| AllocationLaws.FreeIffSame | apps/attention-core/src/prep_watchdeck_attention/allocation.py:66-74 | With a positive switch penalty a transition costs nothing exactly if the same groups occur and the same assets have no group. |
| AllocationLaws.GrouplessPays | apps/attention-core/src/prep_watchdeck_attention/allocation.py:69-74 | A further asset without a group costs the switch penalty and the warm-up on arrival and the switch penalty on leaving, whatever else changes. |
| AllocationLaws.GroupPays | apps/attention-core/src/prep_watchdeck_attention/allocation.py:67-74 | A further group costs the same, and an asset of a group that is there already costs nothing. |
| AllocationLaws.SwapsIffPays | apps/attention-core/src/prep_watchdeck_attention/allocation.py:107-118 | With full slots an asset replaces the weakest member that is not held exactly if the score gained is more than a hundred times the transition cost. |
| AllocationLaws.CostAwareFills | apps/attention-core/src/prep_watchdeck_attention/allocation.py:99-106 | The cost-aware policy leaves a fit row out only when all k slots are taken. |
| AllocationLaws.TopIsBest | apps/attention-core/src/prep_watchdeck_attention/allocation.py:54-77 | Top-k, and any allocation that continues none, leaves a fit row out only for k stronger ones. |
| AllocationLaws.HysteresisLeavesOut | apps/attention-core/src/prep_watchdeck_attention/allocation.py:78-98 | Hysteresis leaves a qualified incumbent out only for k senior ones, and a top-ranked challenger only when qualified incumbents and stronger challengers fill all slots. |
| AllocationLaws.HysteresisSlotsQualify | apps/attention-core/src/prep_watchdeck_attention/allocation.py:79-98 | A hysteresis slot has rank within k, or belongs to an asset that had one and is within its hold or rank k plus buffer. |
| AllocationLaws.SlotsShowRows | apps/attention-core/src/prep_watchdeck_attention/allocation.py:34-129 | Each slot shows score, rank and current groups of a row of a usable response with an eligible identity and data at most 150 seconds old, and when its asset entered. |
| AllocationLaws.SlotsInOrder | apps/attention-core/src/prep_watchdeck_attention/allocation.py:119-160 | At most k slots, from the strongest to the weakest, under the response's decision, map and score policy. |
| AllocationLaws.ChangesAreTold | apps/attention-core/src/prep_watchdeck_attention/allocation.py:20-160 | Comparability, reason, added, removed and retained assets and groups, churn and switch cost are those between the slots before and the slots now. |
| Components.ScoreAttention | apps/attention-core/src/prep_watchdeck_attention/components.py:43-204 | Every component is scored, ranked and published from exactly the eligible features; duplicate assets are refused; rows come in the published order. |
| Components.RankScores | apps/attention-core/src/prep_watchdeck_attention/components.py:96-99 | The enumerated ranks are one more than the number of better scored assets. |
| Components.RankIsRawOrder | apps/attention-core/src/prep_watchdeck_attention/components.py:91-99 | A component's rank orders assets by raw strength, greatest first, ties by asset id. |
| Components.ScoresBounded | apps/attention-core/src/prep_watchdeck_attention/components.py:91-142 | All component scores, and confluence, stay in [0, 100]. |
| Components.ConfluenceLeads | apps/attention-core/src/prep_watchdeck_attention/components.py:196-208 | Rows with a confluence score come before all rows without one, in confluence order. |
| Components.ScoredRanksAgree | apps/attention-core/src/prep_watchdeck_attention/components.py:143-148 | In any scored response an eligible asset ranks within k exactly when it is among the k best scored. |
| Components.ScoredHysteresisIsTopK | apps/attention-core/src/prep_watchdeck_attention/allocation.py:78-98 | For any scored response, hysteresis without buffer or hold recommends exactly what top-k does. |
| ComponentsLaws.ConfluenceIsMean | apps/attention-core/src/prep_watchdeck_attention/components.py:138-142 | A row has confluence exactly if all four components are ready, and it is their mean. |
| ComponentsLaws.RowsAreFeatures | apps/attention-core/src/prep_watchdeck_attention/components.py:150-206 | One row for each feature with its identity and originals and data as of the ranking cutoff, ordered by confluence, movement, activity and asset, missing scores last. |
| ComponentsLaws.ScoredIffUsable | apps/attention-core/src/prep_watchdeck_attention/components.py:70-95 | A component is scored exactly for eligible assets with a ready candidate, and only if there are at least the minimum of them. |
| ComponentsLaws.GreatestMagnitude | apps/attention-core/src/prep_watchdeck_attention/components.py:73-84 | Movement, positioning and dislocation are scored on the greatest magnitude of a ready candidate. |
| ComponentsLaws.GreatestActivity | apps/attention-core/src/prep_watchdeck_attention/components.py:73-84 | Activity is scored on the greatest ready candidate, sign and all. |
| ComponentsLaws.StatusTells | apps/attention-core/src/prep_watchdeck_attention/components.py:207-222 | A response is ready if every row has confluence, unavailable if no row has any component, and partial otherwise. |
| OutcomeExport.Export | apps/attention-core/src/prep_watchdeck_attention/outcome_export.py:76-259 | A window that is not closed, aligned, positive and at most a day, a map without saved generations, and two native observations of one asset in one minute are refused; otherwise the fragments are exactly those of the rows and the bars table. |
| OutcomeExport.WriteFragments | apps/attention-core/src/prep_watchdeck_attention/outcome_export.py:168-226 | The day and group loops write a fragment for exactly the days and groups that have any bar or native point, once each, with that day's and group's content. |
| OutcomeExport.GatherRows | apps/attention-core/src/prep_watchdeck_attention/outcome_export.py:114-155 | The row loop refuses exactly when an asset has two observations in one minute, and otherwise files each point under its row's reference. |
| OutcomeExport.MakeGroups | apps/attention-core/src/prep_watchdeck_attention/outcome_export.py:171-175 | The groups are the sorted keys in runs of 64, then the empty key; each key is in exactly one. |
| OutcomeExport.GatherBars | apps/attention-core/src/prep_watchdeck_attention/outcome_export.py:184-203 | The bars of a group in a window are exactly those of the table, one a key and minute; the empty key has none. |
| OutcomeExport.GatherNative | apps/attention-core/src/prep_watchdeck_attention/outcome_export.py:178-183 | The native points of a group in a window are exactly those filed under its references. |
| OutcomeRoundTrip.ExportIsComplete | apps/attention-core/src/prep_watchdeck_attention/outcome_export.py:168-226 | The fragments together hold exactly the table's bars of the exported keys in the window: nothing lost, nothing added. |
| OutcomeRoundTrip.ExportAlwaysAccepted | apps/attention-core/src/prep_watchdeck_attention/outcomes.py:219-249 | Every export of generations built on compiled maps, published as it is, passes the reader's binding, window and overlap checks. |
| OutcomeRoundTrip.VersionFixesReferences | apps/ranking-core/src/prep_watchdeck_ranking/mapping.py:101-105 | A map version is the digest of the map's rows, so one version gives an asset one reference or none throughout an export. |
| OutcomeRoundTrip.AcceptedIffNoSplit | apps/attention-core/src/prep_watchdeck_attention/outcomes.py:219-249 | Whatever the rows, a reader accepts an exported bundle if and only if no asset has native points under references of different groups within one UTC day. |
| OutcomeRoundTrip.SplitExample | apps/attention-core/src/prep_watchdeck_attention/outcomes.py:239-249 | Where two maps share one version, an asset with and without a reference in one day is exported, and the reader refuses the bundle although every fragment is on disk as published. |
| OutcomeRoundTrip.RoundTrip | apps/attention-core/src/prep_watchdeck_attention/outcomes.py:287-298 | Inside its window an exported bundle answers every query of an exported key exactly as the source table does. |
| OutcomeRoundTrip.JoinedRoundTrip | apps/attention-core/src/prep_watchdeck_attention/outcomes.py:362-370 | Bundles whose windows cover a query together answer it exactly as the source table does, and never conflict. |
| ExportLaws.AnswersAreTheTable | apps/attention-core/src/prep_watchdeck_attention/outcomes.py:202-315 | What readers of exported bundles answer to a query their windows cover is exactly the table's rows of the key in the window, in time order. |
| ExportLaws.NeededReferencesExported | apps/attention-core/src/prep_watchdeck_attention/outcome_export.py:117-126 | Every reference of a saved generation of the map is exported if any minute its settlement reads, from the cutoff to an hour later, is in the window. |
| ExportLaws.OnlyScopedExported | apps/attention-core/src/prep_watchdeck_attention/outcome_export.py:117-126 | Every exported reference is of a generation of the map decided in the window or the hour before it. |
| ExportLaws.NativeIsComplete | apps/attention-core/src/prep_watchdeck_attention/outcome_export.py:127-186 | The fragments hold exactly the observations of the selected rows whose first minute is in the window. |
| ExportLaws.ConflictMeans | apps/attention-core/src/prep_watchdeck_attention/outcome_export.py:127-133 | The export is refused as conflicting exactly if two rows observe one asset in one minute of the window. |
| ExportLaws.FragmentsAreSmall | apps/attention-core/src/prep_watchdeck_attention/outcome_export.py:168-178 | A fragment lies within one UTC day and names at most 64 of the exported references. |
| ExportLaws.FitsManifest | apps/attention-core/src/prep_watchdeck_attention/outcome_export.py:168-226 | With at most 65,472 references an export never exceeds what a manifest may list. |
| ExportLaws.KeepsLastTwo | apps/attention-core/src/prep_watchdeck_attention/outcomes.py:271-285 | The cache keeps the fetched fragment and the one used before it. |
| OutcomeReader.PartitionedReader.Open | apps/attention-core/src/prep_watchdeck_attention/outcomes.py:219-250 | Opening accepts exactly the bundles whose names are unique, whose fragments are on disk as published, match their bindings and windows, and in which no identity has two overlapping fragments. |
| OutcomeReader.PartitionedReader.Bars | apps/attention-core/src/prep_watchdeck_attention/outcomes.py:287-298 | Whatever becomes of the disk, an answer read through the index and the two-fragment cache is exactly the published bars of the key in (after, through], strictly ascending; it fails only when a fragment changed on disk. |
| OutcomeReader.Cache.Fetch | apps/attention-core/src/prep_watchdeck_attention/outcomes.py:271-285 | A cached fragment is returned and becomes the newest; any other is read only if it still has its digest, and the oldest of more than two is dropped. |
| OutcomeReader.FetchAuthentic | apps/attention-core/src/prep_watchdeck_attention/outcomes.py:274-285 | The cache never holds anything but published content. |
| OutcomeReader.AddEntry | apps/attention-core/src/prep_watchdeck_attention/outcomes.py:239-249 | The key loop rejects an entry exactly when it repeats an identity or overlaps an earlier fragment of one, and otherwise extends the index. |
| OutcomeReader.FixtureBars | apps/attention-core/src/prep_watchdeck_attention/outcomes.py:172-173 | A fragment's bars of a key in a window, in strictly ascending time. |
| OutcomeReader.CollectedAll | apps/attention-core/src/prep_watchdeck_attention/outcomes.py:287-298 | The index misses no fragment that holds a bar of the key. |
| Joining.JoinedReader.Bars | apps/attention-core/src/prep_watchdeck_attention/outcomes.py:362-370 | The joined answer is the union of the readers' bars, strictly ascending; a conflict is raised only if two readers hold different bars for one minute of the window. |
| Joining.JoinedReader.constructor | apps/attention-core/src/prep_watchdeck_attention/outcomes.py:321-331 | Joining empties the readers' caches and gives them one shared cache. |
| Joining.AnsweredMeansNoConflict | apps/attention-core/src/prep_watchdeck_attention/outcomes.py:362-370 | A joined answer rules a conflict out, so a conflict is raised exactly when there is one. |
| Joining.OneSourceNeverConflicts | apps/attention-core/src/prep_watchdeck_attention/outcomes.py:366-368 | Bars taken from one source never conflict. |
| Bundles.OneAnswer | apps/attention-core/src/prep_watchdeck_attention/outcomes.py:287-298 | There is exactly one strictly ascending answer to a query, so the partitioned, joined and flat readers agree. |
| Settlement.ReferenceOutcome | apps/attention-core/src/prep_watchdeck_attention/outcomes.py:385-470 | Each asset is pending, unscorable for the first reason that applies, or ready with the greatest move of any bar of the horizon and the return of its last close. |
| Settlement.OutcomeIsLocal | apps/attention-core/src/prep_watchdeck_attention/outcomes.py:425-456 | The outcome depends only on the bars of the asset's own reference in (cutoff - minute, through]. |
| Settlement.EveryMinuteIffUnbroken | apps/attention-core/src/prep_watchdeck_attention/outcomes.py:453-454 | The list of bar ends equals the minute range exactly when every minute of the horizon has its bar. |
| Settlement.BaselineFound | apps/attention-core/src/prep_watchdeck_attention/outcomes.py:436-443 | The baseline query yields one bar at the cutoff exactly when the input has one. |
| Settlement.MaxMove | apps/attention-core/src/prep_watchdeck_attention/outcomes.py:455 | The maximum return is attained by a bar and exceeded by none. |
| Settlement.MoveIsFurthest | apps/attention-core/src/prep_watchdeck_attention/outcomes.py:455 | No price between a bar's low and high is further from the baseline than the bar's move, and one is as far. |
| Prelude.OutcomeCutoff | apps/attention-core/src/prep_watchdeck_attention/models.py:20-22 | The cutoff is the first minute boundary at or after the decision. |
| LeadTime.Settle | apps/attention-core/src/prep_watchdeck_attention/outcomes.py:571-609 | All assets of a horizon are settled and then measured against one common threshold. |
| LeadTime.Threshold | apps/attention-core/src/prep_watchdeck_attention/outcomes.py:576-584 | The threshold is the ceil(n / 10)-th largest ready move: fewer moves exceed it, at least that many reach it; there is none without a ready move. |
| LeadTime.ThresholdIsTopTenth | apps/attention-core/src/prep_watchdeck_attention/outcomes.py:584 | Fewer than a tenth of the ready moves exceed the threshold, and at least a tenth reach it. |
| LeadTime.ThresholdUnique | apps/attention-core/src/prep_watchdeck_attention/outcomes.py:584 | No other value has that property. |
| LeadTime.LeadOf | apps/attention-core/src/prep_watchdeck_attention/outcomes.py:586-604 | A ready asset has a lead time exactly when its greatest move reaches the threshold, and it is that of the first such bar, in seconds after the decision. |
| LeadTime.LeadsAreTheTop | apps/attention-core/src/prep_watchdeck_attention/outcomes.py:584-604 | As many assets have a lead time as moves reach the threshold: at least a tenth of the ready ones. |
| SettlementLaws.ReadyIff | apps/attention-core/src/prep_watchdeck_attention/outcomes.py:385-471 | An outcome is ready exactly if its horizon is over, its identity has a reference, the reader is of the decision's map and has not renamed the reference, and the cutoff and every minute of the horizon have their bar. |
| SettlementLaws.ReasonsInOrder | apps/attention-core/src/prep_watchdeck_attention/outcomes.py:425-454 | An outcome that is not ready says the first thing missing, in the order clock, reference, map, revision, baseline, gap. |
| SettlementLaws.ReadySays | apps/attention-core/src/prep_watchdeck_attention/outcomes.py:455-471 | A ready outcome states, in percent of the close at the cutoff, the greatest distance a high or low of the horizon reaches and none exceeds, and where the last bar closes. |
| SettlementLaws.LeadTells | apps/attention-core/src/prep_watchdeck_attention/outcomes.py:588-610 | A lead time exists exactly for a ready move that reaches the threshold; it ends at the first bar that does, and is positive and at most the horizon and a minute. |
| SettlementLaws.BundlesSettleAlike | apps/attention-core/src/prep_watchdeck_attention/outcome_export.py:168-226 | Bundles whose windows cover a decision settle the same outcome as the table they were exported from. |
| LeadTime.SortDescending | apps/attention-core/src/prep_watchdeck_attention/outcomes.py:576-583 | The sorted moves are the same values, each as often. |
| LeadTime.Median | apps/attention-core/src/prep_watchdeck_attention/evaluation.py:202 | The median is the middle value, or the mean of the two middle ones; there is none of no values. |
| LeadTime.MedianBalances | apps/attention-core/src/prep_watchdeck_attention/evaluation.py:202 | At most half of the values lie above the median and at most half below. |
| Evaluation.DominatedPrefixes | apps/attention-core/src/prep_watchdeck_attention/evaluation.py:183-184 | With non-increasing discounts, a list whose every prefix gains at least as much has at least the discounted gain. |
| Evaluation.FirstGainMost | apps/attention-core/src/prep_watchdeck_attention/evaluation.py:174-184 | No m assets gain more together than the first m of the realised order. |
| Evaluation.SelectionIsAtMostIdeal | apps/attention-core/src/prep_watchdeck_attention/evaluation.py:183-184 | The discounted gain of any distinct selection is at most that of equally many realised leaders. |
| Evaluation.NdcgBounds | apps/attention-core/src/prep_watchdeck_attention/evaluation.py:182-186 | DCG lies between zero and the ideal DCG of the k leaders, for every distinct selection of at most k assets. |
| Metrics.MetricsAccumulator.Add | apps/attention-core/src/prep_watchdeck_attention/evaluation.py:131-193 | Every generation adds its coverage, outcome coverage and missing rate; churn only against the previous selection under the same map; retrieval metrics and the lead times of its relevant members only for a non-empty selection whose outcomes are all ready; all kept fractions stay in [0, 1]. |
| Metrics.MetricsAccumulator.Finish | apps/attention-core/src/prep_watchdeck_attention/evaluation.py:195-213 | The report holds the means and the median lead, absent for empty lists; every mean of fractions and the complete share lie in [0, 1]. |
| Metrics.Retrieve | apps/attention-core/src/prep_watchdeck_attention/evaluation.py:174-189 | Recall and precision count the selected members of the top decile, NDCG compares with the realised leaders, and the future return is the mean gain of the selection. |
| Metrics.TopDecile | apps/attention-core/src/prep_watchdeck_attention/evaluation.py:175-177 | The relevant assets are those with a positive gain ranked within ceil(n / 10). |
| Metrics.RetrievalBounded | apps/attention-core/src/prep_watchdeck_attention/evaluation.py:179-188 | Recall, precision and NDCG lie in [0, 1], and recall and precision are recorded together. |
| Metrics.PerfectSelection | apps/attention-core/src/prep_watchdeck_attention/evaluation.py:183-186 | Selecting the realised leaders in realised order has NDCG 1. |
| Metrics.ChurnMeasuresOverlap | apps/attention-core/src/prep_watchdeck_attention/evaluation.py:159-162 | Set churn is symmetric, in [0, 1], 0 exactly for equal selections and 1 exactly for disjoint ones. |
| Metrics.RankChurnIsFraction | apps/attention-core/src/prep_watchdeck_attention/evaluation.py:163-170 | Rank churn lies in [0, 1]. |
| Metrics.RankChurnZero | apps/attention-core/src/prep_watchdeck_attention/evaluation.py:163-170 | Rank churn is 0 exactly when every common asset keeps its place. |
| Metrics.Select | apps/attention-core/src/prep_watchdeck_attention/evaluation.py:54-85 | The selection is the k best scored eligible assets in score order, from features alone. |
| Metrics.MatchOutcomes | apps/attention-core/src/prep_watchdeck_attention/evaluation.py:137-151 | The gains are exactly the ready outcomes settled for this decision, horizon and reference; mature outcomes are counted. |
| MetricsLaws.HitsAreShared | apps/attention-core/src/prep_watchdeck_attention/evaluation.py:175-181 | Recall is the number of selected assets in the top decile over the top decile, precision the same number over min(k, total); both are absent when nothing gained. |
| MetricsLaws.FullRecall | apps/attention-core/src/prep_watchdeck_attention/evaluation.py:175-180 | Recall is one exactly if the whole top decile was selected and zero exactly if none of it was. |
| MetricsLaws.FullPrecision | apps/attention-core/src/prep_watchdeck_attention/evaluation.py:175-181 | Precision is one exactly if as many selected assets as there were slots to fill are all in the top decile. |
| MetricsLaws.RecallIgnoresSlots | apps/attention-core/src/prep_watchdeck_attention/evaluation.py:175-189 | Recall and mean future return depend on neither k nor the size of the universe. |
| MetricsLaws.RelevantMeans | apps/attention-core/src/prep_watchdeck_attention/evaluation.py:175-177 | The top decile is what gained and has fewer than a tenth of the assets ahead of it. |
| MetricsLaws.NdcgOfOne | apps/attention-core/src/prep_watchdeck_attention/evaluation.py:182-186 | NDCG exists exactly if something gained, and for one slot it is the share of the greatest gain. |
| MetricsLaws.BetterOrderGainsMore | apps/attention-core/src/prep_watchdeck_attention/evaluation.py:182-184 | Moving a greater gain one place up never lowers the discounted gain, and raises it where the discount falls. |
| MetricsLaws.ChurnIsShareOfChange | apps/attention-core/src/prep_watchdeck_attention/evaluation.py:158-162 | Set churn is the share of the assets of either selection that only one of them has. |
| MetricsLaws.RankChurnIsMeanMove | apps/attention-core/src/prep_watchdeck_attention/evaluation.py:163-170 | Rank churn is the mean number of places a common asset moved over the largest possible move. |
| MetricsLaws.MissingIsShare | apps/attention-core/src/prep_watchdeck_attention/evaluation.py:155-157 | The missing rate is the share of selected assets without a realised gain, and one when nothing was selected. |
| MetricsLaws.GainsAreBound | apps/attention-core/src/prep_watchdeck_attention/evaluation.py:137-151 | A gain is counted exactly for a ready outcome of this generation, asset, horizon and reference that starts at the first minute at or after the decision. |
| MetricsLaws.MeasuredIffAllBound | apps/attention-core/src/prep_watchdeck_attention/evaluation.py:172-173 | A selection is measured exactly if it is not empty and each of its assets has its bound ready outcome. |
| MetricsLaws.SelectionLeavesOut | apps/attention-core/src/prep_watchdeck_attention/evaluation.py:135-136 | An eligible, scored asset is left out of a selection only for k better scored eligible ones. |
| MetricsLaws.LeadsAreOfHits | apps/attention-core/src/prep_watchdeck_attention/evaluation.py:190-193 | The recorded lead times are those of the selected assets in the top decile. |
| MetricsLaws.AverageGrows | apps/attention-core/src/prep_watchdeck_attention/evaluation.py:46-48 | A mean times its count grows by each value. |
| LatestOutcomes.Latest | apps/attention-core/src/prep_watchdeck_attention/evaluation.py:88-99 | One row per key, of its latest edition; refused exactly when some row contradicts the latest one of its key before it. |
| LatestOutcomes.SomeOrderRefused | apps/attention-core/src/prep_watchdeck_attention/evaluation.py:94-98 | Some order of the rows is refused exactly when two of them contradict each other: one key and edition, different content. |
| LatestOutcomes.EveryOrderRefused | apps/attention-core/src/prep_watchdeck_attention/evaluation.py:94-98 | Every order is refused exactly when two rows contradict each other at the greatest edition of their key. |
| LatestOutcomes.OrderDecides | apps/attention-core/src/prep_watchdeck_attention/evaluation.py:94-98 | Three rows of one key that are refused in one order and accepted in another. |
| LatestOutcomes.StoredNeverRefused | apps/attention-core/src/prep_watchdeck_attention/storage.py:374-382 | The outcomes the store reads back are refused in no order. |
| LatestOutcomes.OneRowAKeyNeverRefused | apps/attention-core/src/prep_watchdeck_attention/evaluation.py:94-98 | Rows with one reference row a key are refused in no order. |
| LatestOutcomes.ConsistentNeverRefused | apps/attention-core/src/prep_watchdeck_attention/evaluation.py:94-98 | Rows that never differ at one key and edition are never refused. |
| Storage.AttentionStore.PutOutcome | apps/attention-core/src/prep_watchdeck_attention/storage.py:384-422 | Repeated content returns the stored edition and changes nothing; other content becomes the next edition; with a crash before any step, earlier editions are untouched, editions stay 1..m with consecutive ones differing, and a published file that does not say it is stale names a stored run that is not stale. After a correction the file is the newest run's report marked stale; a first edition touches neither runs nor file. |
| Storage.AttentionStore.Commit | apps/attention-core/src/prep_watchdeck_attention/storage.py:415-421 | One transaction stores the edition and, for a correction, marks every run stale. |
| Storage.AttentionStore.SaveEvaluation | apps/attention-core/src/prep_watchdeck_attention/storage.py:471-488 | A run is stored once and before it is published; a different report under its id, or a stale run, is refused and changes nothing. |
| Storage.LatestEdition | apps/attention-core/src/prep_watchdeck_attention/storage.py:387-391 | The latest edition has the number of editions. |
| Storage.RepeatedMeans | apps/attention-core/src/prep_watchdeck_attention/storage.py:384-399 | An outcome repeats exactly if the key's last edition has its content; one that an older edition had is a correction. |
| Storage.OneDelivered | apps/attention-core/src/prep_watchdeck_attention/storage.py:374-382 | Reading back the greatest edition of each key gives one row a key. |
| Storage.PublishedIsCurrent | apps/attention-core/src/prep_watchdeck_attention/storage.py:401-421 | No correction was committed since the run of a published file that does not say it is stale was stored; a corollary of the invariant that every operation keeps. |
| Families.FamilyTables.FreezeFamily | apps/attention-core/src/prep_watchdeck_attention/storage.py:431-460 | A family is stored exactly as submitted, once; another submission of it, or a policy id with other content, is refused and changes nothing; other families keep their members. |
| Families.AddPolicies | apps/attention-core/src/prep_watchdeck_attention/storage.py:447-457 | The insert loop stores all policies or rolls back exactly when one differs from a stored policy of its id. |
| Families.FreezingKeepsWhole | apps/attention-core/src/prep_watchdeck_attention/storage.py:447-460 | The stored policies of every marked family stay exactly the ones it was frozen with. |
| FormalLook.Ledger.Evaluate | apps/attention-core/src/prep_watchdeck_attention/formal_evaluation.py:162-226 | One invocation, cut off anywhere, makes of the ledger what the specification says and returns what it says. |
| FormalLook.StreamEvidence | apps/attention-core/src/prep_watchdeck_attention/formal_evaluation.py:60-109 | The stream yields the payloads of the window in order, or fails on the first generation that does not fit protocol, scope or availability. |
| FormalLook.LedgerFixed | apps/attention-core/src/prep_watchdeck_attention/formal_evaluation.py:178-194 | Over any invocations, crashes and store changes, a reserved look keeps its protocol, input and availability, and a completed one never changes. |
| FormalLook.OneReport | apps/attention-core/src/prep_watchdeck_attention/formal_evaluation.py:180-226 | All invocations that return a report return the same one. |
| FormalLook.ReturnedIsRecorded | apps/attention-core/src/prep_watchdeck_attention/formal_evaluation.py:183-226 | A report is returned only once it is recorded. |
| FormalLook.ReportIsOfReservedEvidence | apps/attention-core/src/prep_watchdeck_attention/formal_evaluation.py:195-226 | The recorded report is the evaluation of the reserved evidence, none of which was settled after the availability cutoff. |
| FormalLook.Repeats | apps/attention-core/src/prep_watchdeck_attention/formal_evaluation.py:180-185 | After completion, an invocation over the same protocol repeats the report exactly when its evidence is the reserved one; a corollary of the single step. |
| FormalLookLaws.NeverReservedEarly | apps/attention-core/src/prep_watchdeck_attention/formal_evaluation.py:124-226 | Over any number of invocations no look is reserved before an hour after the protocol's end, and a reserved one rests on generations of the window that fit the protocol feature by feature and outcome by outcome, settled by the reservation. |
| FormalLookLaws.AdmissibleIffFits | apps/attention-core/src/prep_watchdeck_attention/formal_evaluation.py:60-110 | A generation is admissible exactly if it has one feature for each asset of the protocol, of its reference and this decision, and every reference outcome is bound to this decision, a registered horizon and its first minute, and settled in time. |
| FormalLookLaws.StreamedIsEvidence | apps/attention-core/src/prep_watchdeck_attention/formal_evaluation.py:60-110 | The evidence is every generation decided in the window with its reference outcomes only. |
| FormalLookLaws.UndisturbedLookReturns | apps/attention-core/src/prep_watchdeck_attention/formal_evaluation.py:124-226 | A first look an hour or more after the end, over an unchanging store that fits, returns the evaluation of its evidence; any earlier it is refused and reserves nothing. |
| FormalLookLaws.ResumedLookReturns | apps/attention-core/src/prep_watchdeck_attention/formal_evaluation.py:186-226 | A look that was cut off is finished by the next undisturbed invocation, with the input and availability first reserved. |
| FormalLookLaws.ChangedInputIsRefused | apps/attention-core/src/prep_watchdeck_attention/formal_evaluation.py:170-217 | An incomplete look returns nothing and is not completed if any of its three readings differs from the reserved input or does not fit, or if protocol, scope, sources or policies did not stay the same. |
| FormalLookLaws.OtherInputIsRefused | apps/attention-core/src/prep_watchdeck_attention/formal_evaluation.py:170-188 | Once reserved, another protocol or input is refused and changes nothing. |
| Chart.SummariseConcat | apps/market-core/src/prep_watchdeck_market/artifacts.py:834-848 | Summarising two adjacent stretches of candles is merging their summaries: open, high, low, close, sums that are absent if any part is, times, finality and counts. |
| Chart.FinerBarsMerge | apps/market-core/src/prep_watchdeck_market/artifacts.py:782-855 | The candles of a stretch of one version come to exactly what the finer bars of the stretch merge to. |
| Chart.CompleteIffFinerComplete | apps/market-core/src/prep_watchdeck_market/artifacts.py:808-814 | A stretch is complete exactly when all its finer bars exist and are complete. |
| Chart.SummaryPrices | apps/market-core/src/prep_watchdeck_market/artifacts.py:834-848 | A bar opens with the first candle and closes with the last; its high and low are attained and bound every candle; its count is that of the candles. |
| Chart.SummaryVolume | apps/market-core/src/prep_watchdeck_market/artifacts.py:1642-1647 | Base volume, notional volume and trade count are each the sum over the candles, and absent exactly when a candle lacks it. |
| Chart.SummaryTimes | apps/market-core/src/prep_watchdeck_market/artifacts.py:822-847 | The observation time is the latest; the source time is the latest, and absent exactly when one is missing. |
| Chart.SummaryFinality | apps/market-core/src/prep_watchdeck_market/artifacts.py:815-816 | A bar has a finality exactly when all its candles share it. |
| ChartBuild.AggregateChart | apps/market-core/src/prep_watchdeck_market/artifacts.py:782-855 | Bars are exactly those of the buckets whose candles share one version and are finite, oldest first; the reasons are those of the buckets in time order, and so exactly those held against some bucket. |
| ChartBuild.AggregateBucket | apps/market-core/src/prep_watchdeck_market/artifacts.py:795-854 | A bucket over a version boundary or with a non-finite price has no bar; any other has one, with its reasons. |
| ChartBuild.CountAndStarts | apps/market-core/src/prep_watchdeck_market/artifacts.py:808-814 | The number of candles and the set of their minutes agree with the expected ones exactly when every minute has one candle and nothing else is in the bucket. |
| ChartBuild.SortRows | apps/market-core/src/prep_watchdeck_market/artifacts.py:796 | The stable sort puts a bucket's candles in time order, those of one time in input order. |
| ChartTimeframes.CoarseBarIsMerge | apps/market-core/src/prep_watchdeck_market/artifacts.py:754-763 | Every bar of a coarser timeframe is the merge of the finer bars inside it, and complete exactly when all of them exist and are complete. |
| ChartTimeframes.FinerBarsAreDrawn | apps/market-core/src/prep_watchdeck_market/artifacts.py:754-763 | Those finer bars are exactly the ones the finer timeframe draws there, in order. |
| ChartTimeframes.BuildMarketChart | apps/market-core/src/prep_watchdeck_market/artifacts.py:734-779 | Each timeframe shows its newest 500 bars; an ill-formed instrument id is refused; the chart is unavailable without bars or instrument, partial with any reason, and otherwise ready; its reasons are the distinct ones of all timeframes in the order they first appear. |
| ChartTimeframes.ReadyIffDaysClean | apps/market-core/src/prep_watchdeck_market/artifacts.py:764-771 | A chart with candles is ready exactly when nothing is held against any 24h bucket. |
| ChartTimeframes.FinerIsClean | apps/market-core/src/prep_watchdeck_market/artifacts.py:795-830 | If nothing is held against a timeframe, nothing is held against a finer one. |
| ChartLaws.BarTells | apps/market-core/src/prep_watchdeck_market/artifacts.py:808-854 | A bar is complete exactly if its bucket is over and has one candle for every minute and no other; and it carries, in order, that it is incomplete, that finalities are mixed, that a source time is missing, each exactly when it is so. |
| ChartLaws.DrawnMeans | apps/market-core/src/prep_watchdeck_market/artifacts.py:795-807 | A bucket has a bar exactly if it has candles, all of one version and with finite prices. |
| ChartLaws.EachMinuteMeans | apps/market-core/src/prep_watchdeck_market/artifacts.py:808-814 | Counting the candles of every second says exactly that each minute has one and no two share a time. |
| ChartLaws.OpensAndCloses | apps/market-core/src/prep_watchdeck_market/artifacts.py:796-837 | A bar opens with an earliest candle of its bucket and closes with a latest one. |
| ChartLaws.ShowsNewest | apps/market-core/src/prep_watchdeck_market/artifacts.py:755-762 | A timeframe shows its newest bars, up to five hundred. |
| Snapshot.LoadSnapshot | apps/market-core/src/prep_watchdeck_market/candle_audit.py:132-210 | A bucket is usable exactly when one in-window record names it and that record is valid; it is present exactly when any names it; each record's finding is its own fault or that its bucket was named before; there are none exactly when every record is outside the window or alone in its bucket and valid. |
| Snapshot.OrderIndependent | apps/market-core/src/prep_watchdeck_market/candle_audit.py:136-201 | Any order of the same records loads the same rows and present buckets, and is free of findings in all orders or in none. |
| CandleAudit.Audit | apps/market-core/src/prep_watchdeck_market/candle_audit.py:255-338 | The loops compare exactly the specified values and returns; the outcome is unverified, differences, incomplete or match, in that precedence. |
| CandleAudit.AuditFiles | apps/market-core/src/prep_watchdeck_market/candle_audit.py:234-338 | An unaligned, too short, too long or unclosed window, a negative tolerance, a file without a header and two different series are refused; otherwise the report is over what the files load, and it is a match exactly when both are free of findings and agree everywhere within tolerance. |
| CandleAudit.Reconciles | apps/market-core/src/prep_watchdeck_market/candle_audit.py:257-294 | Compared and missing values make up the common minutes times the fields, and compared and unavailable returns all minutes after the return horizon. |
| CandleAudit.DerivedCountsAgree | apps/market-core/src/prep_watchdeck_market/candle_audit_artifacts.py:438-447 | Four prices a common minute, plus the common minutes less the missing values when volume was requested, are exactly the values the loop compared. |
| CandleAudit.InvalidBars | apps/market-core/src/prep_watchdeck_market/candle_audit_artifacts.py:454-457 | Unusable less missing minutes, as published, are exactly the minutes that some record names but that are not usable. |
| CandleAudit.DifferMeans | apps/market-core/src/prep_watchdeck_market/candle_audit.py:213-216 | Both differences are 0 exactly for equal values, and the relative one never exceeds 2. |
| CandleAudit.ExactWithoutTolerance | apps/market-core/src/prep_watchdeck_market/candle_audit.py:273-279 | Without tolerance a difference is recorded exactly for unequal values. |
| CandleAudit.SwapMirrors | apps/market-core/src/prep_watchdeck_market/candle_audit.py:213-311 | Exchanging the inputs exchanges the sides of every difference and changes nothing else. |
| CandleAudit.SwapPreservesOutcome | apps/market-core/src/prep_watchdeck_market/candle_audit.py:327-338 | Exchanging the inputs keeps coverage and outcome. |
| CandleAudit.MatchMeansAgreement | apps/market-core/src/prep_watchdeck_market/candle_audit.py:327-338 | The outcome is match exactly when both snapshots are free of findings and every expected minute's values and every return agree within tolerance. |
| CandleAudit.LoadedRowsPositive | apps/market-core/src/prep_watchdeck_market/candle_audit.py:155-193 | Loaded rows have positive closes, so returns are defined. |
| AuditLaws.RecordsAreExact | apps/market-core/src/prep_watchdeck_market/candle_audit.py:265-313 | The recorded differences are exactly the requested values of common minutes whose gap exceeds the absolute tolerance and whose doubled gap exceeds the relative one times both sizes, with those figures, and the log returns further apart than theirs; the recorded gaps are exactly the values one side lacks and the minutes without a return on both sides. |
| AuditLaws.ExceedsMeans | apps/market-core/src/prep_watchdeck_market/candle_audit.py:213-279 | A value counts as different exactly if its gap exceeds the absolute tolerance and twice the gap exceeds the relative one times both sizes, prices and volume each against their own. |
| AuditLaws.RaisingNeverAdds | apps/market-core/src/prep_watchdeck_market/candle_audit.py:265-313 | Raising any tolerance never adds a difference. |
| AuditLaws.NothingFromTheFuture | apps/market-core/src/prep_watchdeck_market/candle_audit.py:136-193 | A loaded candle is of the window, was over and known by as-of, and comes from one loadable record. |
| AuditLaws.FaultlessMeans | apps/market-core/src/prep_watchdeck_market/candle_audit.py:147-193 | A record has no fault exactly if it is of the series, final, well formed, over and known by as-of. |
| AuditLaws.FindingsTell | apps/market-core/src/prep_watchdeck_market/candle_audit.py:136-201 | The findings are exactly one for each record without a time, of a bucket named before, or with a fault of its own, with its row number. |
| AuditLaws.AuditableMeans | apps/market-core/src/prep_watchdeck_market/candle_audit.py:234-254 | An audit takes whole minutes, closed by as-of, more than the return horizon and at most a week, of one series. |
| AuditLaws.CommonIsCount | apps/market-core/src/prep_watchdeck_market/candle_audit.py:255-256 | The published count is the number of expected minutes both snapshots have. |
| AuditLaws.OutsideMeans | apps/market-core/src/prep_watchdeck_market/candle_audit.py:319-320 | The missing and unusable minutes are exactly the expected ones outside, in time order. |
| AuditLaws.OutcomeMeans | apps/market-core/src/prep_watchdeck_market/candle_audit.py:327-338 | Without a common minute or a return the outcome is unverified; then differences win over gaps. |
| AuditDetail.DetailPage | apps/market-core/src/prep_watchdeck_market/candle_audit_artifacts.py:613-645 | An invalid offset or limit is refused; a page is that slice of the findings, and its markers are those of all findings. |
| AuditDetail.MakeMarkers | apps/market-core/src/prep_watchdeck_market/candle_audit_artifacts.py:616-634 | Markers come by bucket, one for each minute of the window with findings, with their number, their kinds and where the first one is. |
| AuditDetail.MarkerIsRun | apps/market-core/src/prep_watchdeck_market/candle_audit_artifacts.py:626-634 | In a report's order, the findings of a marker are the consecutive ones from its first on. |
| AuditDetail.SortFindings | apps/market-core/src/prep_watchdeck_market/candle_audit_artifacts.py:397-409 | The report's findings are the collected ones in report order, so by bucket; more than 65,000 are refused. |
| AuditDetail.PositionsConsecutive | apps/market-core/src/prep_watchdeck_market/candle_audit_artifacts.py:397-406 | In bucket order the findings of a bucket are consecutive. |
| AuditDetail.PagesListAll | apps/market-core/src/prep_watchdeck_market/candle_audit_artifacts.py:636-643 | Following the pages lists every finding once, in order. |

## Left out

- SQLite, Postgres, JSON, Parquet, file permissions, symbolic links and hashing: tables are maps, serialisation is the identity, and a digest is the content.
- IEEE rounding, decimal contexts and infinities: prices, scores and tolerances are exact reals; a non-finite chart price is a missing one. The threshold index uses the exact ceiling of n / 10.
- Discovery row projection, feature building, quality and freshness labels: long lists of independent cases.
- Components.ScoreAttention: does not model directions, the names of the inputs used, the reasons of unready components or the rank change against an earlier response, which are copied and not computed with.
- Allocation.AllocateShadowHotset: does not carry the generation id and the manual selection id, which are copied through.
- Service.Service.SaveGeneration: models the generation table and the evidence flag; the feature, component and allocation rows of the same transaction and the artifact files are not part of this model.
- Service.Service.GenerateOnce: two overlapping calls are serialised by the generation lock and so are not modelled as overlapping.
- Archive.StepKeeps: the making and removing of directories is one of the ways a file step may fail; the time stamps of manifest rows and the verification of a written file are not part of this model.
- Archive.FilesChange: one file at a time; the staging directory is private to a worker.
- OutcomeReader.PartitionedReader.Bars: native points are read by a second method of the same form over the second index; only the bars are queried here, and both indexes are checked on opening.
- OutcomeReader.PartitionedReader.Open: the hash and status of the copy manifest are not part of this model, nor is the archive directory search that collects several bundles.
- OutcomeExport.Export: the source copies and their hashes, the size limit of a fragment, and the provenance file are not part of this model.
- Joining.JoinedReader.Bars: states a conflict one way; the other way follows from `Joining.AnsweredMeansNoConflict`.
- Settlement.ReferenceOutcome: native dispersion outcomes and content fingerprints are not part of this model.
- Metrics.Select: the score of a policy is a parameter of each feature; choosing the baseline field or component is not part of this model.
- The bootstrap inference, power planning and the final decision table of the evaluation: random draws and normal approximations.
- Storage.AttentionStore.PutOutcome: outcome rows refer to stored features by a foreign key, which is not part of this model; one writer holds the lock, so operations do not overlap.
- FormalLook.Ledger.Evaluate: the checks of protocol, scope, sources and policies are two parameters, before and after; the lock admits one invocation at a time.
- ChartBuild.AggregateChart: candle times are whole seconds.
- DiscoveryPages.HistoryPage: models the page of episodes; the expected generation and the latest rows are in `DiscoveryRead.ReadDiscovery`.
- Snapshot.LoadSnapshot: decoding of a record is a parameter; the order of the checks is kept.
- AuditDetail.SortFindings: how the collected findings are worded from the diagnostic is not part of this model; their order and limit are.
- CandleAudit.Audit: the counts of missing source times and derived candles, the largest flagged differences and the number of bars with a difference are not part of this model.
- CandleAudit.AuditFiles: the checks of a file's size, path and header fields are one parameter of the file.
- HTTP servers, command lines, systemd units, registry files, schemas, the web front end and the acceptance scripts.
