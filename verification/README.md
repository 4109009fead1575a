# Scanner and maintenance scripts: a verified model

This project models the stateful core of a wallet-scoring scanner and its maintenance scripts,
and proves what they keep over single calls, whole runs and whole histories.

* **Bounded scorer** (`Identity`, `Canonical`, `Timestamps`, `ScanStore`, `KeyCache`,
  `WalletMetrics`, `WalletSlice`, `WalletScores`, `WalletOutcomes`, `WalletBudgets`, `ScanRuns`, `ScanHistory`,
  `ScanLedger`, `ScanWaiting`, `ScanCoverage`, `ScanAgreement`, `ScanDriver`, `Candidates`, `Audit`, `Ingest`). Wallets are ingested, classified, sliced under
  a hard cap, measured and scored into an append-only table behind idempotency keys. A key is the
  text of a JSON document here; hashing it is an injective function of the environment. A
  run's corpus, clock, failing inserts and lost queries are inputs. Main results: ledgers of the
  backlog and of the queue before a wallet over every history; how long a wallet waits for a
  slice, exactly, while corpora change; what starves it; how many runs cover a corpus, exactly;
  when the timestamp proxy forces new work and when the slice and Step 5b agree, exactly; budgets
  compose; the cache of key texts decides like the table; the slice is the prefix of a preference
  order.
* **Retry budget** (`Refresh`, `RefreshDriver`). One upsert per provider check, its closed form
  over interleaved histories of many markets, the bounds it puts on every driver run, and the
  settlements written with it.
* **Transactional writers** (`Transactions`, `Repair`, `RepairRun`, `RepairRuns`, `Backfill`,
  `BackfillRun`). A connection with an implicit transaction and one savepoint, a repair that
  validates and writes on different connections with other writers in between, and a backfill
  with a savepoint per trade.
* **Resolution planning** (`Resolution`, `ResolutionRun`, `ResolutionReplay`,
  `ResolutionOutcome`, `ResolutionDurability`). Winner selection, the settlement of every trade, propagation of ambiguity, report counters,
  idempotence of the applied run, and recovery from a run that failed at any write.

Methods follow the loops and the mutable state of the scripts; functions specify them, and the
lemmas are about those functions. The failures that the modelled code catches are inputs: an
insert that raises, each query of the slice's classification, the pre-load of Step 5b and of the
audit, a failed or rejected trade write, a wallet that cannot be stored, a lost guard, a storage
error, a planning error. The score formulas, the metadata merge and the evidence payload are
parameters.

## Where code and documentation disagree

The model follows the code. In each case a lemma states what holds instead.

* `scripts/scan_pipeline_wiring.py:374-376`: without a cap, nothing is recorded as selected, so
  the assertion at 408 fails on every non-empty corpus, although the docstring promises the full
  list (`ResolveBoundedWalletSlice`, `ScoreBoundedSlice`).
* `scripts/scan_pipeline_wiring.py:338-342` says that the slice never disagrees with what Step 5b
  will do. `scripts/run_scan.py:329` reads the clock before the trades are fetched, so a row can be
  stamped before trades it is keyed on; its wallet then counts as material changed in every later
  slice while Step 5b has nothing to write (`EarlyClockExample`; exactly when:
  `StuckExactlyWhen`). As many such wallets as the cap, or wallets without trades, starve all that
  sort after them (`BlockedWalletsStarve`), and so do as many newcomers in every scan
  (`NewcomersStarve`), although `scripts/run_scan.py:763-768` promises automatic progress.
* `scripts/scan_pipeline_wiring.py:519,543,674` call swallowing a failed query defensive. Without
  its keys the slice is the first cap addresses in every run, whatever has been scored
  (`BlindRunsStopCoverage`).
* `scripts/scan_pipeline_wiring.py:464-472`: an already-scored wallet is called a no-op by
  construction; a late trade makes it otherwise (`LateTradeIsMissed`; exactly when the
  slice and Step 5b agree, over any history: `AgreeExactlyWhen`).
* `scripts/scan_pipeline_wiring.py:511-537`: the maxima are taken over raw texts, before Z is
  rewritten (`RawMaximumIsNewest`); with a fraction-less Z stamp a newer trade can be missed
  (`ShadowedMaximum`, exactly when: `ProxyComparesInstants`). Writers now store isoformat texts,
  which never end in Z, so only older rows are affected.
* `scripts/run_scan.py:1029-1032` compares sides with lower-case words while
  `src/polycopy/ingestion/normalized_source_trade.py:410-419` stores them in upper case
  (`CanonicalSidesNeverWin`; exactly when the count is right: `WinsAreIntendedExactlyWhen`).
* `scripts/run_scan.py:1403-1406` rules out scoring wallets whose trade was not stored; a trade the
  writer rejects reads like a duplicate and discovers its wallet all the same
  (`RejectedTradeDiscovers`).
* `scripts/refresh_specialist_market_truth.py:226-228` speaks of one commit for all markets;
  releasing an outermost savepoint already commits (`RefreshMarkets`).
* `scripts/backfill_resolution_truth.py:365-368`: several tokens under one label are said to be
  recorded without marking a winner; the market's resolution is withdrawn and the report counts
  no ambiguity (`DistinctTokensWithdrawResolution`).
* `scripts/scan_pipeline_wiring.py:1500-1502` calls the audit safe on every scan; a failed
  pre-load duplicates pairs (`AuditStaysUniqueExactlyWhen`).
* `scripts/run_scan.py:486-491` says the second anonymity guard should never be reached; it can be
  (`NulIsNoSentinel`).
* `scripts/scan_pipeline_wiring.py:720` describes the return value as inserted or reused; reuses
  found in the cache are not in it. The theorems speak of the counters and the table.

## Model

| member | source | states |
|---|---|---|
| `Identity.CanonicalIsStable` | src/polycopy/db/wallet_identity.py:122-153 | Canonicalisation is a projection; its results equal their own SQL-normalised form, so registry, wallets table and metric queries agree on identity. |
| `Identity.BlanksAre` | src/polycopy/db/wallet_identity.py:65-153 | The characters that TRIM, the canonical strip (also NUL) and str.strip remove. |
| `Identity.StripExactlyWhen` | src/polycopy/db/wallet_identity.py:122-153 | Stripping leaves the one part of a text without a blank at either end and with nothing but blanks removed. |
| `Identity.CanonicalExactlyWhen` | src/polycopy/db/wallet_identity.py:122-153 | A text has the canonical address a exactly when a is what is left of it without surrounding blanks and NULs, in lower case, neither empty nor a sentinel word; a missing text has none. |
| `Identity.SqlMatchesExactlyWhen` | src/polycopy/db/wallet_identity.py:50-80 | A query for a matches a stored text exactly when a is the text without the six blanks around it, in lower case. |
| `Identity.SentinelExactlyWhen` | src/polycopy/domain/source_trade.py:42-64 | The ingest loop takes for a sentinel exactly a missing text, a blank one, and a sentinel word in any case. |
| `Canonical.PrintPrefixFree` | scripts/scan_pipeline_wiring.py:818-868 | A printed JSON value is decided by its text, whatever valid continuation follows it (escaping, decimals and float texts included). |
| `Canonical.FaithfulIsPossible` | scripts/scan_pipeline_wiring.py:848-868 | What the key theorems ask of the runtime's printers and digest can be met. |
| `Canonical.BlobDecidesFields` | scripts/scan_pipeline_wiring.py:818-868 | Two metric maps give the same blob exactly when for each of the seven fields both are missing, None or False, both are True, or they are equal integers, floats that round alike to nine places, or equal texts, with a date counting as its ISO text. Extra keys and insertion order play no part. |
| `Canonical.KeyTextDecides` | scripts/scan_pipeline_wiring.py:871-898 | The hashed texts are equal exactly when address and formula version are, and the seven fields agree in that sense. |
| `Canonical.BlobLayout` | scripts/scan_pipeline_wiring.py:848-868 | The blob is the JSON object of the seven fields in alphabetical order, each with what is printed for its value. |
| `Canonical.PrintedValue` | scripts/scan_pipeline_wiring.py:848-868 | What is printed for a value of each kind. |
| `Canonical.EscapesAre` | scripts/scan_pipeline_wiring.py:868 | The short escapes of a JSON text, and the printable characters at the ends of ASCII. |
| `Canonical.CodeUnitsAre` | scripts/scan_pipeline_wiring.py:868 | Code units outside printable ASCII are printed as four hexadecimal digits. |
| `Canonical.SupplementaryPair` | scripts/scan_pipeline_wiring.py:868 | A character beyond the basic plane is printed as its surrogate pair. |
| `Canonical.KeyLayout` | scripts/scan_pipeline_wiring.py:871-898 | The hashed text is the JSON object of that blob, the version and the wallet. |
| `Timestamps.NormalisedOrderIsChronological` | scripts/scan_pipeline_wiring.py:485-497 | For UTC stamps with no fraction or a non-zero six-digit one, ending in Z or +00:00, string order and equality after the Z rewrite are chronological order and sameness of instant (section 5.1 of RFC 3339, with the fraction). |
| `Timestamps.RawMaximumIsNewest` | scripts/scan_pipeline_wiring.py:504-566 | MAX over the raw texts, taken before the rewrite, is a newest stamp exactly when no fraction-less Z stamp of the newest second hides a fractional one of that second. |
| `Timestamps.ShadowedMaximum` | scripts/scan_pipeline_wiring.py:504-585 | A concrete wallet that is classified already scored although one of its trades is newer than its row: MAX returns a fraction-less Z stamp instead. |
| `Timestamps.ProxyComparesInstants` | scripts/scan_pipeline_wiring.py:556-585 | With unshadowed rows the test never claims a newer trade that is not there, and it misses one exactly when the stamp MAX returns, not newer than the newest row, shadows a fractional stamp of its second that is. |
| `ScanStore.KeyDecidesHistory` | scripts/scan_pipeline_wiring.py:871-898 | Two histories of one wallet have equal keys exactly when they have the same number of rows, the same newest and oldest stamp, as many markets, only samples in both or in neither, and a win rate and Sharpe estimate that round alike. |
| `ScanStore.OwnsExactlyWhen` | scripts/run_scan.py:977-981 | A row counts for a wallet exactly when its trader, without surrounding blanks and in lower case, is the wallet's address. |
| `ScanStore.Database.InsertOrIgnore` | src/polycopy/scoring/score_serialization.py:467-592 | Insert-or-ignore on the unique columns keeps at most one row per identity and appends the row exactly when none has it. |
| `KeyCache.CacheDecidesPairs` | scripts/scan_pipeline_wiring.py:740-747 | Membership of wallet_id|key in the pre-loaded set is the pair lookup in the decision table, for ids without a bar. |
| `KeyCache.CacheDecidesWallets` | scripts/scan_pipeline_wiring.py:574-576 | A startswith scan of the set finds exactly the wallets with a V1 row. |
| `KeyCache.CacheFollowsInsert` | scripts/scan_pipeline_wiring.py:789-806 | Adding one text after an insert keeps the set equal to the table's pairs. |
| `WalletMetrics.StreamTrades` | scripts/run_scan.py:1006-1049 | The one-pass loop computes the count, the wins, the all-sample flag and the greatest and least timestamps of the rows. |
| `WalletMetrics.ComputeWalletMetrics` | scripts/run_scan.py:938-1073 | Metrics are those of exactly the rows that belong to the canonical address, all seven entries stated over these rows; None for a sentinel address or without rows. |
| `WalletMetrics.WinsCountRows` | scripts/run_scan.py:1029-1032 | The wins are the number of rows that buy below one half or sell above it, spelled in lower case. |
| `WalletMetrics.CanonicalSidesNeverWin` | scripts/run_scan.py:1029-1032 | On rows whose side is stored in the writer's upper-case spelling, the win rate is zero whatever the prices. |
| `WalletMetrics.WinsAreIntendedExactlyWhen` | scripts/run_scan.py:1029-1032 | The loop counts every win, taken without regard to case, exactly when no row wins under a spelling other than lower case; on rows of the write path, exactly when none of them wins. |
| `WalletMetrics.BuyBelowHalfIsMissed` | scripts/run_scan.py:1029-1032 | A concrete missed win: one stored BUY at 0.1 gives a win rate of zero. |
| `WalletSlice.NewestDecides` | scripts/scan_pipeline_wiring.py:504-556 | Comparing the two per-wallet maxima decides whether some trade is newer than every row. |
| `WalletSlice.ClassifyWalletState` | scripts/scan_pipeline_wiring.py:443-586 | Splits the addresses into fresh, already scored and material changed, as the store defines these states, and as the swallowed failure of any of its queries leaves them. |
| `WalletSlice.NothingLostSeesBacklog` | scripts/scan_pipeline_wiring.py:558-585 | When no query fails every wallet is seen in the state that the store gives it, and the first pass gets exactly the fresh and the material changed ones. |
| `WalletSlice.BlindSlice` | scripts/scan_pipeline_wiring.py:661-676 | When the key query fails the slice is the first cap distinct addresses, whatever has been scored. |
| `WalletSlice.RankingIsThePreferenceOrder` | scripts/scan_pipeline_wiring.py:388-398 | The concatenated passes list every distinct address once, needs-work first and then by address. |
| `WalletSlice.SliceMembership` | scripts/scan_pipeline_wiring.py:360-398 | An address is sliced exactly when fewer than cap distinct addresses are preferred to it. |
| `WalletSlice.SelectInTwoPasses` | scripts/scan_pipeline_wiring.py:360-398 | The mutable cap counter and the three lists end as the first cap elements of the ranking, split at the pass boundary. |
| `WalletSlice.ResolveBoundedWalletSlice` | scripts/scan_pipeline_wiring.py:230-440 | With a cap: the cap addresses best ranked by what the queries returned, in address order, and counts with fresh + already scored + deferred = considered. Without one: the closing assertion fails exactly on a non-empty corpus. |
| `WalletScores.VisitAddress` | scripts/scan_pipeline_wiring.py:752-809 | One iteration reuses, defers, fails, inserts or collides as cache, budget and table decide, and moves all loop variables accordingly. |
| `WalletScores.VisitKeeps` | scripts/scan_pipeline_wiring.py:752-809 | Every iteration keeps the cache equal to the table's pairs, the rows equal to those of the chosen addresses, and the counters exact. |
| `WalletScores.CompletedPass` | scripts/scan_pipeline_wiring.py:727-815 | A whole pass writes the rows of the first pending addresses in address order that the budget pays for, and its counters count what became of each address, also with failing inserts or a failed pre-load. |
| `WalletScores.EveryAddressCounted` | scripts/scan_pipeline_wiring.py:752-809 | inserted + reused + deferred + failed = addresses with metrics and a wallets row; with a working pre-load the reused ones are those up to date, and without raised inserts the deferred ones are the missing ones not inserted. |
| `WalletScores.LargeBudgetDefersNone` | scripts/scan_pipeline_wiring.py:789-806 | Only inserts spend budget: a budget as large as the list defers nothing, whichever inserts raise and whether or not the pre-load worked. |
| `WalletScores.PersistWalletV1Decisions` | scripts/scan_pipeline_wiring.py:679-815 | The loop realises that pass, also when the pre-load fails and the cache starts empty; no pair is stored twice; the persisted counter is the growth of the table, and the fresh-insert list is the wallet column of the appended rows, in order and without duplicates. |
| `WalletOutcomes.PersistAppendsExactly` | scripts/scan_pipeline_wiring.py:752-814 | The appended rows are, in address order, one for each listed address with metrics, a wallets row, no V1 row under its key and no failing insert, as long as fewer such addresses sort before it than the budget pays for; each holds the wallet, version 1, the key and the clock. |
| `WalletOutcomes.CountersCount` | scripts/scan_pipeline_wiring.py:752-809 | Deferred are exactly the addresses without a visible row whose turn comes after the budget is used up; reused are exactly those whose row is found, in the pre-loaded keys or, without them, when the insert is tried. |
| `WalletBudgets.BudgetsCompose` | scripts/scan_pipeline_wiring.py:727-809 | Budgets b1 then b2 leave the same decision keys as one call with b1 + b2; the first call inserts the first b1 pending addresses and the second the next b2. |
| `WalletBudgets.UnlimitedCallIsIdempotent` | scripts/scan_pipeline_wiring.py:690-720 | A repeated call without a budget changes nothing. |
| `ScanRuns.RealKeyIsRevealing` | scripts/scan_pipeline_wiring.py:871-898 | The real key has the one property that the run theorems need of a key. |
| `ScanRuns.SliceFitsBudget` | scripts/run_scan.py:638-673 | Every pending wallet of a slice is paid for when the budget is the slice's cap. |
| `ScanRuns.RunDecidesState` | scripts/scan_pipeline_wiring.py:558-585 | The state of every wallet after a run with any clock and failures: a wallet that got a row is material changed if one of its newer trades lies after the clock, else already scored; the others keep their state. |
| `ScanRuns.RunDecidesKeyed` | scripts/scan_pipeline_wiring.py:752-809 | After a run exactly the wallets that got a row, and those whose current key was in the table before, have it there. |
| `ScanRuns.RunClears` | scripts/run_scan.py:638-785 | Exactly the sliced backlog wallets that got a row with no newer trade after the clock leave the backlog, and nothing enters it. |
| `ScanRuns.SliceTakesFromNeeds` | scripts/scan_pipeline_wiring.py:388-398 | A slice holds exactly min(cap, count) of the addresses classified as needing work. |
| `ScanRuns.BlockedAfterRun` | scripts/scan_pipeline_wiring.py:752-809 | A run leaves a wallet blocked (in the backlog with nothing to write: no row, no trades, or its key in the table) exactly when it was, or when it wrote its row behind a newer trade. |
| `ScanRuns.RunLowersBacklog` | scripts/run_scan.py:638-785 | A failure-free run past all trades, over a corpus without blocked wallets, lowers the backlog by exactly min(cap, its size) and blocks none. |
| `ScanHistory.EventKeepsInvariants` | scripts/run_scan.py:769-785 | Every arrival of trades, new wallet and run, with any clock and failures, keeps rows unique and every row keyed on a prefix of its wallet's history. |
| `ScanHistory.HistoryKeepsInvariants` | scripts/run_scan.py:769-785 | The same over every history. |
| `ScanHistory.ChangedMeansNewKey` | scripts/scan_pipeline_wiring.py:556-585 | The current key of a material-changed wallet is in the table exactly when a row was keyed on these very trades and stamped before the newest of them; rows stamped in time were keyed on an older newest trade. |
| `ScanHistory.StuckStep` | scripts/scan_pipeline_wiring.py:338-342 | One event: a wallet is stuck (material changed with its current key in the table) exactly when this run wrote its row behind a newer trade, or it was stuck and did not trade. |
| `ScanHistory.StuckExactlyWhen` | scripts/scan_pipeline_wiring.py:338-342 | The same over every history. |
| `ScanHistory.ProxyForcesWork` | scripts/scan_pipeline_wiring.py:558-585 | After any history, a run works for a canonical, sliced, material-changed wallet whose insert does not raise (new row; settled unless a newer trade lies after the clock) exactly when no earlier run wrote its row behind a trade it could see, or the wallet has traded since. |
| `ScanHistory.TimelyFreezesNone` | scripts/run_scan.py:329 | A history whose runs all have clocks past the trades they can see leaves no wallet stuck. |
| `ScanHistory.EarlyClockExample` | scripts/run_scan.py:329 | A concrete scan with its clock at 5 and a trade of 7: the row is stamped 5, the wallet is stuck, and no later scan changes anything. |
| `ScanHistory.UpToDateUnlessOwnTrade` | scripts/scan_pipeline_wiring.py:464-472 | After trades arrive a wallet's current key is in the table exactly when it was there and none of the trades is its own, whatever their timestamps. |
| `ScanHistory.LateTradeIsMissed` | scripts/scan_pipeline_wiring.py:464-472 | One arrival: an own trade stamped no later than the newest row leaves an up-to-date wallet already scored although its key is new. ScanAgreement.AgreeExactlyWhen has the condition over histories. |
| `ScanHistory.LateTradeExample` | scripts/scan_pipeline_wiring.py:464-472 | A concrete wallet scored at 10 on its trade at 7, and its late trade at 8. |
| `ScanAgreement.InTableStep` | scripts/scan_pipeline_wiring.py:464-472 | One event: the current key of a wallet is in the table exactly when this run wrote it, or it was there and the wallet did not trade. |
| `ScanAgreement.InTableExactlyWhen` | scripts/scan_pipeline_wiring.py:464-472 | Over every history: exactly when some run wrote a row for the wallet and no own trade has arrived since. |
| `ScanAgreement.RowsByHistory` | scripts/scan_pipeline_wiring.py:504-537 | After every history that starts without decisions, a wallet has rows exactly when some run wrote one, and a trade is newer than all of them exactly when it is later than the clock of each such run. |
| `ScanAgreement.AgreeExactlyWhen` | scripts/scan_pipeline_wiring.py:338-342 | After every such history the slice sends a canonical wallet to the first pass exactly when Step 5b has a row to write, if and only if the wallet has a row and a trade, its row was not left behind a newer trade, and it has not traded since its last row within the clocks of its rows. |
| `ScanLedger.ArrivalsGrowBacklog` | scripts/scan_pipeline_wiring.py:558-585 | Arriving trades take no wallet out of the backlog and add exactly the scored wallets with a newer trade. |
| `ScanLedger.EventMovesBacklog` | scripts/run_scan.py:638-785 | Every event moves the backlog by exactly what it clears and what it lets in. |
| `ScanLedger.BacklogLedger` | scripts/run_scan.py:638-785 | Over every history, with any clocks, failures and lost queries: backlog = backlog at the start + entered - cleared. |
| `ScanWaiting.SlicedExactlyWhen` | scripts/scan_pipeline_wiring.py:360-398 | A run slices an address of its corpus exactly when fewer than cap backlog wallets sort before it, counting those that a lossy classification adds or hides. |
| `ScanWaiting.NothingMisjudged` | scripts/scan_pipeline_wiring.py:360-398 | A classification that loses no query adds and hides none before a backlog wallet. |
| `ScanWaiting.QueueLedger` | scripts/run_scan.py:630-632 | The queue before a wallet, over every history of runs with a corpus each: what it was, plus what entered by trades and joined with the corpus, minus what departed with it and what was cleared. |
| `ScanWaiting.GrowingCorpusLosesNone` | scripts/run_scan.py:523-525 | While every corpus contains the one before it, nobody departs from a queue. |
| `ScanWaiting.WaitsExactlyWhile` | scripts/scan_pipeline_wiring.py:360-398 | An address is passed over by every run of a history, with any corpora, caps, clocks, failures and lost queries, exactly when at each run that considers it the queue by that ledger reaches the cap; cleared wallets are counted as slots less idle slots. |
| `ScanWaiting.IdleSlotsAre` | scripts/scan_pipeline_wiring.py:752-809 | When a run passes over a backlog wallet, its idle slots are held by wallets of the queue that it leaves in the backlog. |
| `ScanWaiting.IdlersAre` | scripts/scan_pipeline_wiring.py:752-809 | Such a wallet is blocked, or its insert raised, or its row was written behind a newer trade. |
| `ScanWaiting.SmoothHistoryIdlesNone` | scripts/run_scan.py:638-785 | No slot is idle while a backlog wallet waits through failure-free runs with clocks past the trades over ready corpora, when no wallet was stuck at the start. |
| `ScanWaiting.ServedWithin` | scripts/run_scan.py:763-768 | With at most d wallets per run entering or joining the queue or idling in it, a wallet with q before it is sliced by the k-th run at the latest, whenever q < k * (cap - d). |
| `ScanWaiting.NewcomersStarve` | scripts/run_scan.py:523-525 | A cap of newcomers sorting before a in every scan keeps a from every slice and in the backlog. |
| `ScanWaiting.BlockedWalletsStarve` | scripts/scan_pipeline_wiring.py:360-398 | So does a cap of wallets that no run can clear, whatever else the corpora hold, until one of them gets a row or a trade. |
| `ScanWaiting.BlindRunSlicesExactlyWhen` | scripts/scan_pipeline_wiring.py:661-676 | A run whose key query fails slices an address exactly when fewer than cap addresses of its corpus sort before it, whatever has been scored. |
| `ScanWaiting.BlindRunsStopCoverage` | scripts/scan_pipeline_wiring.py:661-676 | While the key query fails, an address with a cap of addresses before it is never sliced, and stays fresh if it was. |
| `ScanCoverage.CoveredByLedger` | scripts/run_scan.py:638-785 | After every history a corpus is covered exactly when as many of its wallets were cleared as were in the backlog or entered it. |
| `ScanCoverage.RunsClearBacklog` | scripts/run_scan.py:638-785 | With clocks past the trades and no blocked wallet, k runs over a corpus lower a backlog of n wallets to max(0, n - k * cap). |
| `ScanCoverage.CoveredExactlyWhen` | scripts/run_scan.py:638-785 | With clocks past the trades, k runs score a whole corpus exactly when none of its wallets is blocked and k * cap reaches its backlog. |
| `ScanCoverage.CoveredInTurnExactlyWhen` | scripts/run_scan.py:329 | With any clocks: exactly when none is blocked and each backlog wallet has its turn, q / cap runs from now for q wallets before it, in a run whose clock lies past its newer trades. |
| `ScanDriver.ScoreBoundedSlice` | scripts/run_scan.py:638-785 | Slice, metrics and persistence composed move the store by one run, and defer nothing, whichever queries, pre-loads and inserts fail. |
| `Candidates.ShortestPrefixIsUnique` | scripts/scan_pipeline_wiring.py:1143-1170 | There is one shortest prefix with the allowed successes, and it has min(max, successes) of them. |
| `Candidates.SuccessesByKind` | scripts/scan_pipeline_wiring.py:1178-1186 | Every attempt is a failure or counted once as created, rejected by wallet or otherwise rejected. |
| `Candidates.PersistCopyCandidates` | scripts/scan_pipeline_wiring.py:1120-1194 | The nested bounded loops attempt exactly that prefix of the concatenated per-wallet lists; trades scanned is its length and persisted the sum of the three counters. |
| `Candidates.OfferedAre` | scripts/scan_pipeline_wiring.py:1146-1162 | An address with metrics, trades and a wallets row offers its first trades up to the bound per wallet, in order; any other offers none. |
| `Candidates.CountsAreAttempts` | scripts/scan_pipeline_wiring.py:1165-1188 | Each counter is the number of attempts with its outcome. |
| `Audit.PersistComponentInputs` | scripts/scan_pipeline_wiring.py:1483-1596 | Appends one row for the first occurrence of every wanted pair that is not loaded and does not raise, with the in-memory set in step throughout. |
| `Audit.WantedAre` | scripts/scan_pipeline_wiring.py:1558-1567 | A pair is wanted exactly when a scored decision with its id has a component of its name, which is not empty. |
| `Audit.AuditCounts` | scripts/scan_pipeline_wiring.py:1538-1596 | A wanted pair whose insert does not raise ends with max(1, rows before); one more than before when the pre-load failed; other pairs keep their rows. |
| `Audit.AuditStaysUniqueExactlyWhen` | scripts/scan_pipeline_wiring.py:1542-1552 | A duplicate-free table stays so exactly when the pre-load succeeded or it had none of the wanted pairs whose insert did not raise. |
| `Audit.SecondAuditWritesTheRest` | scripts/scan_pipeline_wiring.py:1496-1502 | An immediate second call writes exactly the pairs that the first failed to insert and the table does not have: nothing when no insert raised. |
| `Ingest.RealRulesProject` | src/polycopy/db/wallet_identity.py:122-153 | The real address rules have the one property the ingest theorems need of them. |
| `Ingest.RealSentinelExactlyWhen` | src/polycopy/domain/source_trade.py:42-64 | The sentinel test of the real rules, by the texts. |
| `Ingest.RealCanonicalExactlyWhen` | src/polycopy/db/wallet_identity.py:122-153 | The canonical form of the real rules, by the texts. |
| `Ingest.RealFilterExactlyWhen` | scripts/run_scan.py:358-366 | The SQL filter of step 1 passes exactly the addresses that are, so normalised, neither empty nor one of its five words; the zero address is not among them. |
| `Ingest.WalletTable.PersistWallet` | scripts/run_scan.py:1192-1262 | Finds or creates the one row with the canonical address. |
| `Ingest.WalletDiscovery.Register` | src/polycopy/discovery/wallet_discovery.py:111-177 | Registers the canonical address and reports whether it was new. |
| `Ingest.CanonicalsAreUnique` | scripts/run_scan.py:1200-1206 | A well-formed table has one row per canonical address. |
| `Ingest.OnlyCompleteFetchesCount` | scripts/run_scan.py:398-442 | Partial and failed fetches change nothing but their own counter. |
| `Ingest.PersistStores` | scripts/run_scan.py:450-467 | The trade table gains exactly the accepted trades, and the insert counter is its growth. |
| `Ingest.TableMeans` | scripts/run_scan.py:476-519 | Discovery keeps one row per canonical address and adds a row for every wallet it registers. |
| `Ingest.RegistryMeans` | scripts/run_scan.py:476-525 | The registry gains the same wallets, and the new-wallet counter is its growth. |
| `Ingest.Ingest` | scripts/run_scan.py:348-540 | complete + partial + failed = markets, attributed + anonymous = kept = accepted + rejected trades, every registry address has a wallets row, total known = loaded + discovered, only accepted trades of complete fetches are stored, and the three tables hold exactly what their lemmas name. |
| `Ingest.PersistedComeFromComplete` | scripts/run_scan.py:412-461 | The trades that reach discovery are exactly those of complete fetches whose write did not fail. |
| `Ingest.WritesAreCounted` | src/polycopy/ingestion/source_trade_writer.py:366-392 | The two counts are the numbers of fetched trades that the writer accepts and rejects. |
| `Ingest.CountersCountStoredExactlyWhen` | src/polycopy/ingestion/source_trade_writer.py:366-392 | The attributed and anonymous counters count accepted trades exactly when the writer rejected none. |
| `Ingest.RejectedTradeDiscovers` | scripts/run_scan.py:1403-1416 | A rejected trade creates and registers its wallet while nothing of its history is stored. |
| `Ingest.AnonymousCountersAgreeExactlyWhen` | scripts/run_scan.py:462-491 | The two anonymous counters agree exactly when every persisted trade that passes the sentinel test has a canonical address. |
| `Ingest.NulIsNoSentinel` | src/polycopy/domain/source_trade.py:42-64 | They need not agree: a NUL text passes the sentinel test and has no canonical address. |
| `Refresh.RefreshTable.UpsertBookkeeping` | scripts/refresh_specialist_market_truth.py:358-429 | Only the outcome's own row changes; DueExactlyWhen, SelectableExactlyWhen and AttemptsClosedForm say what it then holds. |
| `Refresh.RowDependsOnOwnChecks` | scripts/refresh_specialist_market_truth.py:366-429 | However checks of many markets interleave, a market's row depends on its own checks alone. |
| `Refresh.AttemptsClosedForm` | scripts/refresh_specialist_market_truth.py:378-388 | attempt_count is the length of the trailing unresolved run, min(MAX, length of the trailing failure run), or 1, continuing the initial row's run. |
| `Refresh.AttemptsOfInterleavedHistory` | scripts/refresh_specialist_market_truth.py:366-388 | The same for any interleaved history of many markets. |
| `Refresh.TerminalExactlyWhen` | scripts/refresh_specialist_market_truth.py:389-407 | Terminal rows arise exactly from a clean resolution or an exhausted failure streak. |
| `Refresh.DueExactlyWhen` | scripts/refresh_specialist_market_truth.py:389-407 | A market whose last check was neither a clean resolution nor the end of an exhausted streak is due again exactly from 24 hours after that check on, 72 after an unavailable market, in whole milliseconds. |
| `Refresh.SelectableExactlyWhen` | src/polycopy/ingestion/source_trade_resolution.py:845-874 | Before the terminal date such a market is selectable exactly then, unless its status is the bare conflict status, which no check answers with, or unknown text; after a final check it is not selectable. |
| `Refresh.ExhaustedIsNeverSelected` | src/polycopy/ingestion/source_trade_resolution.py:854-865 | After an exhausted streak no clock selects the market, whatever its dates. |
| `Refresh.EligibleExactlyWhen` | src/polycopy/ingestion/source_trade_resolution.py:854-865 | The status clause follows the classes of the bookkeeping: a failure is eligible exactly below three attempts, unless it is the bare conflict status, and any other row exactly when its text is known. |
| `Refresh.UnrecordedIsSelectable` | src/polycopy/ingestion/source_trade_resolution.py:854-873 | A market without a row is selectable at any time, and so is a blank row without a date. |
| `Refresh.JulianIsNearest` | src/polycopy/ingestion/source_trade_resolution.py:866-873 | Dates are compared as the nearest whole milliseconds. |
| `Refresh.TerminalIsTheLastDay` | scripts/refresh_specialist_market_truth.py:74 | The terminal date is 9999-12-31T23:59:59. |
| `Refresh.PassMayCheck` | src/polycopy/ingestion/source_trade_resolution.py:845-874 | So a pass at any such time may check the market, and the history stays periodic. |
| `Refresh.FailingMeans` | scripts/refresh_specialist_market_truth.py:366-388 | Failures are all recorded states but unresolved, a clean resolution, blank and unknown text. |
| `Refresh.TerminalAbsorbs` | src/polycopy/ingestion/source_trade_resolution.py:845-874 | No periodic check follows a terminal row. |
| `Refresh.ChecksAreSpaced` | scripts/refresh_specialist_market_truth.py:389-407 | Successive periodic checks are at least 24 hours apart, 72 after unavailable, less the millisecond that julianday rounds away. |
| `Refresh.FailureStreakBounded` | src/polycopy/ingestion/source_trade_resolution.py:845-874 | No failure streak of periodic checks exceeds the budget, whatever the initial row. |
| `RefreshDriver.TurnsReplay` | src/polycopy/ingestion/source_trade_resolution.py:1003-1146 | The bookkeeping of a run is that of the checks it records, conflicts included, so the retry-budget results hold of it. |
| `RefreshDriver.SettledTradesStay` | src/polycopy/ingestion/source_trade_resolution.py:1019-1064 | No run changes a trade that is already resolved, whatever the provider answers. |
| `RefreshDriver.CleanExactlyWhenSettled` | src/polycopy/ingestion/source_trade_resolution.py:1003-1064 | A turn records a clean resolution exactly when it found a truth with which every linked trade then agrees. |
| `RefreshDriver.TurnMeans` | src/polycopy/ingestion/source_trade_resolution.py:1003-1146 | A truth settles exactly the market's unresolved trades unless a resolved one disagrees; then no trade changes and the conflict is recorded. Any other answer changes no trade; no turn changes another market's row. |
| `RefreshDriver.RefreshMarkets` | scripts/refresh_specialist_market_truth.py:217-282 | A completed run is durable as a whole, settlements and bookkeeping; one that fails at market k leaves exactly the leading resolved markets before k, each with both. |
| `RefreshDriver.PassesCheckWhenDue` | src/polycopy/ingestion/source_trade_resolution.py:783-874 | Selecting at the start of a pass is as good as selecting at each check. |
| `RefreshDriver.RetryBudgetOverPasses` | scripts/refresh_specialist_market_truth.py:389-429 | The budget over any number of driver passes and any initial table. |
| `RefreshDriver.SpacingOverPasses` | scripts/refresh_specialist_market_truth.py:389-429 | Spacing (to the millisecond) and absorption over any number of driver passes. |
| `Transactions.RunBatch` | src/polycopy/ingestion/source_trade_resolution.py:936-1118 | A failing batch leaves durable exactly the leading steps whose savepoint was outermost at its release. |
| `Transactions.PrefixAtomicExactlyWhen` | src/polycopy/ingestion/source_trade_resolution.py:1119-1146 | A failure at step k leaves exactly the steps before k when and only when each of them has a savepoint of its own. |
| `Repair.VerdictExactlyWhen` | scripts/repair_pr25a_paper_provenance.py:245-270 | A row is repairable exactly when one decision alone has its candidate and snapshot; the verdict names it. |
| `Repair.ReasonExactlyWhen` | scripts/repair_pr25a_paper_provenance.py:245-270 | Each reason to skip a row arises exactly from its cause: a missing candidate, a missing snapshot, no decision, or several. |
| `Repair.SelectedExactlyWhen` | scripts/repair_pr25a_paper_provenance.py:356-398 | The selection is, in id order, exactly the rows without a decision that have fewer than limit such rows of smaller id. |
| `Repair.ProofChangedColumns` | scripts/repair_pr25a_paper_provenance.py:284-293 | The proof passes exactly when the decision column changed and no other column did. |
| `Repair.ColumnsDecideRow` | scripts/repair_pr25a_paper_provenance.py:284-293 | The compared columns leave nothing of a row out. |
| `Repair.RowcountIsGuard` | scripts/repair_pr25a_paper_provenance.py:450-466 | The guarded update hits one row exactly when the row still has no decision and its validated candidate and snapshot. |
| `RepairRun.PatchStep` | scripts/repair_pr25a_paper_provenance.py:448-461 | Earlier updates of a batch do not touch the guard of a later one. |
| `RepairRun.WriteBatch` | scripts/repair_pr25a_paper_provenance.py:440-506 | The write transaction commits exactly when every guard holds, the first row's proof passes and storage does not fail; else the database is as found and nothing is reported. |
| `RepairRun.CommittedBatchMeans` | scripts/repair_pr25a_paper_provenance.py:398-411 | After a commit every validated row was still without a decision, with its validated candidate and snapshot, and received its decision; no other row or column changed. |
| `RepairRun.Run` | scripts/repair_pr25a_paper_provenance.py:296-549 | All or nothing under arbitrary writes of others between selection, validation and the write. A commit needs the write flag, the gates, a limit in range and a verified backup, and updates at most limit rows; a dry run changes nothing. Each early end arises exactly from its guard; status, counts and proofs follow. |
| `RepairRun.CommitMeans` | scripts/repair_pr25a_paper_provenance.py:398-493 | After a commit each selected row was as validated and has received the one decision that has its candidate and snapshot; no other row and no other column has changed. |
| `RepairRuns.UndisturbedRun` | scripts/repair_pr25a_paper_provenance.py:356-411 | Undisturbed, a run commits exactly when every selected row is repairable. |
| `RepairRuns.RunTakesFromBacklog` | scripts/repair_pr25a_paper_provenance.py:356-398 | It then takes exactly min(limit, count) rows off the front of the backlog. |
| `RepairRuns.RunRepairsRow` | scripts/repair_pr25a_paper_provenance.py:450-493 | A selected row receives the unique decision of its candidate and snapshot and changes nowhere else. |
| `RepairRuns.BlockedForever` | scripts/repair_pr25a_paper_provenance.py:398-411 | One unrepairable row among the first limit rows stops every later run too. |
| `RepairRuns.RunsShortenBacklog` | scripts/repair_pr25a_paper_provenance.py:356-411 | A repairable backlog of n rows has max(0, n - k * limit) after k runs. |
| `RepairRuns.RunsEmptyBacklogExactlyWhen` | scripts/repair_pr25a_paper_provenance.py:356-411 | Enough runs empty the backlog exactly when each of its rows is repairable. |
| `Backfill.ResolveGammaBatch` | scripts/backfill_specialist_trade_taxonomy.py:264-282 | Sends the first spelling of each market id in order, and answers every id exactly with the answer for its first spelling. |
| `Backfill.RequestedOnce` | scripts/backfill_specialist_trade_taxonomy.py:269-274 | No market id is requested twice and none is left out. |
| `BackfillRun.WriteProvenance` | src/polycopy/ingestion/source_trade_provenance.py:259-356 | One provenance row per trade: inserted, left alone on an equal hash, or updated with its id and creation date kept. |
| `BackfillRun.ProcessTrade` | scripts/backfill_specialist_trade_taxonomy.py:396-421 | A trade's metadata and provenance become durable together or not at all. |
| `BackfillRun.RunBackfill` | scripts/backfill_specialist_trade_taxonomy.py:343-423 | A failure at trade k leaves exactly the effects of the trades before k; on completion filled + unchanged + conflict + unavailable = selected; a dry run writes nothing. |
| `BackfillRun.EffectOnTrade` | scripts/backfill_specialist_trade_taxonomy.py:399-417 | Each selected trade ends with its metadata replaced by the merge exactly when that filled it or left it unchanged, and with one provenance row: inserted, kept on an equal hash, or rewritten with id and creation date kept. The provider's answer is looked up by the market id in lower case. |
| `BackfillRun.WrittenAreNeeded` | scripts/backfill_specialist_trade_taxonomy.py:396-417 | The written counter is the number of trades whose provenance row was missing or had another hash when the run started. |
| `BackfillRun.CountsAreTrades` | scripts/backfill_specialist_trade_taxonomy.py:373-389 | Each merge counter is the number of selected trades with that status. |
| `BackfillRun.ErrorsAreTrades` | scripts/backfill_specialist_trade_taxonomy.py:390-391 | The provider-error counter is the number of trades whose market the provider could not answer. |
| `BackfillRun.RaisesExactlyWhen` | scripts/backfill_specialist_trade_taxonomy.py:396-421 | A trade fails exactly when its metadata had to be stored and its row is gone or the write failed, or when its provenance write failed. |
| `BackfillRun.OthersUntouched` | scripts/backfill_specialist_trade_taxonomy.py:373-423 | Rows of trades that were not selected stay as they were. |
| `BackfillRun.ReplayWritesNothing` | src/polycopy/ingestion/source_trade_provenance.py:230-242 | An equivalent replay over the reselected trades changes no row. |
| `Resolution.WinnerExactlyWhen` | scripts/backfill_resolution_truth.py:339-370 | Without a stored winner a token wins exactly when it is the one distinct token the label's outcomes name. |
| `Resolution.WinnerIgnoresOrder` | scripts/backfill_resolution_truth.py:347-361 | The winner does not depend on the order or repetition of outcome rows. |
| `Resolution.PlanTruth` | scripts/backfill_resolution_truth.py:325-379 | The de-duplicating loop computes that winner. |
| `Resolution.AmbiguousExactlyWhen` | src/polycopy/engine/market_resolution_truth.py:520-550 | A plan is ambiguous exactly when two outcome rows hold the winning token. |
| `Resolution.MarkedWinnerIsUnique` | src/polycopy/engine/market_resolution_truth.py:552-569 | A marked winner alone holds the token; other tokens lose; token-less outcomes keep their flag. |
| `Resolution.PlansAreSafe` | scripts/backfill_resolution_truth.py:297-322 | Ambiguity reaches every trade without profit or loss, and won or lost needs an unshared winning token. |
| `ResolutionOutcome.PlanSettlesFor` | src/polycopy/engine/trade_settlement.py:123-236 | The plan of a resolved market settles every selected trade exactly when the market has a winner: won on the winning token, lost on another, unknown without one, ambiguous when two outcomes share the winner; the winning flag agrees, and a priced trade realizes (payout - price) * quantity. |
| `ResolutionOutcome.RunSettlesTrades` | scripts/backfill_resolution_truth.py:387-447 | An applied run settles a trade in that way exactly when one of its rows names the market, could be planned and has a winner; the first such row decides, and nothing else about a trade changes. |
| `ResolutionOutcome.SkippingKeepsTrades` | scripts/backfill_resolution_truth.py:584-588 | A run that skips trades changes none. |
| `ResolutionOutcome.WonAreOnWinner` | scripts/backfill_resolution_truth.py:595-603 | For an unshared winner the report counts as won exactly the unsettled trades on it, and as lost exactly those on another token. |
| `ResolutionOutcome.NoneWonOtherwise` | scripts/backfill_resolution_truth.py:595-603 | Without a winner, or with a shared one, none is counted as won or lost. |
| `ResolutionOutcome.MissingAreTokenless` | scripts/backfill_resolution_truth.py:590-594 | Unsettled trades without a token are counted apart. |
| `ResolutionOutcome.RunUpdatesMarkets` | src/polycopy/db/market_persistence.py:187-232 | After an applied run every selected market has its winner and label stored when the winner is unshared, is as before when it is shared, and is unresolved without one. |
| `ResolutionOutcome.RunFlagsOutcomes` | src/polycopy/engine/market_resolution_truth.py:552-569 | After it every outcome with a token, of a market with an unshared winner held by one of them, is flagged by whether it holds the winner. |
| `ResolutionOutcome.ClassExactlyWhen` | scripts/backfill_resolution_truth.py:574-581 | A resolved market is reported as ambiguous when several outcomes hold its winner, planned when one does, and without a match otherwise. |
| `ResolutionRun.StaysResolvedExactlyWhen` | src/polycopy/db/market_persistence.py:187-232 | Applying a plan keeps a market resolved exactly when a winner was found. |
| `ResolutionRun.DistinctTokensWithdrawResolution` | scripts/backfill_resolution_truth.py:363-370 | Several distinct tokens under a label are reported as no match, and applying withdraws the market's resolution. |
| `ResolutionRun.BackfillReport.CountPlan` | scripts/backfill_resolution_truth.py:594-603 | Keeps trades seen = skipped + the sum over statuses, and settled = won + lost. |
| `ResolutionRun.RunBackfill` | scripts/backfill_resolution_truth.py:550-632 | The loop's counters are those of its plans, per status and without a plan; planned + no match + ambiguous = planned markets; a dry run changes nothing. |
| `ResolutionReplay.RerunChangesNothing` | scripts/backfill_resolution_truth.py:26-56 | The script is idempotent: a second applied run changes no market, outcome or trade. |
| `ResolutionReplay.DryRunPredictsTrades` | scripts/backfill_resolution_truth.py:580-603 | A dry run counts the trades that applying would plan, for markets with distinct source ids. |
| `ResolutionDurability.ApplyAll` | src/polycopy/db/market_persistence.py:170-243 | An applied run that fails at any write leaves the truth of the leading markets, up to the first that settles trades, and no settlement; a completed one is durable as a whole. |
| `ResolutionDurability.RecoveryCompletes` | scripts/backfill_resolution_truth.py:26-56 | Running the script again after such a failure ends in the state of an uninterrupted run. |

## Left out

- Score formulas, category scores (Step 5c), decision_verdicts, paper signals and related-wallet detection: their logic lies in other modules, or the step persists nothing.
- HTTP adapters, asyncio, argument parsing, write gates, locks, RSS polling, rendering and backups: input and output; their failures are inputs here.
- Float text, rounding, the Sharpe estimate and the hash: abstract functions of the environment with the injectivity that the theorems state.
- NaN and infinite floats, exponent notation, and metric values of types the canonicaliser passes through unchanged.
- WalletMetrics.StreamTrades: rows with an unparsable or empty timestamp, which the source counts but does not date; the column is NOT NULL and every writer stores an isoformat text (src/polycopy/ingestion/source_trade_writer.py:297), so the store keeps instants.
- WalletMetrics.ComputeWalletMetrics: the same rows; so the newest and the oldest timestamp of a wallet with rows are never missing here.
- Rows whose source_data_timestamp is NULL, and a query for a single wallet id that raises: the scan then stops.
- Case folding and white space beyond ASCII, apart from the characters str.strip removes.
- Another writer in the decision table during Step 5b: covered only as the unique-key collision branch.
- Several selector kinds and the source_trades clauses of periodic market selection: they only narrow the selection of due markets.
- Market ids that differ only in case in the refresh table, and a refresh without a provider, which writes nothing.
- Trades selected twice in one backfill: the selection is by primary key, so the theorems ask for distinct ids.
- Component JSON that is not a list of objects: the audit script then raises before it writes.
- Audit stamps of the resolution backfill (resolution_checked_at, resolution_source, resolved_at): they change on every run by design and are not part of the modelled rows.
- ResolutionRun.RunBackfill: the loop with its report and without a write that raises; ResolutionDurability.ApplyAll has the writes, their transactions and their failures, over the rows that could be planned.
- ResolutionReplay.RerunChangesNothing: stated without a limit, because a limited second run goes on to further markets.
- BackfillRun.ReplayWritesNothing: assumes that the merge module accepts its own output and that the hash of a replay is unchanged, which that module's documentation promises.
- ScanCoverage.RunsClearBacklog: asks for clocks past the trades and no blocked wallet; ScanCoverage.CoveredInTurnExactlyWhen and ScanWaiting.WaitsExactlyWhile hold without that.
- Refresh.ChecksAreSpaced: rounds to the nearest millisecond; how SQLite reads the fraction of a second in binary is not part of the model.
