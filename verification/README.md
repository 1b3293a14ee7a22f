# Tallyo server: verified models

Dafny models of the parts of the Tallyo server (`server-rs`) that carry state, parse text or add up
money, with proofs about all their inputs and all their runs. Objects that the server updates in place
are classes whose methods are proved against a specification function; the theorems about whole runs
are lemmas about those functions. `dafny verify dfyconfig.toml` checks everything.

| file | models |
|---|---|
| `RateLimit.dfy`, `PrivateCounters.dfy` | the fixed-window limiter: its shared map, bursts, and what the keys see of each other |
| `Permits.dfy`, `RejectionCap.dfy`, `RejectionBurst.dfy`, `Concurrency.dfy` | the limiter around the handler: who holds permits, the cap on 401s in a window and in a stretch of time, the requests that run at a time |
| `GlobalId.dfy`, `Base64Url.dfy`, `Decimal.dfy` | global ids, unpadded base64url, decimal text and the checked integer parsers |
| `Encrypt.dfy` | encrypting a database in place: failing calls, crashes, reruns |
| `Money.dfy` | the exact money parser |
| `EventBus.dfy` | fan-out to bounded queues |
| `Seed.dfy`, `Text.dfy` | the two passes over the category seed and the id map between them |
| `Budget.dfy`, `Spending.dfy`, `Transactions.dfy`, `Months.dfy`, `Timestamps.dfy`, `History.dfy` | the budget report, the spending rows behind it and their loading, the texts of months and times, the report history |
| `SummaryCache.dfy`, `JsonSearch.dfy` | the quote summary cache and the search for a number in a JSON tree |
| `Keyword.dfy` | the whole-word scan of the account type inference |
| `WebAuthn.dfy` | the signature counter and the layout of authenticator data |
| `Scopes.dfy` | scope expansion, role intersection and the scope claim |

Where a property one would expect is false of the code, there is a lemma with a concrete input and, where
the code decides it, the exact condition:

- A limiter window can see more 401s than its limit: a request that outlives its window gives its permit
  back to the next one (`RejectionCap.SlowRequestBreaksTheCap`). From some point of a run the cap can be passed
  without further such releases, if and only if some step of the run is one (`RejectionCap.CappedIffNeverSteals`);
  the excess is at most the number of units taken out that way (`Permits.CapOnRejections`).
- `handler/mod.rs` says that the cap also bounds concurrency. It does so exactly as long as no window opens while
  a permit of its address is still held (`Concurrency.BurstsBoundedIffIdle`, `Concurrency.BoundedIffNeverOverlaps`);
  otherwise the old and the new requests together, and after a late release even those of the new window alone,
  can exceed it (`Concurrency.LimitIsNotAConcurrencyBound`).
- The limiter reads the clock before it takes the lock. Every address gets the answers of a counter of its own for
  exactly those sequences of clock readings in which no reading falls back below an earlier rise
  (`PrivateCounters.InvisibleIffNoPeak`); otherwise a sweep for one address can forget another's window
  (`PrivateCounters.OutOfOrderClockForgets`).
- The keyword scan misses a whole word for exactly those keywords that overlap themselves behind a
  non-alphanumeric character (`Keyword.ScanIsCompleteIff`). None of the keywords in use does.
- The text range that a budget report loads its budgets with is empty for the month 9999-12 and holds exactly
  its month for every other one (`Months.RangeIsMonthIff`). Transactions are loaded by the text of their times, and
  a range that ends in year 10000 in UTC holds none of them (`Timestamps.RangeIsTimeRangeIff`,
  `Transactions.RangeYieldsMonth`). So a month of a history is shown with its own report if and only if it is not
  9999-12 and the last end of the history is before that year (`History.ReportsAgreeIff`); whole histories agree if
  and only if they do not list 9999-12 (`History.HistoryAgreesIff`). `History.LastTwoMonthsDisagree` is an input for
  which one does not.
- A crash between the two renames of the encryption leaves a database that reruns refuse, with the original
  safe at `.bak` (`Encrypt.CrashBetweenRenamesStrands`). A missing database file is created empty and
  encrypted (`Encrypt.CleanRunSucceedsIff`).

Conventions. In `Decimal`, `Money`, `GlobalId` and `Base64Url` a `string` is the UTF-8 bytes of a Rust
`&str`, one `char` a byte; elsewhere it is its Unicode scalar values. Times of the monotonic clock are
natural numbers and parameters of the operations; "in order" means that operations read a clock that never
goes back. The if-and-only-ifs about 401s and concurrency are about windows longer than zero. Instants of the
calendar are numbered by their UTC fields, with 31 days to each month; only their order and their texts are
used. Cents are `i64` and their sums wrap around, as in the release build.

## Model

| member | source | states |
|---|---|---|
| `RateLimit.RateLimit.Reserve` | server-rs/src/middleware/ratelimit.rs:104-120 | sweeps the expired windows of all keys, grants if and only if the key's current window has room, and leaves exactly the new map |
| `RateLimit.RateLimit.Release` | server-rs/src/middleware/ratelimit.rs:122-128 | gives one unit back to whatever window the key has now, saturating at zero |
| `RateLimit.BurstBound` | server-rs/src/middleware/ratelimit.rs:33-48 | without releases, the k-th and the (k + 2 * limit)-th grant of a key are more than a window apart |
| `RateLimit.BurstIsReached` | server-rs/src/middleware/ratelimit.rs:104-120 | the bound is tight: for every limit and window there is a run with 2 * limit grants exactly one window apart |
| `PrivateCounters.EntryIsCounter` | server-rs/src/middleware/ratelimit.rs:104-128 | on every run whose clock readings have no peak, a key's entry equals a private, never swept counter, unless a later reservation found that counter's window expired |
| `PrivateCounters.SweepRefinesPrivateCounters` | server-rs/src/middleware/ratelimit.rs:104-128 | on every such interleaving over all keys a reservation gets the answer that the key's own events alone would get |
| `PrivateCounters.InvisibleIffNoPeak` | server-rs/src/middleware/ratelimit.rs:105-110 | for which sequences of clock readings, with releases anywhere, every reservation gets that answer for every limit, window and choice of keys: those in which no reservation's time is below that of an earlier one which itself rose above one before it |
| `PrivateCounters.InOrderHasNoPeak` | server-rs/src/middleware/ratelimit.rs:105-106 | readings in the order of the lock are such a sequence |
| `PrivateCounters.OutOfOrderClockForgets` | server-rs/src/middleware/ratelimit.rs:105-110 | a run of three reservations on which a key is granted a permit that its own counter refuses |
| `Permits.UnauthorizedLimiter.Enter` | server-rs/src/middleware/ratelimit.rs:63-70 | requests without the credential change nothing; others take a Begin step of the ledger and are admitted exactly when the window has room |
| `Permits.UnauthorizedLimiter.Leave` | server-rs/src/middleware/ratelimit.rs:71-75 | every response but a 401 gives back by address alone: a Finish step of the ledger |
| `Permits.PlayAccounts` | server-rs/src/middleware/ratelimit.rs:59-77 | for every run of the 401 limiter, whatever the clock: count <= held + kept <= count + stolen for the open window, and held + kept <= limit + stolen for every window |
| `Permits.CapOnRejections` | server-rs/src/middleware/ratelimit.rs:50-78 | the count never exceeds the limit, and 401s plus running requests of a window exceed it by at most what later-returning permits took out |
| `RejectionCap.BalancedIffNeverSteals` | server-rs/src/middleware/ratelimit.rs:67-75 | the counts equal running requests plus 401s throughout a run if and only if no release hits a window that its permit did not come from |
| `RejectionCap.HonestRun` | server-rs/src/middleware/ratelimit.rs:67-75 | without such a release: at most limit 401s a window, and a permit's own release never saturates |
| `RejectionCap.CappedIffNeverSteals` | server-rs/src/middleware/ratelimit.rs:50-78 | from every point of a run, all continuations without such a release keep every window's 401s within the limit, if and only if the run itself has no such release |
| `RejectionBurst.RejectionsWithinAWindowLength` | server-rs/src/middleware/ratelimit.rs:50-78 | on every run whose requests begin in order and in which no release hits a foreign window, the requests of one address that begin within one window length, with all that share a window with one of them, end in at most 2 * limit 401s |
| `RejectionCap.SlowRequestBreaksTheCap` | server-rs/src/middleware/ratelimit.rs:71-74 | with limit one, a run with two 401s in one window |
| `Concurrency.BurstsBoundedIffIdle` | server-rs/src/handler/mod.rs:31-33 | when a request opens a window, the limit bounds the running requests of its address under every burst at that time if and only if none was running before |
| `Concurrency.ConcurrencyWithoutOverlap` | server-rs/src/handler/mod.rs:31-33 | on every run in which no window opens while a permit of its address is held, the limit bounds the running requests of every address, and no release hits a foreign window |
| `Concurrency.BoundedIffNeverOverlaps` | server-rs/src/handler/mod.rs:31-33 | at every request of a run every burst stays within the limit, if and only if no window of the run opens over a held permit |
| `Concurrency.LimitIsNotAConcurrencyBound` | server-rs/src/handler/mod.rs:31-33 | with limit one, a run with two requests of one address in flight, and its continuation in which both are of the same window |
| `Decimal.CheckedMagnitudeIsExact` | server-rs/src/money.rs:59-61 | the digit loop with its overflow checks fails exactly when a character is no digit or the value is out of bounds |
| `Decimal.ParsePrintI64` | server-rs/src/ids.rs:64 | every `i64`, the minimum included, survives printing and parsing |
| `Decimal.ParseI64IsExact` | server-rs/src/ids.rs:64 | a text parses to a number if and only if it is an optional sign and digits that denote it in decimal |
| `Base64Url.DecodeOfEncode` | server-rs/src/ids.rs:90 | every byte string decodes from its encoding, for all lengths modulo three |
| `Base64Url.EncodeOfDecode` | server-rs/src/ids.rs:54 | the strict decoder accepts one text for each byte string |
| `Base64Url.EncodingIsTextOf` | server-rs/src/ids.rs:90 | which text an encoding is: each three bytes as one number of four base-64 digits, the last group filled up with zero bits and cut |
| `Base64Url.SymbolsAreAlphabet` | server-rs/src/ids.rs:90 | the digits are those of the URL-safe alphabet, in its order |
| `GlobalId.StagesOfVersioned` | server-rs/src/ids.rs:54-64 | the stages before the comparison accept every spelling of the id that the `i64` parser accepts, and no other text after the type |
| `GlobalId.StagesAcceptIff` | server-rs/src/ids.rs:54-64 | and they yield an id for no other text: exactly for encodings of its type and a spelling of its number |
| `GlobalId.DecodeIffEncoding` | server-rs/src/ids.rs:53-70 | a text decodes to an id if and only if it is that id's encoding, for every type and every `i64` |
| `GlobalId.EncodingIsText` | server-rs/src/ids.rs:89-91 | the id is the base64url text of "v1:", the type's name, a colon and the decimal number, with the names written out |
| `GlobalId.AccountOne` | server-rs/src/ids.rs:89-91 | account 1 is "djE6QWNjb3VudDox", and that text is account 1 |
| `GlobalId.EncodeIsInjective` | server-rs/src/ids.rs:89-91 | different ids have different texts |
| `GlobalId.ComparisonIsNeeded` | server-rs/src/ids.rs:66-68 | for every type and every `i64`, a second text (a zero after the sign) that the stages accept and only the comparison refuses |
| `GlobalId.LocalIdsOfMatching` | server-rs/src/ids.rs:126-128 | when all types match, the local ids in order |
| `GlobalId.LocalIdsFirstError` | server-rs/src/ids.rs:126-128 | otherwise the error of the first id whose type differs |
| `Encrypt.Disk.EncryptExisting` | server-rs/src/database/encrypt.rs:13-46 | the calls in their order, with any of them failing, end where the step machine ends |
| `Encrypt.RunReports` | server-rs/src/database/encrypt.rs:13-46 | what a run reports, on every disk and however its calls go: the refusals before the first change, and then the first call that fails |
| `Encrypt.RunLeaves` | server-rs/src/database/encrypt.rs:33-46 | the whole disk after every run that got past the export: rolled back after a failed install, stranded at `.bak` only after a failed rollback too, replaced after success |
| `Encrypt.FailedInstallIsRolledBack` | server-rs/src/database/encrypt.rs:37-43 | success means that no call failed; an install error means that the original is back at `path` with nothing at `.bak`; a rollback error means that both renames failed |
| `Encrypt.StepIsSafe` | server-rs/src/database/encrypt.rs:18-46 | each call keeps what is known about the three files at its point of the run |
| `Encrypt.SessionIsSafe` | server-rs/src/database/encrypt.rs:13-46 | so does every sequence of runs, each cut short anywhere |
| `Encrypt.OriginalSurvives` | server-rs/src/database/encrypt.rs:12-46 | the original is at all times at `path` or at `.bak`; after success the ciphertext under the run's key is at `path`, the original at `.bak`, and `.enc` is gone |
| `Encrypt.BackupIsNeverOverwritten` | server-rs/src/database/encrypt.rs:18-22 | with a file at `.bak`, no run ever changes anything or succeeds |
| `Encrypt.OtherFilesUntouched` | server-rs/src/database/encrypt.rs:16-17 | no other path is touched |
| `Encrypt.CleanRunSucceedsIff` | server-rs/src/database/encrypt.rs:13-46 | on any disk, a failure-free run succeeds if and only if the path is not in memory, nothing is at `.bak`, and the file is plaintext or missing; and what the whole disk is then |
| `Encrypt.RerunSucceedsIff` | server-rs/src/database/encrypt.rs:18-22 | after any session, a failure-free rerun succeeds if and only if nothing is left at `.bak` |
| `Encrypt.FailureAllowsRerun` | server-rs/src/database/encrypt.rs:23-43 | after every reported failure other than a failed rollback or a refusal at the first call, the original is at `path` and a rerun succeeds |
| `Encrypt.CrashBetweenRenamesStrands` | server-rs/src/database/encrypt.rs:36-37 | from every start there is a crash point after which the original is only at `.bak` and reruns refuse |
| `Money.ParseOfLiteral` | server-rs/src/money.rs:36-68 | every literal parses to exactly its cents, or overflows when these do not fit `i64` |
| `Money.ParseIsExact` | server-rs/src/money.rs:36-68 | a text parses to an amount if and only if it is sign, digits and at most two decimals denoting that amount |
| `Money.OverflowIsExact` | server-rs/src/money.rs:59-63 | overflow is reported if and only if the text is a literal whose cents do not fit |
| `Money.SyntaxErrorsAreExact` | server-rs/src/money.rs:37-57 | which texts are empty, lack digits, or are no literals |
| `Money.LongFractionsAreExact` | server-rs/src/money.rs:47-48 | too many fraction digits are reported exactly for texts with more than two characters behind the first point, whatever else is wrong |
| `Money.InvalidDecimalsAreExact` | server-rs/src/money.rs:55-58 | an invalid decimal is reported exactly for the other texts that are no literals |
| `Money.OverflowsAreExact` | server-rs/src/money.rs:59-63 | which of the two overflows is reported: whether the cents fit `u64` |
| `Money.ParsePrintCents` | server-rs/src/money.rs:62-67 | the canonical text of every `i64` number of cents parses back to it |
| `EventBus.EventBus.RegisterSubscriber` | server-rs/src/accounts/events.rs:24-31 | appends an open, empty queue and returns its fresh receiver |
| `EventBus.EventBus.Publish` | server-rs/src/accounts/events.rs:33-42 | offers the event to every queue and warns for exactly those without room |
| `EventBus.ReceiveNext` | server-rs/src/accounts/events.rs:24-31 | a receiver takes its oldest event; the bus sees that one queue change |
| `EventBus.DropReceiver` | server-rs/src/accounts/events.rs:24-31 | a dropped receiver's queue is gone and closed; no other queue changes |
| `EventBus.DeliveredExactly` | server-rs/src/accounts/events.rs:24-42 | on every run, received then queued events of an open subscriber are exactly the accepted ones in order; at most 64 are queued; a full queue means 64 unreceived events |
| `EventBus.AcceptedInOrder` | server-rs/src/accounts/events.rs:33-42 | accepted events are a subsequence of those published since registration |
| `EventBus.OpenUntilDropped` | server-rs/src/accounts/events.rs:24-31 | a subscriber's queue is open until its receiver is dropped, and closed and empty ever after |
| `EventBus.RefusedIff` | server-rs/src/accounts/events.rs:33-42 | a publish is refused exactly by dropped subscribers and by those with 64 events not yet received |
| `EventBus.WarnedAreRefused` | server-rs/src/accounts/events.rs:33-42 | the warnings name exactly the subscribers that refuse the event, in order |
| `EventBus.SubscribersAreIndependent` | server-rs/src/accounts/events.rs:33-42 | a subscriber's state is the one its own operations and the publishes lead to alone |
| `Seed.SeedCategoryGroups` | server-rs/src/database/seed.rs:152-178 | the first pass yields the first entry of each group, numbered by position |
| `Seed.SeedCategoryParams` | server-rs/src/database/seed.rs:180-212 | the second pass yields every entry in order with its group's id, or the first group without one |
| `Seed.SeedCategories` | server-rs/src/database/seed.rs:90-108 | for every text, both passes and the id map together resolve every category |
| `Seed.EveryGroupResolves` | server-rs/src/database/seed.rs:90-103 | every group the second pass looks up is in the map built from the first |
| `Seed.GroupsAreFirstEntries` | server-rs/src/database/seed.rs:168-177 | the groups are the headers that have categories, in increasing order, each with the emoji and position of its first category |
| `Seed.GroupNamesAreDistinct` | server-rs/src/database/seed.rs:170 | no group is listed twice |
| `Seed.PassesAgree` | server-rs/src/database/seed.rs:171-175 | a group's sort order is one more than that of its first category in the other pass |
| `Seed.WrittenTextIsRead` | server-rs/src/database/seed.rs:154-168 | a text written from loose categories and groups is read back as exactly these, the loose ones under "Other" |
| `Seed.ClassifyIgnoresBlanks` | server-rs/src/database/seed.rs:158-160 | blanks around a line do not matter |
| `Seed.OtherLinesAreSkipped` | server-rs/src/database/seed.rs:158-168 | lines that are no header and no category, and categories named "Uncategorized", change nothing |
| `Seed.SplitIsExact` | server-rs/src/database/seed.rs:222-227 | the emoji and the name of every value, with its special cases: no word, and blanks in front |
| `Seed.SplitOfEmojiAndName` | server-rs/src/database/seed.rs:222-227 | an emoji and a name joined by a space are split again |
| `Budget.ReportLosesNothing` | server-rs/src/budgets/service.rs:186-254 | each total is, modulo 2^64, the sum over all categories of all groups of its kind, whatever was dropped on the way |
| `Budget.LinesLoseNothing` | server-rs/src/budgets/service.rs:199-212 | dropping zero lines changes neither sum of a group |
| `Budget.EmptySectionsAreZero` | server-rs/src/budgets/service.rs:213 | a section is dropped exactly when it has no lines, and then its sums are zero |
| `Budget.LinesListCategories` | server-rs/src/budgets/service.rs:196-210 | one line for each category with figures, in order, with its own figures, and no other line |
| `Budget.SectionsShowGroups` | server-rs/src/budgets/service.rs:192-225 | one section for each income or expense group with figures, in order, each the roll-up of its lines: all three of its figures are the wrapped sums of theirs |
| `Budget.RemainingAgrees` | server-rs/src/budgets/service.rs:207-252 | what remains agrees at all levels, modulo 2^64: a section's is the sum of its lines', and the report's budgeted less actual remainder is the sum of the income sections' less that of the expense sections' |
| `Spending.ActualAmountsByMonthCategory` | server-rs/src/budgets/service.rs:161-183 | the fold yields each month's map, with an entry for exactly the months that have categorized rows |
| `Spending.LatestRowCounts` | server-rs/src/budgets/service.rs:170-181 | a category's amount is that of the latest row about it, income with its sign turned |
| `Spending.ReportTotalsAreRowTotals` | server-rs/src/budgets/service.rs:146-254 | if there is one row for each month and category, as `Transactions.AggregateRows` yields, the report's actual totals are the sums of the month's rows over the categories of each kind |
| `Spending.ReportTotalsAreStoredTotals` | server-rs/src/budgets/service.rs:170-254 | in terms of the stored amounts, expenses are their sum and income is its negation |
| `Transactions.AggregateRows` | server-rs/src/transactions/store/reports.rs:111-150 | the fold yields one row for each month and category, as the specification of the fold has it |
| `Transactions.RowsKeepTheirPlaces` | server-rs/src/transactions/store/reports.rs:127-146 | a further transaction leaves every row in its place and adds at most one, behind them |
| `Transactions.RowsOfAggregated` | server-rs/src/transactions/store/reports.rs:111-150 | aggregating and keeping a month's rows is keeping the month's transactions and aggregating: neither amounts nor the order of rows depend on other months |
| `Transactions.SpendingRows` | server-rs/src/transactions/store/reports.rs:28-38 | the rows of the transactions whose time text is in the half-open text range; refused exactly if monthly periods are asked for and there are more than 400, and failing exactly if a loaded time cannot be read back |
| `Transactions.LoadedIsReadable` | server-rs/src/database/timestamp.rs:33-37 | that never happens to a range that starts in year 0000 or later in UTC |
| `Transactions.RangeYieldsMonth` | server-rs/src/database/queries.rs:14179-14195 | of any range that covers a month, the actual amounts of the month are those of all its transactions if the range ends before year 10000 in UTC, and otherwise none |
| `Transactions.WiderRangeSameMonth` | server-rs/src/transactions/store/reports.rs:28-38 | loading any range that covers a month and ends before year 10000 yields the actual amounts that the month's own range yields |
| `Transactions.ReportTotalsAreTransactionTotals` | server-rs/src/budgets/service.rs:69-84 | from transactions to report: expenses are, modulo 2^64, the sum of the month's transactions in expense categories, and income is the negated sum of those in income categories; both are zero if the month ends after year 9999 in UTC |
| `Timestamps.TextOrderIsTimeOrder` | server-rs/src/database/timestamp.rs:16-30 | for times of the years 0000 to 9999, the order of their texts is the order of time |
| `Timestamps.RangeIsTimeRangeIff` | server-rs/src/database/queries.rs:14184-14185 | a text range that starts in those years holds the times from its start up to its end if and only if it ends in them too |
| `Timestamps.StampOfAnInstant` | server-rs/src/database/timestamp.rs:16-18 | a time written out: 2026-07-06T19:55:05Z |
| `Months.ValidMonthsAreFormats` | server-rs/src/budgets/service.rs:264-274 | the accepted texts are exactly the formats of the months of the years 0000 to 9999 |
| `Months.TextOrderIsCalendarOrder` | server-rs/src/budgets/service.rs:92-103 | on accepted texts, text order is calendar order |
| `Months.RangeIsMonthIff` | server-rs/src/budgets/service.rs:76-81 | the half-open text range from a month to its successor holds exactly that month if and only if it is not 9999-12 |
| `Months.AfterTheLastMonth` | server-rs/src/budgets/service.rs:76 | the text of the month after 9999-12 is "+10000-01" |
| `Months.SortedRangeCovers` | server-rs/src/budgets/service.rs:102-113 | the first start and the last end of a sorted list cover every month's range |
| `History.SortedMonths` | server-rs/src/budgets/service.rs:102-103 | the keys as a strictly ascending list, none lost, none twice |
| `History.BudgetReportHistory` | server-rs/src/budgets/service.rs:85-132 | the error says what is wrong (months, their order, more than 120 reports, a span of more than 400 months, a loaded time that cannot be read back) and occurs exactly then; otherwise the reports are those of all budgeted months of the range, each once, newest first, with all of each month's transactions if the last month ends before year 10000 in UTC and with none of them otherwise |
| `History.ReportForMonth` | server-rs/src/budgets/service.rs:69-83 | the report of one month, with the budgets and the amounts of the month's own text ranges; refused exactly for invalid months and for times that cannot be read back |
| `History.MonthBudgetsAreLoaded` | server-rs/src/budgets/service.rs:76-82 | the month's own budgets are loaded for every month but 9999-12, and nothing for that one |
| `History.ReportsAgreeIff` | server-rs/src/budgets/service.rs:69-131 | in every valid time zone and for every list of months, the history's report of a listed month equals the month's own report for every database that budgets these months, if and only if the list ends before year 10000 in UTC and the month is not 9999-12 |
| `History.HistoryAgreesIff` | server-rs/src/budgets/service.rs:85-131 | all listed months agree if and only if 9999-12 is not listed |
| `History.HistoryShowsMonthReports` | server-rs/src/budgets/service.rs:69-131 | under that condition, whatever the database holds, each item of a history is the month's own report |
| `History.LateHistoryIsEmpty` | server-rs/src/budgets/service.rs:112-118 | in every time zone in which the last end is after year 9999, and for every other listed month, a database whose cent spent in that month is in the month's own report and not in the history |
| `History.LastTwoMonthsDisagree` | server-rs/src/budgets/service.rs:112-118 | such a history: 9999-11 and 9999-12 in UTC |
| `History.HistoryIsCalendarRange` | server-rs/src/budgets/service.rs:90-131 | in calendar terms: a budgeted month is reported if and only if it is not before the start month, if one is given, and before the end month, if one is given |
| `SummaryCache.YFinance.CachedSummary` | server-rs/src/clients/yfinance.rs:314-324 | answers from a live entry and removes an expired one |
| `SummaryCache.YFinance.CacheSummary` | server-rs/src/clients/yfinance.rs:326-339 | stores for 30 seconds, clearing a full cache for a new ticker |
| `SummaryCache.LookupIsLatestStore` | server-rs/src/clients/yfinance.rs:314-339 | on every run a lookup answers exactly the latest store for the ticker, if it has not expired and no clear has followed it |
| `SummaryCache.CacheIsHeld` | server-rs/src/clients/yfinance.rs:314-339 | the whole cache on every run, from the operations alone: which tickers have an entry (not looked up after thirty seconds, not cleared by the 257th), and that it is the ticker's latest store |
| `SummaryCache.CacheIsBounded` | server-rs/src/clients/yfinance.rs:328-330 | never more than 256 entries, all of stored tickers |
| `SummaryCache.NoClearForFewTickers` | server-rs/src/clients/yfinance.rs:328-330 | no clear happens before more than 256 different tickers were stored |
| `JsonSearch.Search` | server-rs/src/clients/yfinance.rs:414-423 | the search finds a number if and only if some object anywhere offers one for the key, and it finds the first in depth-first order |
| `JsonSearch.FindsFirstOffer` | server-rs/src/clients/yfinance.rs:414-432 | the search yields a number if and only if the first object in depth-first order whose first member of that name counts as any number counts as this one |
| `JsonSearch.FloatValueIffRawScalar` | server-rs/src/clients/yfinance.rs:425-432 | a value counts as a number if and only if a chain of "raw" keys leads to a scalar that does |
| `Keyword.ScanIsCompleteIff` | server-rs/src/accounts/simplefin_types.rs:188-196 | for exactly which keywords the scan finds a whole word in every name that has one |
| `Keyword.AlphanumericKeywordsAreFound` | server-rs/src/accounts/simplefin_types.rs:188-196 | all alphanumeric keywords are among them |
| `Keyword.PhrasesAreFound` | server-rs/src/accounts/simplefin_types.rs:138-177 | so are all phrases of the account type inference |
| `Keyword.HasKeywordIff` | server-rs/src/accounts/simplefin_types.rs:188-196 | the test on a list of such keywords succeeds if and only if one of them stands in the name as a word |
| `WebAuthn.StoredCredential.UpdateAfterAuthentication` | server-rs/src/auth/webauthn.rs:428-446 | the new counter, warning and flags |
| `WebAuthn.CounterRun` | server-rs/src/auth/webauthn.rs:435-439 | over every run the stored counter is the maximum seen, and the warning is set if and only if some counter did not exceed the stored one with not both zero |
| `WebAuthn.ParsesExactlyLayouts` | server-rs/src/auth/webauthn.rs:469-500 | the parser returns three parts if and only if the data is header with the attested bit, these parts in their places with the big-endian id length, and any rest |
| `WebAuthn.RefusalsAreExact` | server-rs/src/auth/webauthn.rs:469-491 | which data is refused with which error |
| `Scopes.ClaimRoundTrip` | server-rs/src/auth/roles.rs:191-196 | joining scopes with spaces and parsing yields the same list |
| `Scopes.GrantIsIntersection` | server-rs/src/auth/roles.rs:167-189 | granted are exactly the role's scopes that the request names, or covers with "read" or "write" |
| `Scopes.GrantKeepsOrder` | server-rs/src/auth/roles.rs:182-189 | scopes are granted in the role's order, with its repeats |
| `Scopes.ScopesAreNamed` | server-rs/src/auth/roles.rs:8-62 | the name of every scope |
| `Scopes.ParseOneMore` | server-rs/src/auth/roles.rs:191-196 | a word of a claim adds the scope of that name, and any other word nothing |
| `Scopes.ClaimIsWords` | server-rs/src/auth/roles.rs:191-196 | the words of a claim may be spaced in any way |
| `Scopes.GrantGrows` | server-rs/src/auth/roles.rs:182-189 | more requests never grant less |
| `Scopes.GrantIsStable` | server-rs/src/auth/roles.rs:182-189 | asking with exactly the granted names grants the same list |
| `Text.SplitOfJoin` | server-rs/src/auth/crypto.rs:93 | words joined by spaces split into the same words |
| `Text.SplitOfSpaced` | server-rs/src/auth/roles.rs:193 | words with blanks of any kind and number between them split into the same words |
| `Text.TrimOfPadded` | server-rs/src/database/seed.rs:159 | trimming takes off all blanks at both ends and nothing else |
| `Text.WhitespaceIsListed` | server-rs/src/database/seed.rs:159 | which characters are blanks |
| `Text.JoinOneMore` | server-rs/src/auth/crypto.rs:93 | joined are all words with one separator between each two |

## Left out

- Lock poisoning and task cancellation: a limiter lock that is poisoned refuses, and a cancelled request keeps its permit until its window ends.
- Client addresses: how `client_ip.rs` derives the key is not modelled; keys are only compared.
- PrivateCounters.SweepRefinesPrivateCounters: needs clock readings without a peak, because the code reads the clock before it takes the lock; `InvisibleIffNoPeak` shows that this is the exact condition.
- Encrypt.OriginalSurvives: contents are logical databases; permission bits, WAL side files, the journal mode and fsync durability are not part of them, and nobody else changes the three files.
- Ciphertext is an opaque constructor over a key and a database; SQLCipher itself is not modelled.
- Seed.SeedCategories: takes the lines of the text, so the split into lines is not modelled, and the database assigns ids without failing.
- The third pass over the seed, which upserts Plaid mappings, needs the code normalisation of `pfc2` and the database.
- Money: `from_dollars`, `dollars` and the JSON number output are floating point.
- History: a time zone is given by the starts of its months, each less than a day from the month's start in UTC; how they are derived and ambiguous local times are not modelled.
- Transactions.ReportTotalsAreTransactionTotals: assumes that no category is listed twice and that transactions carry the kind of the group that lists their category, which the schema and the join give; the query's other filters are not modelled.
- Spending periods other than months, and the report by category.
- Stored times are texts that the server wrote itself; texts with another offset, which its decoder would also read, are not modelled.
- The release build's wrap-around is modelled; the panic on overflow of a debug build is not.
- JsonSearch.Search: numbers are abstract and text-to-float conversion is a parameter.
- SummaryCache: the HTTP fetch, the crumb and the cookies around the cache.
- WebAuthn.ParsesExactlyLayouts: the CBOR decoder is a parameter that gives the length of the first item; signatures and attestation are not modelled.
- Keyword: lower-casing and the order of the account type rules; `char::is_alphanumeric` is a parameter.
- `simplefin_name_and_mask`, the role tables of `scopes_for_role` (a role is given as its list of scopes), enum mappings and validation one-liners would add only easy members.
- History.SortedMonths: an insertion sort stands for the library's sort.
- SQL, network clients, routing, GraphQL, MCP and the web client are plumbing around these parts.
