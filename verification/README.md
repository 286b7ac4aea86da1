# A verified model of Zavora ERP and Amos

Zavora ERP keeps the books of small businesses; Amos is its voice assistant, which
calls the ERP through tools. This project models the parts of both where a wrong
step would be costly and a reading of the code is not enough, and proves what they
guarantee on every input, every run and every interleaving. `dafny verify
dfyconfig.toml` checks it.

| module | what it models |
|---|---|
| `Json`, `SchemaSanitizer`, `SchemaMeaning`, `SchemaExactness`, `SchemaTheorems`, `SchemaTypes`, `SchemaKeywords` | the rewrite of tool schemas into the function-calling dialect, node by node, a semantics for both languages, and how the two compare |
| `Money`, `Journal`, `Reversal`, `Ledger` | half-even rounding, the posting of a journal entry with its one-cent adjustment, its reversal, and the ledger with its balance snapshots |
| `Bills`, `BillRace`, `OpeningBalances`, `Consolidation`, `ConsolidationReach`, `Eliminations`, `CustomReport` | the journal lines of a bill, its approved-to-posted step alone and under concurrency, the opening trial balance, the group trial balance with its intercompany eliminations, the report evaluator |
| `Confirmations`, `ConfirmGate`, `ConfirmGateTheorems`, `GateTimeouts` | the confirm-before-write gate: the pending map, the protocol over all interleavings of calls, clicks and timeouts, its guarantees, and its two deadlines by the clock |
| `Scheduler`, `Report` | routine triggers, tick windows and the running set; the loop that gathers a routine's report |
| `Transcript` | the rolling UTF-8 transcript two tasks write |
| `RateLimit`, `RateBound`, `RateReach`, `RetryAfter`, `SignupBudget` | the in-memory login limiter, what it lets through however clock readings are ordered, and what waiting is good for; the shared signup counter |
| `Replay`, `ExpandEnv` | FIFO payment allocation and plugged journals of the migration script; the `${VAR}` expander |

Conventions. Decimal amounts are reals, since every operation modelled is exact
until it rounds; the migration script is in whole cents. Tables and keys are maps
and sequences. Clocks, environment values, exchange rates, query results and random
ids are parameters. Concurrent code is a step relation: a run is any sequence of
actions, each enabled where it happens, and theorems speak of every reachable state.
A critical section under one mutex is one action.

JSON Schema here is the 2020-12 dialect: `$ref` (Core, section 8.2.3.1), `anyOf`,
`oneOf`, `allOf` (Core, section 10.2.1), `properties`, `items` (Core, section 10.3),
`type`, `enum`, `required` (Validation, section 6). Every other keyword is an
arbitrary extra constraint, so what is proved holds whatever those keywords say.

## What the proofs found

- A tool call that the dispatcher's timeout drops while it waits for a click leaves its
  entry in the pending map (`CancelledWaitLeaksAndIsUnaudited`). Both timeouts are 120
  seconds, and the dispatcher's starts first: a call that nobody answers is denied and audited
  only if no poll falls between the two deadlines and the rest of it waits for nothing, the
  audit entry included; else it is dropped (`UnansweredExactly`, `SurelyDroppedExactly`).
  amos/src/scope.rs:56 promises an audit
  entry per attempt; a call that ended has one if and only if it was not cancelled before
  its verdict was recorded, in any of the five phases that precede it (`AuditedExactly`).
- An approval that arrives as the gate's wait times out is reported as delivered, and the call
  is refused (`ApprovalCanBeTooLate`).
- A reference to `#/definitions/X` is looked up in `$defs` when the schema has both
  tables; it resolves right exactly when the two agree on `X` (`DefinitionsReferenceAgrees`).
- A `type` array keeps its first word besides `"null"`. It loses no value if and only if
  every other known word is that one, or is `"integer"` after `"number"`
  (`TypeArrayKeptExactly`); the condition for any `type` and `enum` is `TypesKeptExactly`,
  and `["integer", "string"]` is an instance that fails (`SecondTypeWordIsLost`).
- Of a union only the first branch that is not null is kept, for `allOf` as for `anyOf`
  (`UnionBecomesFirst`).
- Rounding line by line, a balanced entry of four lines can be refused as unbalanced: a
  bill in foreign currency (`FourLineBillRefused`), an accepted opening balance with
  sub-cent amounts (`SubCentOpeningRefused`). Three lines never are. The exact condition
  is `RefusedExactly`, and for openings `OpeningPostsExactly`.
- Negative opening amounts are counted in the totals that are checked but dropped from the
  lines (`NothingDroppedExactly`).
- The account of the rounding line is not checked for existence as the others are: an entry
  whose requested accounts are all active is written to active accounts only if and only if it
  needs no adjustment or that account is active too (`WrittenAccountsExactly`,
  `UnknownAccountWritten`).
- A reversal converts the stored, rounded document amounts again. It is refused if and only
  if the differences this makes exceed a cent together, and otherwise leaves each account
  off by exactly its own, less, on the rounding account, all of them (`ReversalExactly`).
  Lines in whole cents and lines at rate one are always restored
  (`WholeCentsOrRateOneRestored`); any other amount is lost at some rate
  (`RestoredAtEveryRate`, `TransferRestoredExactly`). A posted entry can be impossible to
  reverse: two debits of 10.005 against 20.01 at rate 100 (`ReversalRefused`).
- Overlapping posts of one bill can each write a journal entry, since the status is tested
  before the transaction and not again in it: with up to k overlapping, n entries is a sure
  limit if and only if k is at most n (`EntriesExactly`).
- Intercompany eliminations are applied in their own currency, untranslated, while the balances
  they undo were translated and rounded: they cancel if and only if that changes nothing
  (`EliminatedExactly`), and at half rate 100 is taken off where 50 was put
  (`HalfRateElimination`). They move the group's difference by exactly their net (`TrialBalance`).
- The login limiter reads the clock before it takes its lock (rate_limit.rs:45-46), so a request
  may use a reading older than one used before it. At most 2*max - 1 attempts of an address pass
  in one window length if readings come in order, and also at a lag of one tick while too few
  addresses take part for a cleanup, but no further (`TwiceMaxExactly`): from two ticks on it is
  3*max - 2 (`ThriceMaxExactly`), with the cleanup more (`AdmittedExactly`), and at a lag of a
  window no limit at all (`NoLimit`). The cleanup changes no decision, and addresses do not
  influence each other, if and only if there is no lag or windows are empty
  (`CleanupInvisibleExactly`, `OwnDecisionExactly`).
- Waiting out `Retry-After` after a refused login guarantees admission, at any lag, if and only
  if fewer than `max` other requests of the address come in meanwhile, and no shorter wait does
  (`RetryAfterExactly`).
- The signup cap can be passed by one less than the number of signups in flight, and no
  further: it is a sure limit if and only if there is one at a time (`BudgetExactly`).
- A routine's report keeps text that the model put before a call within the very event of
  its last call (`ReportIsAfterLastCall`).
- A signup dropped between its counter's increment and the setting of its expiry leaves the
  counter in the store for good (`ExpiryCanBeLost`, `LostExpiryStays`).
- A routine whose run panics is refused from then on (`PanicSticks`).

## Model

| member | source | states |
|---|---|---|
| SchemaSanitizer.SanitizeWellFormed | amos/src/agent.rs:157-239 | whatever the definitions, cyclic ones included, the rewrite terminates in an object with a string `type` and only the seven kept keywords, at every level |
| SchemaSanitizer.SanitizeRootWellFormed | amos/src/agent.rs:142-155 | the root is such a schema and its type is "object" |
| SchemaKeywords.UnionBecomesFirst | amos/src/agent.rs:176-192 | a union becomes its first branch, by position, that is not the null branch, nullable if some branch is, described by that branch or else by itself |
| SchemaKeywords.UnionAcceptsFirst | amos/src/agent.rs:176-192 | it has that branch's type and accepts what that branch's rewrite accepts, and null when some branch is the null branch |
| SchemaKeywords.NullUnionBecomesString | amos/src/agent.rs:176-192 | a union of null branches only becomes a string schema with its description, nullable unless the union is empty |
| SchemaKeywords.ReferenceBecomesTarget | amos/src/agent.rs:165-173 | a reference becomes the rewrite of the definition named after its last slash, all beside it dropped, or the string schema without one |
| SchemaKeywords.OthersBecomeStrings | amos/src/agent.rs:158-163 | booleans and other non-objects, and nodes more than twelve deep, become the string schema |
| SchemaKeywords.PlainByKeyword | amos/src/agent.rs:194-238 | every keyword of a plain node's rewrite, the type included: the first word of an array other than null, the word inferred from `properties` or else `items`, and string under an `enum` |
| SchemaMeaning.AssembleAccepts | amos/src/agent.rs:194-238 | the meaning of a rewritten plain node, keyword by keyword, in terms of the source node |
| SchemaMeaning.SanitizeRelaxes | amos/src/agent.rs:157-239 | on the supported fragment a value accepted within any number of unfoldings stays accepted |
| SchemaTheorems.RewriteOnlyRelaxes | amos/src/agent.rs:142-239 | every value valid under a supported schema is valid under its rewrite |
| SchemaTheorems.RewriteIsExact | amos/src/agent.rs:142-239 | on schemas of kept keywords only, both accept exactly the same values |
| SchemaTheorems.MeaningIgnoresBound | amos/src/agent.rs:157-160 | the source meaning does not depend on the unfolding bound used to define it |
| SchemaTheorems.RootKeepsObjects | amos/src/agent.rs:142-155 | at the root, valid argument objects stay valid, and for exact object schemas no others become so |
| SchemaTheorems.ExactIsBounded | amos/src/agent.rs:157-239 | every exact node unfolds completely within the depth bound |
| SchemaTheorems.DefsReferenceAgrees | amos/src/agent.rs:144-169 | a plain `$defs` reference is looked up where it points |
| SchemaTheorems.DefinitionsReferenceAgrees | amos/src/agent.rs:144-169 | a `definitions` reference is looked up right exactly when there is no `$defs` table or it holds the same schema |
| SchemaTheorems.SelfReferenceBottomsOut | amos/src/agent.rs:165-173 | a definition that is a reference to itself becomes the plain string schema |
| SchemaTheorems.DescriptionSurvives | amos/src/agent.rs:187-190 | a union keeps its branch's description or else its own; a plain node keeps its own |
| SchemaTypes.TypesKeptExactly | amos/src/agent.rs:195-224 | for any `type` and `enum`, no value they admit is lost if and only if every listed value fits, or every known type word is covered by the kept one |
| SchemaTypes.TypeArrayKeptExactly | amos/src/agent.rs:200-206 | a `type` array loses no value if and only if each known word is the kept one, or "integer" under "number" |
| SchemaTypes.LeafRelaxesExactly | amos/src/agent.rs:157-239 | the rewrite of a leaf schema only relaxes it if and only if that condition holds |
| SchemaTheorems.SecondTypeWordIsLost | amos/src/agent.rs:200-206 | an instance outside that condition: under `["integer", "string"]` a valid string is refused by the rewrite |
| Money.RoundHalfEvenCharacterised | zavora-erp-core/src/money.rs:18-27 | the rounding is the one nearest integer, ties to even |
| Money.RoundMoneyProperties | zavora-erp-core/src/money.rs:18-22 | whole cents are kept, the error is at most half a cent, signs commute, rounding twice changes nothing |
| Money.PayeProperties | zavora-erp-core/src/money.rs:24-27 | rounded PAYE is whole, within half a shilling, and monotone |
| Money.ResidualBound | zavora-erp-core/src/money.rs:16-22 | n amounts that balance exactly miss balance after rounding by at most n/2 cents, one less when n is 2 mod 4 |
| Money.ResidualAttained | zavora-erp-core/src/money.rs:16-22 | for every n some n amounts of whole and half cents reach that bound |
| Money.OutcomeInCents | zavora-erp-core/src/money.rs:44-57 | on whole-cent totals: balanced at 0, adjusted at 1 cent, unbalanced from 2 |
| Journal.PostedBalances | zavora-erp-core/src/services/journal.rs:312-367 | a written entry balances to the cent, holds every requested line in order and at most one further line, of one cent |
| Journal.RefusedExactly | zavora-erp-core/src/services/journal.rs:337-366 | an entry is refused exactly when its amounts, rounded one by one, miss balance by two cents or more |
| Journal.BalancedEntryResidual | zavora-erp-core/src/services/journal.rs:333-367 | a balanced entry of at most three amounts always posts; more miss balance by at most MaxResidual cents |
| Journal.ThreeAgainstOneRefused | zavora-erp-core/src/services/journal.rs:361-366 | four balanced amounts can be refused |
| Journal.WholeCentTotals | zavora-erp-core/src/services/journal.rs:321-326 | at rate one, whole-cent requests are written as they are, line by line and in total |
| Journal.WrittenAccountsExactly | zavora-erp-core/src/services/journal.rs:280-359 | when all requested accounts are active, so are all written to if and only if no adjustment is needed or the rounding account is active |
| Journal.UnknownAccountWritten | zavora-erp-core/src/services/journal.rs:280-359 | a balanced entry that is written to an account that is not active |
| Reversal.ReversalExactly | zavora-erp-core/src/services/journal.rs:632-658 | over stored lines: when a reversal is refused, when it needs an adjustment, and what it leaves each account off by |
| Reversal.ReversalRestores | zavora-erp-core/src/services/journal.rs:632-658 | when every line converts from its stored cents as it did at first, the reversal posts without adjustment and returns every account to where it was |
| Reversal.WholeCentsOrRateOneRestored | zavora-erp-core/src/services/journal.rs:632-658 | so it is for lines in whole cents at any rate and lines of any amount at rate one |
| Reversal.TransferRestoredExactly | zavora-erp-core/src/services/journal.rs:632-658 | a transfer of any amount at any rate posts, its reversal posts, and it is undone if and only if the stored amount converts as the requested one |
| Reversal.RestoredAtEveryRate | zavora-erp-core/src/services/journal.rs:647-658 | that holds at every rate for whole cents, and fails at some whole rate for any other amount |
| Reversal.ReversalRefused | zavora-erp-core/src/services/journal.rs:632-658 | an entry posts without adjustment and its reversal is refused |
| Ledger.Book.CreateAndPost | zavora-erp-core/src/services/journal.rs:265-449 | unknown accounts or imbalance leave no trace; otherwise the entry is appended; entries stay balanced and snapshots stay equal to the sums of the lines |
| Ledger.Book.MergeSnapshots | zavora-erp-core/src/services/journal.rs:432-449 | the upsert adds each account's totals in the entry's period and touches nothing else |
| Ledger.Book.ByAccount | zavora-erp-core/src/services/journal.rs:423-431 | the map holds each account's debit and credit sums |
| Bills.BuildLines | zavora-erp-api/src/routes/bills.rs:133-205 | the loop builds the specified lines; each account is debited its bill lines and tax, the payable account credited the gross total and the withholding account the tax withheld |
| Bills.EntryTotals | zavora-erp-api/src/routes/bills.rs:117-205 | every line is one-sided at the bill's rate; debits and credits account by account, and both totals |
| Bills.BillBalances | zavora-erp-api/src/routes/bills.rs:180-205 | debits equal credits exactly when the tax and withholding left off for being negative are equal, so always when neither is negative |
| Bills.BillResidual | zavora-erp-api/src/routes/bills.rs:133-205 | in base currency a balanced bill misses balance by at most MaxResidual cents, and posts if it has at most three lines |
| Bills.FourLineBillRefused | zavora-erp-api/src/routes/bills.rs:133-205 | a consistent four-line bill at rate one half is refused |
| Bills.BaseCurrencyBillPostsExactly | zavora-erp-api/src/routes/bills.rs:133-205 | at rate one a consistent whole-cent bill posts without adjustment |
| Bills.Bill.Post | zavora-erp-api/src/routes/bills.rs:85-248 | when it succeeds exactly; then status, entry id and the one new entry change together, else nothing does |
| BillRace.EntriesBoundedByOverlap | zavora-erp-api/src/routes/bills.rs:91-235 | with at most k posts of a bill overlapping, some failing or turned away, it gets at most k entries, and is posted exactly when it has one |
| BillRace.OverlapReached | zavora-erp-api/src/routes/bills.rs:91-235 | for every k some run writes k entries |
| BillRace.EntriesExactly | zavora-erp-api/src/routes/bills.rs:91-235 | at most n entries are sure if and only if at most n posts overlap |
| OpeningBalances.BuildEntry | zavora-erp-api/src/routes/onboarding.rs:35-73 | both refusals exactly; otherwise the non-blank lines in order and the checked totals |
| OpeningBalances.EmittedTotals | zavora-erp-api/src/routes/onboarding.rs:37-57 | emitted totals exceed the checked ones by the negative amounts |
| OpeningBalances.EmittedPerAccount | zavora-erp-api/src/routes/onboarding.rs:37-63 | each account is debited and credited its own positive amounts, at rate one, and no other amount is emitted |
| OpeningBalances.NothingDroppedExactly | zavora-erp-api/src/routes/onboarding.rs:37-57 | emitted and checked totals agree if and only if no amount is negative |
| OpeningBalances.OpeningPostsExactly | zavora-erp-api/src/routes/onboarding.rs:65-91 | what is emitted posts if and only if the amounts, each rounded, balance within a cent |
| OpeningBalances.WholeCentOpeningPosts | zavora-erp-api/src/routes/onboarding.rs:65-91 | an accepted non-negative whole-cent opening posts with no adjustment |
| OpeningBalances.SubCentOpeningRefused | zavora-erp-api/src/routes/onboarding.rs:65-91 | an exactly balanced opening below whole cents is accepted, then refused by the poster |
| Consolidation.Combine | zavora-erp-api/src/routes/consolidation.rs:133-169 | the nested loops hold, per account, the sums of rounded translated rows over all members, missing rates counting as one |
| Consolidation.CombineMember | zavora-erp-api/src/routes/consolidation.rs:164-168 | one member adds its rounded rows to the map and leaves other accounts alone |
| Consolidation.MissingRateIsOne | zavora-erp-api/src/routes/consolidation.rs:138-147 | replacing missing rates by one changes no account's debits or credits and not the net |
| Consolidation.RatedMember | zavora-erp-api/src/routes/consolidation.rs:138-168 | a member with a rate on file is translated at that rate |
| Consolidation.UnratedBooksAddUp | zavora-erp-api/src/routes/consolidation.rs:138-168 | without rates, or at rate one, each account of whole-cent books nets what its rows say |
| Consolidation.Close | zavora-erp-api/src/routes/consolidation.rs:253-274 | each account closes on one side with its net; the difference is the sum of nets |
| Consolidation.TrialBalance | zavora-erp-api/src/routes/consolidation.rs:133-274 | accounts, closings and totals; the difference is the group's net less the applied receivables plus the applied payables |
| Consolidation.ConsolidationBound | zavora-erp-api/src/routes/consolidation.rs:133-169 | balanced books consolidate to a whole number of cents, at most the number of rows (one fewer if odd) |
| Consolidation.Eliminate | zavora-erp-api/src/routes/consolidation.rs:171-240 | each account's net after the open balances between members are taken off the control accounts, if asked for and the accounts are there |
| Eliminations.EliminatedExactly | zavora-erp-api/src/routes/consolidation.rs:167-240 | an invoice or bill between members cancels against its elimination if and only if translating and rounding its amount changes nothing, and by how much it does not |
| Eliminations.DocumentCountsExactly | zavora-erp-api/src/routes/consolidation.rs:175-240 | a further invoice takes its balance off the receivables account exactly when it is counted, its party's non-empty PIN is a member's, eliminations are asked for among several members, and the account is there; a bill, off the payables account |
| Eliminations.NoDocumentsNothingOff | zavora-erp-api/src/routes/consolidation.rs:175-240 | without invoices and bills nothing is taken off |
| Eliminations.HalfRateElimination | zavora-erp-api/src/routes/consolidation.rs:167-240 | an instance: at half rate a receivable of 100 leaves -50 |
| ConsolidationReach.BoundIsReached | zavora-erp-api/src/routes/consolidation.rs:133-169 | for every number of rows some balanced whole-cent books at half rate reach that bound |
| Consolidation.SameCurrencyIsExact | zavora-erp-api/src/routes/consolidation.rs:138-168 | at rate one in whole cents the difference is zero |
| CustomReport.Run | zavora-erp-api/src/routes/custom_reports.rs:119-161 | the one pass shows, in each row, the coefficient sum of leaf movements that unfolding its references gives |
| CustomReport.PostingMovesRow | zavora-erp-api/src/routes/custom_reports.rs:134-141 | an account row is moved by each posting within its dates and codes, by debit less credit or, if credit-natural, the reverse, and by no other |
| CustomReport.SubtotalAddsUp | zavora-erp-api/src/routes/custom_reports.rs:146-155 | a subtotal is the sum, over its references, of what the latest earlier row with the key shows, or zero |
| CustomReport.PeriodsTile | zavora-erp-api/src/routes/custom_reports.rs:134-157 | for any definition every row is additive over adjacent periods |
| CustomReport.LedgersMerge | zavora-erp-api/src/routes/custom_reports.rs:134-157 | for any definition every row is additive over merged ledgers |
| CustomReport.EarlierReferenceFound | zavora-erp-api/src/routes/custom_reports.rs:146-155 | with distinct keys a reference to an earlier row finds that row |
| CustomReport.ReferenceFoundExactly | zavora-erp-api/src/routes/custom_reports.rs:146-155 | a reference finds something exactly when an earlier valued row has its key, and otherwise counts zero |
| Confirmations.Confirmations.Request | amos/src/state.rs:51-56 | a fresh channel is registered under the new id |
| Confirmations.Confirmations.Resolve | amos/src/state.rs:60-65 | the entry is removed and its receiver told, and the result says whether anyone listened |
| Confirmations.Confirmations.Forget | amos/src/state.rs:68-70 | the entry is removed and no channel changes |
| Confirmations.OneShot.Send | amos/src/state.rs:62 | a value arrives exactly when the receiver still listens |
| Confirmations.ResolveTwice | amos/src/state.rs:58-65 | a second click reaches nobody and changes nothing |
| Confirmations.RequestThenResolve | amos/src/state.rs:51-65 | a fresh request takes one click, and other requests are untouched |
| ConfirmGate.InvHolds | amos/src/scope.rs:91-135 | every reachable state keeps the invariant relating calls, pending map, channels and log |
| ConfirmGate.InvStep | amos/src/scope.rs:201-238 | every action of calls, clicks and timeouts keeps it |
| ConfirmGateTheorems.OnlyApprovedCallsRun | amos/src/scope.rs:201-238 | whatever ran was in scope as it began, and a posting in an interactive session with the gate on ran only after its own id was approved while it waited |
| ConfirmGateTheorems.ScopesAsBegun | amos/src/scope.rs:206 | a call requires throughout the scopes it began with |
| ConfirmGateTheorems.OnlyPostingsAsk | amos/src/scope.rs:91-102 | only such postings ask, and only in scope |
| ConfirmGateTheorems.PostingAsks | amos/src/scope.rs:103-120 | such a posting can only ask, and then waits under a pending id |
| ConfirmGateTheorems.UngatedCallRuns | amos/src/scope.rs:208-223 | any other call in scope runs unasked with one audit entry |
| ConfirmGateTheorems.OutOfScopeIsDenied | amos/src/scope.rs:225-236 | a call out of scope can only be denied or dropped |
| ConfirmGateTheorems.DeclinedCallIsDenied | amos/src/scope.rs:120-128 | a waiting call that is declined is denied without running |
| ConfirmGateTheorems.DeniedForAReason | amos/src/scope.rs:120-134 | a call in scope is denied only after it was declined or timed out |
| ConfirmGateTheorems.DroppedInAnyPhase | amos/src/routes.rs:698-716 | a call can be dropped in any phase and then has exactly the verdict it had |
| ConfirmGateTheorems.ExecutionsInOrder | amos/src/scope.rs:212-226 | an execution is audited first and never follows its cancellation, timeout or denial |
| ConfirmGateTheorems.RefusedCallsNeverRun | amos/src/scope.rs:120-134 | a declined or timed-out call never runs, a cancelled one never afterwards |
| ConfirmGateTheorems.ExecutionsAtMostApprovals | amos/src/scope.rs:103-134 | gated executions are at most as many as approvals, and each execution and each effective click happens once |
| ConfirmGateTheorems.AuditedExactly | amos/src/scope.rs:206-231 | a call that ended has a verdict in the audit trail if and only if it was not cancelled in a phase before the entry |
| ConfirmGateTheorems.ReturnedCallsAreAudited | amos/src/scope.rs:206-231 | each verdict occurs once, no call gets both, and a call that returned has the one for what it did |
| ConfirmGateTheorems.PendingExactly | amos/src/state.rs:49-71 | an entry is pending exactly until a click takes it or its call forgets it |
| ConfirmGateTheorems.SenderOutlivesWait | amos/src/scope.rs:120-129 | a waiting call with no answer still has its sender in the map |
| ConfirmGateTheorems.CancelledWaitLeaksAndIsUnaudited | amos/src/routes.rs:689-716 | a call cancelled while waiting leaves its entry until someone clicks it, and no verdict, whatever follows |
| ConfirmGateTheorems.ApprovedCallCanRun | amos/src/routes.rs:575-583 | from any reachable state an approved waiting call can go on to run |
| ConfirmGateTheorems.ApprovalCanBeTooLate | amos/src/scope.rs:120-134 | from any reachable state with an unanswered wait, an approval that reaches it can be followed by its timeout, forgetting and denial |
| GateTimeouts.UnansweredExactly | amos/src/routes.rs:698-716 | an unanswered call is refused and audited if and only if some poll comes after both deadlines, none between, and the rest waits for nothing; it stays open until a poll past the first |
| GateTimeouts.AnsweredExactly | amos/src/scope.rs:120-121 | a click is received if and only if the poll that finds it is at the latest the first from the dispatcher's deadline on |
| GateTimeouts.SurelyDroppedExactly | amos/src/routes.rs:698-716 | however it is polled, an unanswered call is dropped unaudited if and only if polls are prompter than the deadlines are apart or the rest must wait |
| Scheduler.Ops.SetPaused | amos/src/ops.rs:154-167 | pausing and resuming change that name only; unknown names are refused |
| Scheduler.Ops.RunNow | amos/src/ops.rs:307-327 | the name joins the running set exactly when it is known and not there |
| Scheduler.Ops.Finish | amos/src/ops.rs:328-331 | afterwards that routine would be started, and every other name would be answered as before |
| Scheduler.Ops.Tick | amos/src/ops.rs:285-297 | the verdict for each routine in turn, given the window, the paused set and the triggers before it |
| Scheduler.SkipConcurrency | amos/src/ops.rs:307-332 | in every reachable state a name is in the running set exactly when one run holds it |
| Scheduler.NeverTwiceAtOnce | amos/src/ops.rs:307-332 | no interleaving of triggers gives two concurrent runs of a routine |
| Scheduler.TriggerStartsExactly | amos/src/ops.rs:307-332 | a trigger starts its routine if it is known and nothing holds its name, and changes nothing otherwise |
| Scheduler.CompletionFrees | amos/src/ops.rs:328-331 | a run that completes makes its routine startable again |
| Scheduler.PanicSticks | amos/src/ops.rs:328-331 | a panicked run keeps its routine refused through any further actions |
| Scheduler.WindowsTile | amos/src/ops.rs:280-300 | each completed window starts where the one before ended, with a verdict per routine that its window and paused set account for |
| Scheduler.ExactlyOneWindow | amos/src/ops.rs:280-300 | every moment up to the last tick lies in exactly one window |
| Scheduler.PausesExactly | amos/src/ops.rs:154-167 | each tick has a window of its own whose paused set is exactly the known names paused before it began and not resumed by then |
| Scheduler.PausedAreNotFired | amos/src/ops.rs:289 | an enabled routine is passed over by exactly the ticks that begin while it is paused, and none of them fires it |
| Scheduler.FiresAreInjective | amos/src/ops.rs:287-297 | each cron fire answers the first occurrence in its window, and no other window contains it |
| Scheduler.OccurrenceAccounted | amos/src/ops.rs:287-297 | each past occurrence was answered, or its routine was disabled, paused or running at that tick, or an earlier occurrence there was answered |
| Scheduler.FiresUnlessHeld | amos/src/ops.rs:291-294 | a due, enabled, unpaused routine is fired, unless a run holds its name, in which case it is skipped |
| Report.Collect | amos/src/ops.rs:495-509 | the loop returns the text gathered from the last calling event on |
| Report.PartByPart | amos/src/ops.rs:495-509 | what each further part does to the report: a text is added, a call leaves only its own event's text, others count for nothing |
| Report.ReportSplits | amos/src/ops.rs:489-509 | that is the text after the last call, preceded by what its event said before it |
| Report.ReportIsAfterLastCall | amos/src/ops.rs:489-494 | so it is only the text after the last call if and only if that event said nothing before it |
| Transcript.TextDecodesBack | amos/src/routes.rs:446-469 | the encoding used for the buffer can be decoded back |
| Transcript.WindowAbsorbs | amos/src/routes.rs:456-467 | cutting before appending keeps what cutting at the end would keep |
| Transcript.WindowFits | amos/src/routes.rs:459-467 | the kept suffix fits the cap and wastes at most three bytes |
| Transcript.WindowIsLongest | amos/src/routes.rs:459-467 | no longer suffix of whole characters fits |
| Transcript.BoundaryIsWindow | amos/src/routes.rs:460-466 | the first character boundary at or after the overflow is where that suffix starts |
| Transcript.CutPoint | amos/src/routes.rs:462-465 | the loop stops at that boundary |
| Transcript.Rolling.Scribe | amos/src/routes.rs:453-468 | after every call the buffer is the longest fitting suffix of the whole tagged log |
| Transcript.KeptFromFirstBoundary | amos/src/routes.rs:446-468 | that is the log's bytes from the first boundary at or after length minus the cap, at most three further |
| Transcript.VoicesAreTagged | amos/src/routes.rs:454-459 | a new voice is tagged as owner or amos by who speaks, the same voice goes on untagged |
| RateLimit.Limiter.IsRateLimited | zavora-erp-api/src/middleware/rate_limit.rs:39-60 | the new map and the decision, cleanup included; a maximum of zero disables it |
| RateLimit.LagIsDelay | zavora-erp-api/src/middleware/rate_limit.rs:45-46 | readings lag by at most d in lock order if and only if every request can have entered within d of its reading, on a clock that does not go back |
| RateLimit.CleanedExactly | zavora-erp-api/src/middleware/rate_limit.rs:48-51 | another address's entry goes exactly when more than 10,000 are held and it is over |
| RateLimit.FewAddressesNeverClean | zavora-erp-api/src/middleware/rate_limit.rs:48-51 | a run of at most 10,000 addresses leaves the map it would leave without the cleanup |
| RateLimit.MapMatchesSolo | zavora-erp-api/src/middleware/rate_limit.rs:53-59 | without the cleanup the shared map holds for each address what its own requests alone would have left, whatever the readings |
| RateLimit.DecisionIsOwn | zavora-erp-api/src/middleware/rate_limit.rs:45-59 | with few addresses, empty windows or readings in order, a decision depends on the address's own requests alone |
| RateReach.OwnDecisionExactly | zavora-erp-api/src/middleware/rate_limit.rs:45-59 | it does so on every run with lag d if and only if d is zero or windows are empty |
| RateReach.CleanupInvisibleExactly | zavora-erp-api/src/middleware/rate_limit.rs:48-51 | with and without the cleanup every request of every run with lag d gets the same decision if and only if d is zero or windows are empty |
| RateBound.AdmittedWithin | zavora-erp-api/src/middleware/rate_limit.rs:39-60 | over any run with lag d an address gets at most `Most` requests through in any half-open window length |
| RateReach.AdmittedExactly | zavora-erp-api/src/middleware/rate_limit.rs:39-60 | a limit of n is sure for every run with lag d, shorter than a window, if and only if n is at least `Most` |
| RateReach.FewAdmittedExactly | zavora-erp-api/src/middleware/rate_limit.rs:39-60 | so it is at any lag on runs of too few addresses for a cleanup, with the smaller `Most` of those |
| RateReach.TwiceMaxExactly | zavora-erp-api/src/middleware/rate_limit.rs:39-60 | 2*max - 1 is sure if and only if there is no lag, or, with few addresses, a lag of at most one tick or a maximum of one |
| RateReach.ThriceMaxExactly | zavora-erp-api/src/middleware/rate_limit.rs:39-60 | with few addresses and a lag of two ticks up to a window and one, exactly the limits from 3*max - 2 on are sure |
| RateReach.NoLimit | zavora-erp-api/src/middleware/rate_limit.rs:48-57 | at a lag of a window or more and with the cleanup no number of admissions in one window length is a limit |
| RetryAfter.RetryAfterExactly | zavora-erp-api/src/middleware/rate_limit.rs:68-75 | at any lag, a request sent `wait` after a refusal is sure to pass if and only if windows are empty, or wait is at least a window and fewer than max others of the address came in between |
| SignupBudget.RetryAfterReachesNextBucket | zavora-erp-api/src/routes/auth_signup.rs:65-69 | waiting out Retry-After leads into the next window and no earlier moment does |
| SignupBudget.KeysAreDistinct | zavora-erp-api/src/routes/auth_signup.rs:58-63 | different clients or windows never share a counter |
| SignupBudget.Store.Record | zavora-erp-api/src/routes/auth_signup.rs:96-118 | the current counter grows by one, gets its expiry on the first success, and no other changes |
| SignupBudget.InvHolds | zavora-erp-api/src/routes/auth_signup.rs:278-361 | every reachable state keeps counters faithful and the successes recorded plus those still possible within max - 1 + k |
| SignupBudget.BudgetUnderConcurrency | zavora-erp-api/src/routes/auth_signup.rs:278-361 | with at most k signups in flight a window records at most max - 1 + k successes |
| SignupBudget.CounterOutlivesBucket | zavora-erp-api/src/routes/auth_signup.rs:107-117 | a counter cannot expire before its window ends: checks read every success recorded |
| SignupBudget.RefusedExactlyWhenSpent | zavora-erp-api/src/routes/auth_signup.rs:77-90 | in every reachable state a check refuses exactly when its window, while it lasts, has recorded the maximum, and a late one only if it had |
| SignupBudget.OnlySuccessesCount | zavora-erp-api/src/routes/auth_signup.rs:281-361 | each provisioned signup counts once and nothing else does |
| SignupBudget.CountersExpire | zavora-erp-api/src/routes/auth_signup.rs:96-118 | unless a request is dropped between the increment and the expiry, every counter has an expiry, at most a window ahead, or a request about to set one |
| SignupBudget.LostExpiryStays | zavora-erp-api/src/routes/auth_signup.rs:96-118 | a counter left without one stays so through any further actions |
| SignupBudget.ExpiryCanBeLost | zavora-erp-api/src/routes/auth_signup.rs:96-118 | a run that leaves one |
| SignupBudget.OvershootIsReached | zavora-erp-api/src/routes/auth_signup.rs:278-361 | k signups that all check before any records reach max - 1 + k |
| SignupBudget.BudgetExactly | zavora-erp-api/src/routes/auth_signup.rs:278-361 | with up to k signups in flight, n successes a window are a sure limit if and only if n is at least max - 1 + k |
| Replay.ApplyFifo | scripts/migrate/stage3_replay.py:154-161 | the in-place loop leaves each document less its share, and lists the non-zero shares in order |
| Replay.FifoConserves | scripts/migrate/stage3_replay.py:154-161 | the applications sum to the payment or to all that is open, and so much less stays open |
| Replay.ApplicationsInOrder | scripts/migrate/stage3_replay.py:154-161 | the applications name documents in order, each at most once, each for its positive share |
| Replay.OldestFirst | scripts/migrate/stage3_replay.py:154-161 | no balance goes negative and every open document before a paid one is paid off |
| Replay.PaymentsBatch | scripts/migrate/stage3_replay.py:154-161 | two payments in turn leave what one of their sum leaves |
| Replay.Run.PostJournal | scripts/migrate/stage3_replay.py:101-117 | what is skipped exactly; a journal that is sent balances, has two lines or more, touches no control account unless the plug is one, and is the input plus at most the plug |
| Replay.BuildLines | scripts/migrate/stage3_replay.py:306-313 | the loop builds the lines of the resolved entries |
| Replay.LinesAreOneSided | scripts/migrate/stage3_replay.py:84-92 | every built line has at most one side and none is negative |
| Replay.KeptHaveAmounts | scripts/migrate/stage3_replay.py:102 | no kept line is empty |
| Replay.ExcessIsSigned | scripts/migrate/stage3_replay.py:84-92 | debits less credits is the transaction's signed sum less that of its unresolved entries |
| Replay.ExcessPerAccount | scripts/migrate/stage3_replay.py:84-92 | each account is debited, net, its own signed amounts, and no line is without a code |
| Replay.PlugIsUnresolved | scripts/migrate/stage3_replay.py:110-114 | a transaction that meets the accounting equation is plugged by what its unresolved accounts held |
| ExpandEnv.Expand | amos/src/config.rs:40-63 | the scanner loop renders the text's tokens |
| ExpandEnv.TokensSpellText | amos/src/config.rs:43-58 | reading loses nothing: the tokens spell the text |
| ExpandEnv.NoPlaceholderIsKept | amos/src/config.rs:43 | text without an opening is unchanged |
| ExpandEnv.UnclosedIsKept | amos/src/config.rs:54-57 | an unterminated tail is kept verbatim |
| ExpandEnv.ValueIsNotRescanned | amos/src/config.rs:47-53 | a value is inserted as it is, whatever placeholders it spells |
| ExpandEnv.PlaceholderByCases | amos/src/config.rs:47-53 | a placeholder yields the environment's value, else the default, else nothing |
| ExpandEnv.SeamExactly | amos/src/config.rs:40-63 | expanding two texts apart is expanding them joined, for every environment, if and only if no placeholder straddles the seam |

## Left out

- ExpandEnv.SeamExactly: the environment and defaults are finite maps; a name the operating system rejects is simply absent.
- Journal.PostedBalances: period status and entry numbering are not modelled.
- Bills.BuildLines: a failed query of the bill's lines counts as no lines (bills.rs:131), which sends the whole subtotal to the default expense account; here the lines are what the query gives.
- Bills.Bill.Post: account groups and the fiscal period are resolved beforehand and passed in; dimensions and descriptions are dropped.
- OpeningBalances.BuildEntry: currency and rate are the base currency and one, as the code fixes them; duplicate openings are not prevented by it.
- Consolidation.TrialBalance: exchange rates, and which invoices and bills count by status and date, are parameters; amounts of documents in a currency other than their entity's are not told apart; a failed query, which the code takes for an empty or zero result, is one; account names and the JSON shape are dropped.
- CustomReport.Run: the ledger query is a sum over postings with account codes in a range under an arbitrary order; a failed query, which the code counts as zero, is not modelled.
- ConfirmGate.InvHolds: timeouts may fire at any moment, so no fact depends on their 120 seconds, which `GateTimeouts` is about; ids are never reused; with the gate's switch off only the scope theorems say anything.
- Scheduler.WindowsTile: the clock does not go back between ticks, and a schedule is an arbitrary set of moments, an unparsable one the empty set.
- RateBound.AdmittedWithin: the clock has ticks and the maximum and window do not change during a run; counters do not overflow.
- SignupBudget.BudgetUnderConcurrency: the store is up throughout and keeps time with the servers; a success whose request is dropped before it is recorded is not counted, as in the code.
- Replay.ApplyFifo: amounts are whole cents, so the script's floating-point drift and its half-cent thresholds are exact comparisons with zero.
- Decimal's 96-bit range, integer overflow, UUID collisions and panics outside a routine's run.
- All SQL, Redis and WebSocket traffic, JSON responses, authentication, the language model and its providers.
- Tools' own effects: an execution is one event.
- The services that use the poster (invoices, payments, payroll, inventory, depreciation, leave, revaluation): each would repeat what `Journal` and `Ledger` prove of any entry.
- Route permissions, plan entitlements, enum codecs, pagination, CRM and catalogue records: finite or one-branch facts.
- The product matching and party lookup of the migration script, and its other stages.
