# Juno wallet: ledger, planner and container codec, verified

A Dafny model of the four parts of the wallet whose correctness is hard to see from one function:

1. **The deposit ledger and its sync protocol.** `Ledger.dfy` gives the SQLite tables as maps and each
   transaction as a function from committed tables to committed tables; a transaction that fails returns only
   its error. `Database.dfy` is the store as a class whose fields are those tables and whose methods overwrite
   them, each proved against the function of the same name. `Sync.dfy` is one `syncWallet` run, `Replay.dfy` a
   run that failed and is repeated, `Protocol.dfy` any number of runs in several processes
   (internal/cli/daemon.go:284-304, internal/cli/balances.go:64-67, internal/cli/account.go:308-309)
   interleaved with each other and with the store's other transactions, `RunInvariant.dfy` what every action
   keeps, `Convergence.dfy` what such interleavings leave in the table, `Schedules.dfy` interleavings built on
   purpose, `Limits.dfy` two concrete runs from an empty store that show why the results need their conditions.
2. **The address index allocator** (`AddressBook.dfy`), on which the ledger's attribution rests.
3. **The transaction planner.** `Notes.dfy` sorts, `Selection.dfy` is greedy coin selection, `Sweep.dfy` and
   `Split.dfy` the balanced split and its cost, `Planner.dfy` and `Send.dfy` the plans built from them,
   `ColdMax.dfy` the second computation of what can be sent.
4. **The ZIP 316 container codec.** `CompactSize.dfy` and `Zip316.dfy`, after ZIP 316, section "Encoding of
   Unified Addresses", with the outer Bech32m string of BIP 350.

`Basics.dfy` holds results, the fixed integer widths with their wrapping additions, and sums.

Main results: conservation of every balance over all runs; for every reachable state of interleaved syncers,
exactly when a row holds its last event, and which stopped runs are harmless in every schedule; exactly when a
run or a replay is refused, and that a replay otherwise ends in the tables of one run; the address book's
invariant over all runs; exactly when coin selection is complete and minimal, and its order independence; fee
optimality of the split over all partitions; conservation of a whole sweep; the exact condition under which the
reported maximum is the largest payable amount; decode after encode, and encode after decode exactly for
minimal encodings.

What was found on the way:

- A run that has stopped can leave a wrong row behind for good: with the log [detected, confirmed],
  `Limits.StoppedRunUndoesConfirmation` reaches a state whose row says "detected" and whose cursor is past both
  events, and no continuation changes the row before a new event of it is appended. The exact condition is in
  `Convergence.SettledRowIff`: with no run in flight, a row holds its last event unless its last writer is a
  stopped run whose last event of that row says something else. `Convergence.SyncersConverge` needs only that no
  stopped run is of that kind, which its start and stop positions and the log decide;
  `Schedules.StopHarmlessIff` shows that the condition cannot be relaxed: wherever it fails and no event is
  refused on the way, some schedule leaves the row wrong for good.
- A replay can be refused with a negative balance although one uninterrupted pass succeeds, once an account has
  spent what the replay takes back for a moment (`Limits.ReplayCanBeRefused`, reached from an empty store).
  `Replay.FeedRefusedIff` says exactly when a run is refused, from rows and withdrawals alone, and
  `Replay.RefusedReplay` that a refused replay lacks room for a credit or takes back from an account that has
  withdrawn.
- `coldMaxSendable` can report less than the selector pays: 0 when the values it adds up exceed int64, or too
  little when it leaves out a note beyond the 200th that pays its own fee or counts one that does not.
  `ColdMax.LargerRefusedIff` gives the exact condition for every wallet.
- The selector's running total is not checked and can wrap (`Selection.SelectCanWrap`).
  `Selection.SelectCompleteMinimalIff`: selection is complete and minimal exactly when the first prefix of the
  sorted notes that pays has a value below 2^64, in particular for every wallet whose sum fits uint64.
- `decode_zip316_bech32m` slices 16 bytes of padding by the length of the expected HRP; `Zip316.PanicsIff` says
  exactly when that panics.

Beside the laws over runs, each transaction, event, listing and encoding is pinned field by field, in the input's
own fields and in figures: what a deposit writes and to whom it belongs, what an event turns into, which address is
handed out, which raw note a listed note is, what a fee is, which bytes are written.

Reading notes. The empty account id stands for a NULL account column. Wallet ids and txids are taken as
already trimmed and lower-cased; the lower-casing of a looked-up recipient address is modelled, since what is
stored is not lower-cased. Random ids are parameters, and a clash is an error. The store's methods ask only
that balances are not negative; the invariants of whole runs are proved about the functions that the methods
are proved to follow. In the protocol the owner lookup and the transaction are two actions, because the code
looks the owner up before the transaction begins. Log positions stand for event ids.

## Model

| member | source | states |
|---|---|---|
| Ledger.MoveCreditExact | internal/store/deposits.go:368-413 | the legs of a deposit change each balance by exactly its part of the old and new credit and leave none negative |
| Ledger.ApplyTxKeepsLedger | internal/store/deposits.go:314-418 | applying an event, with whatever account was looked up before, keeps every balance equal to confirmed deposits minus withdrawals and at least 0 |
| Ledger.ApplyDepositKeepsLedger | internal/store/deposits.go:271-419 | the same with the lookup included |
| Ledger.CreateAccountKeepsLedger | internal/store/store.go:147-178 | a new account keeps the ledger conserved |
| Ledger.WithdrawKeepsLedger | internal/store/withdrawals.go:31-93 | a withdrawal takes amount plus fee from its account and keeps the ledger conserved |
| Ledger.BalancesDetermined | internal/store/deposits.go:368-418 | two reachable ledgers with the same accounts, deposits and withdrawals have the same balances |
| Ledger.DebitRefusedIff | internal/store/deposits.go:379-412 | the debit leg fails exactly when the account's withdrawals exceed its other confirmed deposits |
| Ledger.NoWithdrawalNoRefusal | internal/store/deposits.go:379-412 | an account without withdrawals never has a debit refused |
| Ledger.RefusedSpent | internal/store/deposits.go:379-412 | the account a refused debit would take from has withdrawn |
| Ledger.ApplyRefusedIff | internal/store/deposits.go:368-438 | a deposit transaction is refused exactly when its debit leg is, or the credited account does not exist, or its new balance exceeds int64 |
| Ledger.DepositFields | internal/store/deposits.go:279-366 | a successful deposit writes diversifier, amount, height, status and confirmed height of its own row, and no other row or table but balances |
| Ledger.DepositBalances | internal/store/deposits.go:368-413 | every balance moves by what the row gives the account now less what it gave before, where only confirmed rows of that account give their amount |
| Ledger.DepositInvalidIff | internal/store/deposits.go:279-294 | a request is invalid exactly for an empty wallet or txid, an amount of 0 or less, or a negative height |
| Ledger.WithdrawFields | internal/store/withdrawals.go:63-92 | the withdrawal is recorded as asked and takes amount plus fee from its own account alone |
| Ledger.WithdrawErrors | internal/store/withdrawals.go:38-79 | which refusal a withdrawal meets: the first that applies |
| Ledger.AccountFields | internal/store/store.go:147-178 | a new account has balance 0 and nothing else changes |
| Ledger.LowerEach | internal/store/deposits.go:296-296 | lower-casing changes only upper-case ASCII letters, each by 32 |
| Ledger.FirstRowAt | internal/store/deposits.go:197-229 | a query is answered by the row inserted first |
| Database.ApplyDeltaExact | internal/store/deposits.go:421-438 | the wrapping sum is negative exactly when the true sum is negative or exceeds int64, so the one check catches both |
| Database.LegsMoveCredit | internal/store/deposits.go:404-413 | the delta loop replaces the old credit by the new one and reports the difference |
| Database.DeltasFor | internal/store/deposits.go:368-402 | the three-way switch yields one leg per credit that goes away and per credit that arrives, and none for an unchanged credit |
| Database.RunDeltas | internal/store/deposits.go:404-413 | the loop applies the legs in order, stops at the first failure, and its wrapping sum is exact |
| Database.DepositTx | internal/store/deposits.go:314-418 | what the transaction writes to deposits and balances and what it reports |
| Database.ReportFields | internal/store/deposits.go:404-418 | the report names the row's account, and what the row adds to balances now less what it added before |
| Database.Store.CreateAccount | internal/store/store.go:147-178 | inserts the account and its zero balance, or changes nothing |
| Database.Store.UpsertWallet | internal/store/store.go:198-221 | inserts at index 0 or replaces key and path only |
| Database.Store.GetOrAssignDepositAddress | internal/store/store.go:328-404 | the stored address, or the next index's address with the counter advanced, or an error and no change |
| Database.Store.NextInternalAddress | internal/store/wallet_indices.go:10-59 | hands out the address derived at the counter's old value and advances the counter by one, or changes nothing |
| Database.Store.GetScanCursor | internal/store/deposits.go:231-251 | the saved cursor, created at 0 when missing |
| Database.Store.SetScanCursor | internal/store/deposits.go:253-269 | overwrites the cursor, also with a smaller one; refuses negatives |
| Database.Store.ApplyDeposit | internal/store/deposits.go:271-419 | new tables and reported delta after one event, all or nothing |
| Database.Store.ApplyInTransaction | internal/store/deposits.go:314-418 | the transaction alone, for any account looked up before it |
| Database.Store.CreateWithdrawalAndDebit | internal/store/withdrawals.go:31-93 | debits amount plus fee and records the withdrawal, all or nothing; a wrapped sum is caught as smaller than the amount |
| AddressBook.UpsertKeepsBook | internal/store/store.go:213-219 | re-running UpsertWallet resets no index |
| AddressBook.UpsertFields | internal/store/store.go:198-221 | the wallet gets the given key and path; a new one starts at index 0, an old one keeps its indices |
| AddressBook.FirstRequestFields | internal/store/store.go:361-404 | an account's first request gets the address derived at the external counter's old value, in a new row with that index, and the counter moves up by one |
| AddressBook.FirstRequestErrors | internal/store/store.go:333-389 | which problem a first request meets first |
| AddressBook.IndexTaken | internal/store/store.go:392-394 | an index already held in the wallet is refused by the table's key |
| AddressBook.LaterRequestFields | internal/store/store.go:346-351 | a later request returns the stored address and changes nothing |
| AddressBook.InternalFields | internal/store/wallet_indices.go:10-59 | succeeds exactly when the wallet exists and derivation at the old counter works; hands that address out and moves the counter up by one |
| AddressBook.InternalErrors | internal/store/wallet_indices.go:10-59 | which problem it meets first |
| AddressBook.OwnerByAddress | internal/store/deposits.go:296-304 | a deposit with a recipient belongs to the account of the first row with its wallet and the lower-cased address, else to nobody |
| AddressBook.EmptyMapping | internal/store/deposits.go:197-229 | a mapping without an account refuses the deposit, and no reachable book has one |
| AddressBook.OwnerByIndex | internal/store/deposits.go:305-338 | without a recipient it keeps the stored account, else belongs to the holder of its diversifier index in its wallet, else to nobody |
| AddressBook.AssignKeepsBook | internal/store/store.go:353-401 | in a reachable state an assignment succeeds exactly when an index is left and derivation works, and indices stay exactly 0 to the counter, each held once |
| AddressBook.RepeatedRequestsAgree | internal/store/store.go:328-404 | a second request returns the first one's address and changes nothing, whatever would be derived then |
| AddressBook.IndexLookupInverts | internal/store/deposits.go:167-195 | the lookup by diversifier index names the account that holds the index |
| AddressBook.AddressLookupInvertsIff | internal/store/deposits.go:197-229 | the lookup by address names every holder exactly when the stored addresses are lower-case, non-empty and distinct |
| AddressBook.LookupsAgree | internal/store/deposits.go:167-229 | with lower-case derivations that differ for different indices, under one key or several, both lookups invert the assignment |
| Sync.ApplyEvent | internal/cli/sync.go:97-154 | one event's effect on tables, counters and error |
| Sync.EventFields | internal/cli/sync.go:97-154 | a successful deposit event changes only the row at its wallet, txid and action index, which says what the event says, with amounts cut at the largest int64 |
| Sync.EventsApart | internal/cli/sync.go:97-154 | events of different outputs write different rows |
| Sync.EventCounters | internal/cli/sync.go:98-150 | every event counts; a confirmation's gain counts as credits, an unconfirmation's or orphaning's loss as debits |
| Sync.EventFailures | internal/cli/sync.go:101-146 | what stops a run leaves the tables as they were |
| Sync.ApplyPage | internal/cli/sync.go:97-154 | a page is the fold of its events up to the first failure |
| Sync.Drain | internal/cli/sync.go:87-158 | the page loop applies exactly the log from the cursor on, or some prefix of it when it fails |
| Sync.SyncWallet | internal/cli/sync.go:80-166 | a run that succeeds applied the whole log from the saved cursor and saved its end; a run that fails applied a prefix and saved nothing |
| Sync.FeedConcat | internal/cli/sync.go:86-158 | page boundaries do not matter |
| Sync.FeedKeepsLedger | internal/cli/sync.go:86-158 | every run, also one that fails, keeps the ledger conserved and touches only deposits and balances |
| Sync.SyncRunsAreOnePass | internal/cli/sync.go:80-166 | any number of error-free runs leaves what one pass over the log up to the saved cursor gives |
| Replay.FeedRow | internal/store/deposits.go:296-366 | after a log each row holds its last event's fields and the owner carried through the log |
| Replay.OwnerReplay | internal/store/deposits.go:335-338 | applying a prefix and then the whole gives the owner that the whole gives, fallback to the stored owner included |
| Replay.FeedRefusedIff | internal/cli/sync.go:86-158 | a run fails exactly when, on the rows the events before it leave, some event is bad, takes back more than the account kept, or credits a missing account or beyond int64 |
| Replay.ReplayAfterFailure | internal/cli/sync.go:80-166 | when one uninterrupted run is not refused, a run stopped before saving and then a run over the whole log succeed exactly when no event is refused on the rows the stopped run left, and then end in the tables of the uninterrupted run |
| Replay.RefusedReplay | internal/store/deposits.go:379-438 | a replay that is refused although one run is not lacks room for a credit, or takes back from an account that has withdrawn |
| Protocol.LedgerStep | internal/store/deposits.go:271-438 | every action of the interleaved system keeps the ledger conserved |
| Protocol.BookStep | internal/store/store.go:328-404 | every action keeps the allocator's invariant |
| Protocol.TablesReachable | internal/store/deposits.go:368-438 | conservation and the allocator's invariant in every reachable state of any interleaving |
| Protocol.InternalsOnce | internal/store/wallet_indices.go:10-59 | over all runs the internal indices handed out in a wallet are 0, 1, 2, ... with none repeated |
| Protocol.HandedOnce | internal/store/wallet_indices.go:10-59 | over all runs the internal addresses handed out in a wallet are all different, the n-th derived at index n, when the keys used keep indices apart |
| Protocol.AddressKept | internal/store/store.go:328-404 | once an account has an address it is returned again after any run |
| Protocol.LookupsInvertEverywhere | internal/store/deposits.go:167-229 | both lookups name the holder of every address in every reachable state, also after the wallet's key was replaced |
| RunInvariant.SyncStep | internal/cli/sync.go:80-166 | every action keeps: no event before the furthest position unhandled or without its row, each row the event of its last writer, and every newer event of it still ahead of that writer |
| Convergence.NoEventSkipped | internal/cli/sync.go:81-160 | in every reachable state every event before a stored cursor was handled, and every deposit event there has its row |
| Convergence.RowHoldsLastIff | internal/cli/sync.go:80-166 | in every reachable state a row exists exactly when an event of it was passed, and holds its last event exactly when the last event of it that its last writer handled says the same |
| Convergence.SettledRowIff | internal/cli/sync.go:80-166 | with no run in flight a row holds its last event exactly when its last writer is not a stopped run whose last event of the row says something else |
| Convergence.SyncersConverge | internal/cli/sync.go:80-166 | with no run in flight and no stopped run whose last event of the row says something else, each row holds the last event of its key up to the furthest position, with its looked-up owner when the address was assigned before the runs or none is assigned |
| Convergence.InterleavingsAgree | internal/cli/sync.go:80-166 | two interleavings over the same logs end in the same rows and, with equal accounts and withdrawals, the same balances, also with stopped runs that differ on no row's last event |
| Convergence.RowStays | internal/cli/sync.go:80-166 | a row whose events lie before the cursor and before every run in flight stays as it is, right or wrong, in every continuation until a new event of it is appended |
| Schedules.LookupThenCommit | internal/store/deposits.go:296-418 | lookup and transaction without interruption are ApplyDeposit |
| Schedules.RunThrough | internal/cli/sync.go:86-158 | a run left alone reaches any later position and leaves what the fold of the events leaves |
| Schedules.StopUndoes | internal/cli/sync.go:80-166 | for every log and every span of a stopped run that could undo a row, a schedule in which it does, for good |
| Schedules.StopHarmlessIff | internal/cli/sync.go:80-166 | runs stopped at one place are harmless to a row in every schedule exactly when the row's last event among those they handled says what its last event says |
| Limits.StoppedRunUndoesConfirmation | internal/cli/sync.go:80-166 | from an empty store, a row behind the log with the cursor past its events, in that state and in every continuation without a new event of it |
| Limits.ReplayCanBeRefused | internal/store/deposits.go:421-438 | from an empty store, a state in which one pass over the unread events succeeds and a replay of them is refused with a negative balance |
| Sorting.SortSlice | internal/txplan/logic.go:30-38 | the array is rearranged into an order without inversions |
| Notes.NoteOrder | internal/txplan/logic.go:30-38 | the comparison is a total order, so the sorted list is unique |
| Notes.StrLeIff | internal/txplan/logic.go:34-36 | strings are compared at the first character that differs, a prefix coming first |
| Notes.NoteLeIff | internal/txplan/logic.go:30-38 | larger values first, then the smaller txid, then the smaller action index |
| Notes.FrontIsBest | internal/txplan/logic.go:40-43 | no notes are worth more than as many from the front of the sorted list |
| Selection.FeeExact | internal/txplan/logic.go:14-27 | the fee is 5000 per action when the product fits, and the overflow test does not misfire |
| Selection.RequiredFee | internal/txplan/logic.go:14-27 | the fee is the most of 5000 per spend, 5000 per output and 10000, modulo 2^64, and refused exactly when less than 5000 is left |
| Selection.AcceptsFigures | internal/txplan/logic.go:46-65 | the acceptance test in figures: above the need, or equal to it when the change output is free |
| Selection.SelectNotes | internal/txplan/logic.go:29-68 | sorts its argument in place and returns what the greedy rule with wrapping total returns |
| Selection.ChooseFirst | internal/txplan/logic.go:40-66 | the loop returns the first prefix that passes the acceptance test exactly when its value fits uint64, otherwise a longer one or none |
| Selection.ChooseNever | internal/txplan/logic.go:40-66 | when no prefix passes the loop refuses |
| Selection.SelectionIsSubset | internal/txplan/logic.go:29-68 | even with wrapping, only offered notes are selected, none more often than offered |
| Selection.SelectionPays | internal/txplan/logic.go:40-66 | what is selected covers amount, fee and change of at least 0 even if the total wrapped, and it never wrapped exactly when the first prefix that passes fits |
| Selection.SelectCompleteMinimalIff | internal/txplan/logic.go:29-68 | selection succeeds exactly when some subset passes the acceptance test, and returns no more notes than any that does, exactly when the first prefix that passes has a value below 2^64 |
| Selection.FirstPaysIff | internal/txplan/logic.go:29-68 | the first prefix that passes is what selection returns, with its fee, under exactly that condition |
| Selection.SumFitsSuffices | internal/txplan/logic.go:43-43 | the condition holds of every wallet whose sum fits uint64 |
| Selection.RoomSuffices | internal/txplan/logic.go:40-66 | the condition holds when amount, the fee for all notes and the largest note fit uint64 together |
| Selection.SelectOrderIndependent | internal/txplan/logic.go:30-38 | every permutation of the input gives the same list and fee |
| Selection.SelectCanWrap | internal/txplan/logic.go:43-43 | an amount that three notes of one transaction pay is refused because the total wrapped |
| Sweep.DealBalance | internal/txplan/sweep_many.go:37-41 | two chunks of a deal differ by at most one note and by at most one first note's value, the earlier holding more |
| Sweep.DealNext | internal/txplan/sweep_many.go:38-41 | giving note i to chunk i mod k extends the deal |
| Sweep.DealtShape | internal/txplan/sweep_many.go:22-41 | every chunk holds between one and maxSpends notes |
| Split.FeesCount | internal/txplan/logic.go:14-27 | the fees of any partition are 5000 times its notes plus its single-note groups |
| Split.DealtSingles | internal/txplan/sweep_many.go:22-41 | a deal has a single-note chunk only for an odd number of notes under a cap of two, and then one |
| Split.DealIsCheapest | internal/txplan/sweep_many.go:14-75 | no partition into non-empty groups under the cap pays less |
| Split.OneGroupIsCheapest | internal/txplan/sweep_many.go:18-20 | when all notes fit one group nothing is cheaper than one group |
| Split.DealtBalanced | internal/txplan/sweep_many.go:27-41 | chunk values do not increase with the index and differ by at most the largest note |
| Split.BorrowOne | internal/txplan/sweep_many.go:44-71 | the first single chunk gets the last note of the first longest chunk when that keeps two, else nothing is left to borrow |
| Split.Borrow | internal/txplan/sweep_many.go:43-72 | ends from any chunks after such borrowings alone, with nothing left to borrow |
| Split.DealtSettled | internal/txplan/sweep_many.go:43-72 | the borrow loop makes no move after a deal |
| Split.SplitNotesBalanced | internal/txplan/sweep_many.go:14-75 | the round-robin deal of the sorted notes: a permutation in exactly ceil(n/maxSpends) chunks, sizes within one, values balanced, cheapest of all partitions |
| Planner.ListSpendableNotes | internal/txplan/builder.go:425-469 | the usable notes in order; fails exactly when a usable note's position exceeds uint32 |
| Planner.ListedPlaces | internal/txplan/builder.go:431-467 | the listed notes are exactly the raw notes that may be spent, in order, with their own txid, action index, height, position and value |
| Planner.PlaceableIff | internal/txplan/builder.go:457-459 | listing fails exactly when a note that may be spent has a position beyond uint32 |
| Planner.BuildPlanNotes | internal/txplan/builder.go:340-387 | each note with its own action and its own position's path; succeeds exactly when all answers are usable |
| Planner.ServedIff | internal/txplan/builder.go:343-387 | notes can be planned exactly when every action is on chain and the witness for their positions has a root, a 32-bit anchor height, one path per note and a path of 32 hashes for each position |
| Planner.PlannedFields | internal/txplan/builder.go:348-387 | a planned note has its note's txid, action index and position, its own action and its position's path |
| Planner.PathTable | internal/txplan/builder.go:376-379 | a later path of a position overwrites an earlier one |
| Planner.LastPath | internal/txplan/builder.go:376-379 | the path used is the one listed last for the position |
| Planner.PlannedCarried | internal/txplan/sweep_many.go:105-125 | every planned note carries the txid, action index and position of a note of the wallet |
| Planner.SumValues | internal/txplan/sweep_many.go:93-100 | the exact sum, or nothing exactly when it exceeds uint64 |
| Planner.PlanSweepWithNotes | internal/txplan/sweep_many.go:77-169 | plans exactly these notes with one positive output, output plus fee equal to their value; succeeds exactly when possible |
| Planner.ChunksConserveValue | internal/txplan/builder.go:240-256 | chunks that hold the notes hold their value |
| Planner.PlanChunks | internal/txplan/builder.go:242-256 | one plan per chunk in order, or the first failure |
| Planner.PlanSweepMany | internal/txplan/builder.go:178-258 | every listed note in exactly one plan, each plan under the cap with a positive output, outputs and fees sum to the value of all listed notes, total fee minimal; succeeds exactly when height and notes are usable and every chunk of the split can be planned |
| Send.FindNote | internal/txplan/builder.go:479-486 | the first note with the id, or none has it |
| Send.SelectedOnce | internal/txplan/builder.go:340-344 | with distinct ids a selection holds no note twice |
| Send.Join | internal/txplan/builder.go:340-354 | takes the first note with each selected id, and always finds one for notes selected from the wallet |
| Send.JoinIsExact | internal/txplan/builder.go:340-354 | with distinct ids the join recovers the one original of every selected note, value included, and no note twice |
| Send.AmountsEach | internal/txplan/builder.go:388-396 | the plan pays each output its own amount, and their sum is what the selection must cover |
| Send.PickedErrors | internal/txplan/builder.go:274-332 | which problem comes first: a missing recipient or amount, no notes, amounts beyond uint64 |
| Send.SelectAndJoin | internal/txplan/builder.go:333-354 | a refused selection is reported as insufficient funds; otherwise the originals and the selection's fee, never a missing note |
| Send.PlanSend | internal/txplan/builder.go:260-415 | the first error in order, or a plan that spends exactly the originals of the selected notes, pays the given outputs and carries the selection's fee |
| Send.SentNotesPay | internal/txplan/builder.go:260-415 | with distinct ids what such a plan spends are wallet notes, none twice, covering outputs, fee and change |
| ColdMax.ColdMaxSendable | internal/cli/cold_to_hot.go:187-261 | maximum, total and count of at most 200 notes in spending order |
| ColdMax.ReportFigures | internal/cli/cold_to_hot.go:233-260 | count, total and maximum in figures, all 0 when the sum exceeds int64 |
| ColdMax.MaxIsPayable | internal/cli/cold_to_hot.go:249-258 | every positive amount up to the maximum is selectable with one output |
| ColdMax.RefusesLarger | internal/cli/cold_to_hot.go:233-258 | every larger amount is refused when the last counted note pays its fee and the next does not |
| ColdMax.MaxIsLargestIff | internal/cli/cold_to_hot.go:233-258 | a positive maximum is the largest selectable amount exactly under that condition |
| ColdMax.LargerRefusedIff | internal/cli/cold_to_hot.go:233-258 | for every wallet no amount above the reported maximum is selectable exactly when the notes that pay their own fee do not send more than it |
| ColdMax.LargerRefusedIffSumFits | internal/cli/cold_to_hot.go:234-247 | for at most 200 notes of at least 5000 every larger amount is refused exactly when the sum fits int64 |
| ColdMax.FiltersAgreeIff | internal/cli/cold_to_hot.go:209-228 | the filter counts exactly what listSpendableNotes lists when no note it counts has a pending spend, and more otherwise |
| CompactSize.WriteCompactSize | rust/keys/src/zip316.rs:56-69 | appends the shortest encoding of the number |
| CompactSize.ReadCompactSize | rust/keys/src/zip316.rs:71-104 | reads the number at the front and stops just past it, or fails exactly on a short input |
| CompactSize.EncodeBytes | rust/keys/src/zip316.rs:56-69 | the bytes written for every number: tag and low byte first |
| CompactSize.DecodeBytes | rust/keys/src/zip316.rs:71-104 | what every tag announces, minimal or not, and when the input is too short |
| CompactSize.SelfDelimiting | rust/keys/src/zip316.rs:56-104 | reading an encoding followed by anything gives the number back and leaves the rest |
| CompactSize.ReencodeIffMinimal | rust/keys/src/zip316.rs:56-104 | writing back what was read gives the same bytes exactly when they were minimal, and never more bytes |
| Zip316.ItemRoundTrip | rust/keys/src/zip316.rs:155-159 | an encoded item followed by anything decodes to the item and the rest |
| Zip316.ItemParts | rust/keys/src/zip316.rs:155-159 | an item is its typecode, then its length, then its value |
| Zip316.ItemsRoundTrip | rust/keys/src/zip316.rs:153-190 | decoding the items' bytes returns the items |
| Zip316.ItemsReencodeIffMinimal | rust/keys/src/zip316.rs:177-189 | re-encoding decoded items reproduces the bytes exactly when all their numbers were minimal |
| Zip316.EncodeZip316Bech32m | rust/keys/src/zip316.rs:106-125 | checks in order, padding of the HRP with zeroes to 16 bytes, jumble, Bech32m |
| Zip316.PaddedOnly | rust/keys/src/zip316.rs:114-119 | what is jumbled is the bytes, then the HRP, then zeroes up to sixteen bytes |
| Zip316.EncodeSteps | rust/keys/src/zip316.rs:106-125 | which error comes first, and otherwise the encoding of the jumbled padded bytes |
| Zip316.DecodesIff | rust/keys/src/zip316.rs:127-151 | decoding gives exactly the bytes that, padded with the expected HRP, the string carries under that HRP |
| Zip316.DecodeZip316Bech32m | rust/keys/src/zip316.rs:127-151 | the bytes before the padding, exactly when string, HRP, jumble and whole padding are right; otherwise the first error, or the panic of the slice |
| Zip316.PanicsIff | rust/keys/src/zip316.rs:140-145 | decoding panics exactly when an HRP over 16 bytes passes every check before the slice |
| Zip316.EncodeTlvContainer | rust/keys/src/zip316.rs:153-161 | the payload is the items' encodings one after another |
| Zip316.DecodeTlvContainer | rust/keys/src/zip316.rs:172-190 | terminates on every string with the items or the first error |
| Zip316.PayloadRoundTrip | rust/keys/src/zip316.rs:106-151 | decoding an encoded payload returns its bytes |
| Zip316.ContainerRoundTrip | rust/keys/src/zip316.rs:153-190 | decoding an encoded container returns exactly its items |
| Zip316.ContainerInjective | rust/keys/src/zip316.rs:153-161 | different item lists have different encodings |
| Zip316.RelabelledRefused | rust/keys/src/zip316.rs:140-147 | a payload encoded under one HRP and relabelled with another is refused |
| Zip316.ContainerReencodeIffMinimal | rust/keys/src/zip316.rs:153-190 | re-encoding a decoded container gives the string back exactly when its numbers were minimal and its payload has at least 32 bytes |

## Left out

- Replay.ReplayAfterFailure: the address book is the same in both runs.
- Convergence.InterleavingsAgree: speaks of deposit events that carry a recipient address, assigned beforehand unless no address is assigned at all; the fallback for older events without one is covered for successive runs by Replay.
- Schedules.StopHarmlessIff: the schedules it builds need that no event is refused on the way; that stopped runs without a differing event are harmless needs no such condition.
- Sync.SyncWallet: asks that the saved cursor lies within the log, which RunInvariant keeps in every reachable state; the log is what was visible when the run saw its empty page.
- Selection.SelectCompleteMinimalIff: asks that 5000 times the number of notes fits uint64, which any slice in memory meets; ColdMax.LargerRefusedIff and Planner.PlanSweepWithNotes likewise.
- Zip316.ContainerRoundTrip: asks the inverse laws of F4Jumble and Bech32m for the given HRP, since Bech32m writes lower case.
- The tie order of sort.Slice is not promised by Go and not modelled; every result holds for any tie order.
- splitNotesBalanced's branch for a single chunk after the division is not written, since more notes than maxSpends give at least two chunks.
- Foreign keys, SQL text, connection handling, timestamps, random id generation, and the whitespace and case trimming of ids.
- The error for an unknown deposit status: the status is a datatype.
- Block decoding, orchardActionForNote and the witness service: their answers are parameters.
- A plan's header (version, chain, branch, anchor, expiry with its overflow test, change address, memo) and the decimal strings for amounts.
- PlanSweep for one transaction, which repeats planSweepWithNotes on all notes.
- The order of broadcast and debit in the withdraw command, which rests on the external signer and broadcaster.
- F4Jumble, Bech32m, Orchard keys, ZIP 32 and the foreign function layers.
- The ordering and duplicate rules of ZIP 316 for items, which this code does not enforce; usize is taken as 64 bits wide.
- Listing, paging and summary queries, command-line parsing, output and the daemon's process control: they would add only easy members.
