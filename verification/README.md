# Microvault: verified models

Models of the state machines and printers in Microvault's Go services, and proofs
of what they keep. `dafny verify dfyconfig.toml` checks everything.

| Files | Subject |
|---|---|
| `Json`, `Utf8`, `Canonical*` | the canonical JSON a Didit webhook is signed over |
| `Accounts`, `AccountRuns`, `ChainHeal` | the derivation-index allocator, chain status, and the heal queue |
| `PinLimiter`, `PinRuns` | the attempt counter shared by PIN entry and recovery |
| `Counterparty`, `CounterpartyRuns`, `CounterpartyDecisions`, `OnchainWriter` | counterparty address intents, and driving the chain to them |
| `ExitWindows` | alerts on closing exit windows |
| `AirtelLog`, `AirtelRuns`, `AirtelSweeps`, `MpesaLog`, `Applied` | the payment observation logs and what was applied from them |
| `Verdicts`, `Policies` | merging screening verdicts, and the providers' policies |
| `ConnectionCache` | double-checked locking around Redis clients |
| `Backfill` | the cursor-paged scan for vault depositors |
| `LoanRef`, `Money` | loan references and cent rounding |
| `TransactionLedger`, `LedgerRuns`, `LedgerOverlaps` | status transitions and partial updates of transactions, one after another and overlapping |
| `Options`, `Queues`, `Sums` | nullable columns, `ORDER BY ... LIMIT` queries, sums over sets |

## How the models are made

A table is a map from key to row, and a repository is a class whose fields are its
tables. One SQL statement is one atomic step and its `WHERE` clause that step's
guard; a query with `ORDER BY` and `LIMIT` returns any batch its clauses allow
(`Queues.IsBatch`). Each method is proved to leave the state a function of the old
one gives, and the run-level results are about sequences of events whose steps are
those functions. Clocks, network outcomes, random bytes, derived addresses and
bcrypt comparisons are parameters. What the lock, the counter and the sequence
have done so far is remembered in extra components of the run states.

The model follows the code where it and its own words disagree. What the proofs
show there, and elsewhere that a reader may not expect:

- `pkg/compliance/elliptic/verdict.go:4-6` calls sanctions membership absolute. The
  function looks at the analysis status first, so a sanctioned wallet whose analysis
  is unfinished is pending (`Policies.SanctionedRejectedExactly`,
  `Policies.SanctionedButPending`). It still never passes.
- `pkg/repository/account_repository.go:243-250` promises that no index in use is
  handed out after a boot. That takes more than the boot check can see: a base below an
  index only the lost rows of a restored dump held (`AccountRuns.DumpReuses`), or a
  registration in another process that outlives a rewind (`AccountRuns.SurvivorReuses`),
  breaks it. `AccountRuns.BootSafeExactly` says exactly when it holds.
- `pkg/transaction/transaction_service.go:17` and `19` call success and cancelled
  final. The write has no status guard, so this holds for updates one after another
  and not for overlapping ones (`LedgerOverlaps.OverlappingUpdatesUnfreeze`);
  `LedgerOverlaps.LawfulExactly` names the guard with which it would.
- Settlement of the Airtel log applies a row once only while no two sweeps hold it:
  `SetAppliedStroops` has no guard of its own (`AirtelSweeps.AppliedOnceExactly`).
- `platform/cache/cache.go:138-141` keeps the entry when Close fails, and the closed
  client is what later calls get (`ConnectionCache.NoFailureExactly`).
- `pkg/utils/money.go:304-306` rounds to the nearest cent; within half a cent of the
  largest 64-bit integer the sum wraps and the result is negative
  (`Money.NearestExactly`, `Money.RoundingKeepsOrderExactly`).
- A conservation of applied M-Pesa stroops fails when a Pull clears the loan of an
  applied row (`MpesaLog.ClearedPaymentIsLost`); how far the sums then fall short is
  given exactly.
- An Airtel callback and a sweep do not always agree on the receipt: a receipt only
  the callback carries is lost when the sweep confirms first
  (`AirtelRuns.CallbackAndSweepConverge`).
- `VerifySecurityAnswers` with no answers at all verifies: it asks that every answer
  given matches.

## Model

| member | source | states |
|---|---|---|
| CanonicalForm.RoundTrip | pkg/compliance/didit/webhook.go:98-188 | Reading the canonical text of any valid value, at any nesting depth and with anything delimiting after it, gives back that value with only its whole floats turned into integers, and consumes exactly the text |
| CanonicalForm.SameBytes | pkg/compliance/didit/webhook.go:103-155 | Two values have equal canonical bytes if and only if they are equal up to whole floats spelt as integers |
| CanonicalForm.Idempotent | pkg/compliance/didit/webhook.go:103-155 | Canonicalising the canonical text of any readable body gives the same text again |
| CanonicalForm.SameCanonicalBytes | pkg/compliance/didit/webhook.go:103-113 | Two readable bodies have equal canonical bytes if and only if what they decode to is equal up to whole floats |
| CanonicalForm.OrderIndependent | pkg/compliance/didit/webhook.go:98-155 | However two bodies are spelt, if they decode to what two documents stand for that differ only in the order of members, at any depth, they have the same canonical text |
| CanonicalForm.CompactDecodes | pkg/compliance/didit/webhook.go:98-113 | Every valid document has such a body: its compact text decodes to what it stands for |
| CanonicalForm.SortedMeaning | pkg/compliance/didit/webhook.go:115-155 | The document the printer writes stands for the printed value, whole floats as integers |
| CanonicalForm.ReadValid | pkg/compliance/didit/webhook.go:103-113 | Whatever the decoder accepts has only well-formed number literals in it |
| CanonicalRoundTrip.ReadWrite | pkg/compliance/didit/webhook.go:115-188 | The RFC 8259 reader undoes the compact writer on every document, repeated keys included |
| CanonicalRoundTrip.ReadQuoted | pkg/compliance/didit/webhook.go:157-188 | Reading a quoted and escaped string gives the string back |
| CanonicalRoundTrip.NumberExtends | pkg/compliance/didit/webhook.go:138-143 | A number literal is read back whole in front of any delimiter |
| CanonicalNumber.NormLitKeepsValue | pkg/compliance/didit/webhook.go:98-98 | Cutting a whole float at its point leaves a literal of the same number, never a whole float again, and changes exactly the literals the pattern matches |
| Canonical.SortedOnce | pkg/compliance/didit/webhook.go:118-122 | A set of keys has one strictly sorted listing, so neither map iteration nor the sort can show |
| Utf8.ByteOrderIsRuneOrder | pkg/compliance/didit/webhook.go:122-122 | Sorting Go strings by byte is sorting them by code point |
| Utf8.EncodeInjective | pkg/compliance/didit/webhook.go:111-112 | Equal UTF-8 bytes mean equal text |
| Utf8.EncodeRuneIsUtf8 | pkg/compliance/didit/webhook.go:111-112 | Each code point is encoded in the fewest of one to four bytes, with the leading and continuation bytes of section 3 of RFC 3629 |
| CanonicalWriter.WriteString | pkg/compliance/didit/webhook.go:159-188 | The escaping loop appends the quoted, escaped string to the shared buffer; that no spelling of the string is shorter is CanonicalShortest.EscapeShortest |
| CanonicalWriter.Keys | pkg/compliance/didit/webhook.go:118-122 | Collecting an object's keys in any order and sorting gives its one sorted listing |
| CanonicalWriter.WriteCanonical | pkg/compliance/didit/webhook.go:115-155 | The recursive writer appends exactly the printed text of any value to the shared buffer |
| CanonicalWriter.CanonicalBytes | pkg/compliance/didit/webhook.go:103-113 | The whole operation returns the UTF-8 of the canonical text, or the decoder's error |
| CanonicalShortest.EscapeShortest | pkg/compliance/didit/webhook.go:157-188 | No way of writing a string that the reader accepts is shorter than the escaped one |
| CanonicalShortest.EscapeOnlyShortest | pkg/compliance/didit/webhook.go:157-188 | Of the ways as short, the escaped one is the only one whose hexadecimal digits are lower-case |
| CanonicalShortest.EscapeIsLower | pkg/compliance/didit/webhook.go:177-183 | And its digits are |
| CanonicalShortest.KeysAscend | pkg/compliance/didit/webhook.go:118-122 | Members are written in the order of their keys' code points |
| CanonicalShortest.WholeFloatExactly | pkg/compliance/didit/webhook.go:98-98 | A literal is cut exactly if it is an integer literal followed by a point and one or more zeros, and what is left is that integer literal |
| CanonicalShortest.CanonicalShortest | pkg/compliance/didit/webhook.go:98-188 | No text of a value, whatever its white space, escapes, whole floats or repeated keys, is shorter than its canonical text |
| Accounts.FloorIsExact | pkg/repository/account_repository.go:207-221 | In both sequence states the floor makes the next index exactly the larger of the old next and the floor, and never rewinds |
| Accounts.AccountRepository.GetNextAccountIndex | pkg/repository/account_repository.go:175-194 | Hands out the next index and moves the sequence past it |
| Accounts.AccountRepository.EnsureAccountIndexFloor | pkg/repository/account_repository.go:207-221 | Next index after the floor is the larger of the old next and the floor; nothing moves for a floor of zero or less |
| Accounts.AccountRepository.MaxAccountIndex | pkg/repository/account_repository.go:227-241 | The highest index of any row, soft-deleted ones included, and -1 for an empty table |
| Accounts.AccountRepository.EnsureAccountIndexIntegrity | pkg/repository/account_repository.go:251-267 | After the boot check the next index is the largest of old next, base and high-water mark plus one |
| Accounts.AccountRepository.ReissueConflict | pkg/repository/account_repository.go:367-413 | Only a live conflict row is moved; the sequence moves even when the rest rolls back; success leaves the row with the fresh index, the address derived from it, pending, no attempts and no check time, and its creation and deletion times as they were; every error leaves the table alone |
| Accounts.AccountRepository.UpdateChainStatus | pkg/repository/account_repository.go:419-444 | A conflict row can only be written conflict again; the two errors are told apart exactly |
| Accounts.AccountRepository.RecordChainCheck | pkg/repository/account_repository.go:345-362 | Stamps a live row's attempts and check time, or reports it missing |
| Accounts.AccountRepository.Delete | pkg/repository/account_repository.go:466-479 | Soft-deletes a live row and nothing else |
| Accounts.AccountRepository.Restore | pkg/repository/account_repository.go:447-461 | Brings a row back with its index unchanged |
| AccountRuns.StepKeepsInv | pkg/repository/account_repository.go:175-281 | Every step keeps all recorded and in-flight indices behind an armed sequence, and only a restored dump lowers the high-water mark, never a re-issue |
| AccountRuns.NeverRecordedAgain | pkg/repository/account_repository.go:175-281 | Over any run of allocations, burned and rolled-back re-issues, deletes, restores, rewinds, restored dumps and boots that cover what was recorded, no index ever recorded in a row is handed out again, and never index 0 |
| AccountRuns.RewindsAreCovered | pkg/repository/account_repository.go:243-267 | While rows are left alone every boot covers everything recorded by itself, whatever its base, and the high-water mark never falls over the run |
| AccountRuns.RewindsNeverReuse | pkg/repository/account_repository.go:175-281 | So over any number of rewinds no recorded index is handed out again |
| AccountRuns.BootSafeExactly | pkg/repository/account_repository.go:243-267 | After any rewind or restored dump a boot makes every later run safe if and only if every index ever recorded, lost rows included, and every index a surviving registration holds lies below the largest of old next, base and high-water mark plus one |
| AccountRuns.DumpReuses | pkg/repository/account_repository.go:243-267 | From an ordinary database, a dump that lost a row and a base of zero: its index is handed out again |
| AccountRuns.SurvivorReuses | pkg/repository/account_repository.go:243-267 | From an empty database, a registration that outlives a rewind records an index the sequence then hands out again |
| AccountRuns.NeverHandedTwice | pkg/repository/account_repository.go:175-281 | When each boot ends past everything issued, no index is handed out twice at all, burned ones included |
| AccountRuns.BaseClears | pkg/repository/account_repository.go:243-267 | A base above everything issued makes a boot end there, with no rows to see |
| AccountRuns.NoneTwiceExactly | pkg/repository/account_repository.go:243-267 | A boot rules out every double if and only if everything issued lies below the largest of old next, base and high-water mark plus one |
| AccountRuns.AddressesMatchIndices | pkg/repository/account_repository.go:367-413 | Over any run in which registrations, re-issues and dumps bring addresses derived from their indices, every row's address is the one derived from its own index |
| ChainHeal.GetDueChainHeals | pkg/repository/account_repository.go:318-342 | Returns due rows only, least recently checked first, unchecked ones before all, cut at the limit |
| ChainHeal.DueInTheEndExactly | pkg/repository/account_repository.go:318-342 | A row is due from some moment on if and only if it is not confirmed, no conflict and not deleted; otherwise it never is |
| ChainHeal.PassedOver | pkg/repository/account_repository.go:318-342 | A row of N that stays due and has been passed over in k rounds, each row stamped by its own clock or gone as a conflict, satisfies k * limit < N |
| ChainHeal.Fairness | pkg/repository/account_repository.go:304-362 | So it is returned within ceil(N / limit) rounds |
| ChainHeal.Drive | pkg/services/accountheal/reconciler.go:107-156 | What one heal leaves in its row for each outcome: attempts, check time and status, and no stamp for a conflict |
| ChainHeal.DueAgainExactly | pkg/services/accountheal/reconciler.go:107-156 | When a healed row is due again: never if created or a conflict; otherwise once the short wait is over, or the long one if its attempts are used up or the refusal is permanent |
| ChainHeal.Tick | pkg/services/accountheal/reconciler.go:87-156 | A tick that fetches a batch and drives each row at its own time is a round of the fairness argument, whatever comes of each heal |
| PinLimiter.UserRepository.ClaimPINAttempt | pkg/repository/user_repository.go:352-379 | Admits exactly when the user is live with no lock standing; counts, and locks exactly when the count is full; refusal and absence change nothing and are told apart |
| PinLimiter.UserRepository.ResetPINAttempts | pkg/repository/user_repository.go:382-399 | Clears a live user's counter and lock, and nothing else |
| PinLimiter.Service.VerifyPIN | pkg/pin/service.go:156-190 | Verified exactly when the session gets to compare and the guess is right; a wrong guess costs one attempt and reports a remaining count from 1 to maxAttempts - 1; everything else leaves the table alone |
| PinLimiter.StoredHashExactly | pkg/pin/service.go:385-398 | The hash kept for a question is the one of its last row, and none without a row |
| PinLimiter.Service.VerifySecurityAnswers | pkg/pin/service.go:372-414 | An admitted call verifies exactly when each answer matches the last row stored for its own question, and otherwise costs one attempt; one not admitted changes nothing |
| PinRuns.Reached | pkg/pin/service.go:156-190 | In every interleaving of PIN and recovery sessions: a lock exactly when the counter is full, remaining counts from 1 to maxAttempts - 1, and no comparison without an admitted claim of its own session |
| PinRuns.RateBound | pkg/pin/service.go:156-190 | Resets included, the n-th attempt since the counter was last cleared comes at least (n - maxAttempts) lockouts after the maxAttempts-th |
| PinRuns.GuessingRate | pkg/pin/service.go:156-190 | With no right guess the bound covers every attempt ever admitted for the user |
| PinRuns.AloneIsVerifyPIN | pkg/pin/service.go:156-190 | A session whose statements are not interleaved answers what the service method answers and leaves the table it leaves, refused, wrong or right |
| PinRuns.ClaimKeepsCounter | pkg/repository/user_repository.go:352-379 | An admitted claim keeps the spacing of attempts and the lock time in step with the counter |
| Counterparty.CounterpartyRepository.ApproveAddress | pkg/repository/counterparty_repository.go:298-323 | Approval sets the approval stamp, queues the address and clears actor and time of revocation and freeze, column by column |
| Counterparty.CounterpartyRepository.RejectAddress | pkg/repository/counterparty_repository.go:325-343 | Rejection sets status and reason and leaves every intent and the observed state alone |
| Counterparty.CounterpartyRepository.RevokeAddress | pkg/repository/counterparty_repository.go:352-371 | Revocation stamps actor and time and leaves the observed state alone |
| Counterparty.CounterpartyRepository.FreezeAddress | pkg/repository/counterparty_repository.go:373-394 | A freeze adds a revocation only where none stands, and keeps the standing one's actor and time |
| Counterparty.CounterpartyRepository.SetOnchainState | pkg/repository/counterparty_repository.go:483-499 | Writes the observed state and nothing else |
| Counterparty.CounterpartyRepository.RecordScreening | pkg/repository/counterparty_repository.go:529-560 | Applies the given status with its expiry and the given state, or reports the address missing |
| Counterparty.CounterpartyRepository.MarkExpiredAddresses | pkg/repository/counterparty_repository.go:501-514 | Expires exactly the approved addresses past their expiry and counts them |
| Counterparty.CounterpartyRepository.ListNeeding | pkg/repository/counterparty_repository.go:396-481 | Each of the three queues returns due addresses only, oldest intent first, cut at the limit |
| CounterpartyRuns.IntentsKept | pkg/repository/counterparty_repository.go:298-408 | Over every run a freeze intent has a revocation beside it, and the freeze and revoke queues never share an address |
| CounterpartyRuns.RevocationStands | pkg/repository/counterparty_repository.go:352-394 | A standing revocation keeps its actor and time through any number of freezes, rejections, screenings, expiries and observations |
| CounterpartyRuns.FirstFreezeRevokes | pkg/repository/counterparty_repository.go:373-394 | Of several freezes with no revocation before them the first one's actor and time stay on as the revocation's |
| OnchainWriter.SettledExactly | pkg/repository/counterparty_repository.go:396-481 | No queue holds an address exactly when a freeze intent shows frozen, otherwise a revoke intent shows revoked, and no approved address is pending |
| OnchainWriter.Converges | pkg/repository/counterparty_repository.go:396-499 | Any order of writer steps stops within two writes per address; where it stops is the same whatever the order, and it stops only when settled |
| CounterpartyDecisions.ApprovalIsAllowed | pkg/repository/counterparty_repository.go:298-323 | After an approval the address is in the allow queue and in no other, and what the writer works towards is approved |
| CounterpartyDecisions.RevocationIsDisallowed | pkg/repository/counterparty_repository.go:352-371 | After a revocation it works towards revoked, or frozen where a freeze stands, and never towards allowing |
| CounterpartyDecisions.FreezeIsFrozen | pkg/repository/counterparty_repository.go:373-394 | After a freeze it works towards frozen, with a revocation beside it |
| CounterpartyDecisions.SettlesAsDecided | pkg/repository/counterparty_repository.go:298-499 | After any run, once the writer has settled the chain shows the standing freeze, or else the standing revocation, or else the approval if one was waiting |
| CounterpartyDecisions.LastApprovalShows | pkg/repository/counterparty_repository.go:298-499 | Whatever came before, an approval that comes last is what the chain then shows |
| CounterpartyDecisions.RejectionStands | pkg/repository/counterparty_repository.go:325-343 | A rejected address is not in the allow queue again until it is approved or a screening sets its status |
| ExitWindows.CounterpartyRepository.SetExitDeadline | pkg/repository/counterparty_repository.go:410-424 | Mirroring the deadline already there changes nothing; another one starts the warnings over; an address that is no counterparty is not an error |
| ExitWindows.CounterpartyRepository.ListExitWindowsClosing | pkg/repository/counterparty_repository.go:426-438 | Open windows closing in time and not yet warned of at the level, nearest first, cut at the limit |
| ExitWindows.ClosingBatch | pkg/repository/counterparty_repository.go:426-438 | What such a query returns in terms of deadlines: still open, closing by the given time, below the level, nearest first, and all of them short of the limit |
| ExitWindows.WarnedOncePerLevel | pkg/repository/counterparty_repository.go:410-453 | Over any run of mirrored deadlines and warnings whose recording succeeds, an address is warned at most twice for one deadline, at rising levels |
| ExitWindows.RepeatsExactly | pkg/repository/counterparty_repository.go:440-453 | The same warning of the same deadline can go out again if and only if its recording failed, whatever is recorded or lost afterwards |
| ExitWindows.CheckExitWindows | pkg/services/vaultwatch/watcher.go:314-338 | A check is a run of due warnings whatever fails to be recorded; when nothing fails nobody is warned twice in it, and within the batch size no due warning is left |
| OnchainWriter.Process | pkg/services/compliance/onchain_writer.go:99-188 | One pass lists a batch and records the new state for exactly the submissions that succeed |
| OnchainWriter.Tick | pkg/services/compliance/onchain_writer.go:89-188 | A tick is a run of enabled writes whatever fails; when nothing fails it makes progress, and settles a table within the batch size at once |
| AirtelLog.AirtelTransactionRepository.RecordCallback | pkg/repository/airtel_repository.go:98-142 | Inserts, or updates an unconfirmed row without ever clearing its receipt; a confirmed row is left alone; a clashing receipt refuses the whole update |
| AirtelLog.AirtelTransactionRepository.Confirm | pkg/repository/airtel_repository.go:188-215 | Leaves the row confirmed with the given status and source, no poll time, and receipt and loan filled in when given; so with a loan and nothing applied it is in the settlement queue. A clashing receipt or a missing row changes nothing |
| AirtelLog.AirtelTransactionRepository.UpsertFromSummary | pkg/repository/airtel_repository.go:253-288 | Inserts, or confirms the existing row, filling in receipt and loan only when given |
| AirtelLog.AirtelTransactionRepository.DuePoll | pkg/repository/airtel_repository.go:173-185 | Due unconfirmed rows, earliest poll first, cut at the limit |
| AirtelLog.AirtelTransactionRepository.ListUnappliedConfirmed | pkg/repository/airtel_repository.go:291-303 | Confirmed, attributed, unapplied rows, oldest first, cut at the limit |
| AirtelLog.AirtelTransactionRepository.SetAppliedStroops | pkg/repository/airtel_repository.go:306-319 | Sets the applied figure of one row, or reports it missing |
| AirtelLog.AirtelTransactionRepository.SumAppliedStroopsByLoan | pkg/repository/airtel_repository.go:323-335 | The sum over the rows attributed to the loan |
| AirtelRuns.RunKeeps | pkg/repository/airtel_repository.go:98-288 | Over any run: first observation, confirmation, known receipts, attribution and applied figures are never undone, and receipts stay unique |
| AirtelRuns.ConfirmedExactly | pkg/repository/airtel_repository.go:98-288 | Over any run a row is confirmed if and only if it was before, was inserted confirmed, or a confirmation or sweep of it was accepted |
| AirtelRuns.LateCallbacksIgnored | pkg/repository/airtel_repository.go:112-142 | Any number of callbacks for confirmed transactions changes nothing at all |
| AirtelRuns.CallbackAndSweepConverge | pkg/repository/airtel_repository.go:98-142 | A callback and a confirming sweep agree in either order on confirmation and status; on the receipt exactly unless only the callback has one, and on the loan exactly unless only a callback that creates the row names it |
| AirtelRuns.RunConserves | pkg/repository/airtel_repository.go:291-319 | Whatever notifications come in between, the log shows what it showed plus everything applied since |
| AirtelSweeps.AppliedOnceExactly | pkg/repository/airtel_repository.go:291-319 | With listing and setting apart: from any state a row is applied at most once in all if and only if no two sweeps hold it and none does once it is applied |
| AirtelSweeps.ListingExactly | pkg/repository/airtel_repository.go:291-303 | A listing keeps that so for every row if and only if it lists nothing another sweep still holds |
| AirtelSweeps.SweepsAreRuns | pkg/repository/airtel_repository.go:291-319 | Exclusive sweeps set figures only on rows still in the queue, so they are runs of the log |
| AirtelSweeps.SweepsConserve | pkg/repository/airtel_repository.go:291-335 | With exclusive sweeps the sums over all loans show everything ever set, whatever comes between listing and setting |
| AirtelSweeps.OverlapLoses | pkg/repository/airtel_repository.go:291-319 | Two sweeps that list one row set it twice and lose the first figure |
| AirtelRuns.LoansShowEverythingApplied | pkg/repository/airtel_repository.go:188-335 | The sums over all loans add up to everything ever applied, even after a confirmation moves a row to another loan |
| Applied.LoansAddUp | pkg/repository/airtel_repository.go:321-335 | The loans' sums and the stroops on rows without a loan add up to everything applied |
| MpesaLog.MpesaTransactionRepository.Record | pkg/repository/mpesa_repository.go:113-124 | Inserts, or reports a conflict and changes nothing |
| MpesaLog.MpesaTransactionRepository.UpsertFromPull | pkg/repository/mpesa_repository.go:261-270 | Inserts, or overwrites number, loan and confirmation of the existing row and nothing else |
| MpesaLog.MpesaTransactionRepository.Confirm | pkg/repository/mpesa_repository.go:169-182 | Confirms and attributes a row, refusing an empty loan id |
| MpesaLog.MpesaTransactionRepository.ListUnappliedConfirmed | pkg/repository/mpesa_repository.go:273-286 | Confirmed, attributed, unapplied paybill rows, oldest first, cut at the limit |
| MpesaLog.MpesaTransactionRepository.SumAppliedStroopsByLoan | pkg/repository/mpesa_repository.go:308-320 | The sum over the rows attributed to the loan |
| MpesaLog.FirstObservationWins | pkg/repository/mpesa_repository.go:113-270 | Over any run no later callback or pull changes a row's source, amount, payload, reference or time, and an applied figure stays |
| MpesaLog.LastWordWins | pkg/repository/mpesa_repository.go:169-270 | Over any run confirmation and attribution of a row are whatever the last confirmation or pull of that receipt said |
| MpesaLog.StepNamesLoan | pkg/repository/mpesa_repository.go:238-254 | Applied rows stay attributed through a step exactly unless it is a pull that clears the loan of an applied row |
| MpesaLog.LoansShowAppliedExactly | pkg/repository/mpesa_repository.go:238-320 | The sums over all loans fall short of everything applied by the stroops on rows that lost their loan; with positive figures they add up if and only if every applied row still names one, as it does when no pull clears an applied row |
| MpesaLog.ClearedPaymentIsLost | pkg/repository/mpesa_repository.go:238-254 | A pull without a loan takes an applied payment out of its loan's sum |
| Verdicts.Merge | pkg/compliance/combine.go:94-132 | Under every completion schedule: any failure fails the merge with the error that came first; otherwise the result depends on the answers alone, unnamed parts named, in configured order |
| Verdicts.StrictestIsFirstHighest | pkg/compliance/combine.go:18-42 | The merged verdict is the first one of the highest rank |
| Verdicts.StrictestRank | pkg/compliance/combine.go:18-42 | The merged rank is the highest rank of the parts |
| Verdicts.ApprovedExactly | pkg/compliance/combine.go:113-119 | Approved exactly when every part is |
| Verdicts.StrictestByName | pkg/compliance/combine.go:18-42 | By name and without ranks: rejected if any part is; else review; else pending or an unnamed verdict; unscreenable only beside approvals |
| Verdicts.RulesOfPart | pkg/compliance/combine.go:117-122 | Each part's rules stand whole where the part does |
| Verdicts.JoinBoth | pkg/compliance/combine.go:115-125 | Provider names are joined in order with one separator between two |
| Verdicts.RankInAnyOrder | pkg/compliance/combine.go:31-42 | The rank does not depend on the order of the providers |
| Verdicts.VerdictInAnyOrder | pkg/compliance/combine.go:31-42 | The verdict itself is the same in every order exactly unless an unnamed verdict ties with another at the top |
| Verdicts.Monotone | pkg/compliance/combine.go:31-42 | Raising parts never lowers the whole |
| Verdicts.LoneProviderUnwrapped | pkg/compliance/combine.go:44-52 | A lone provider returned unwrapped decides as the merge of one would |
| Policies.SanctionedRejectedExactly | pkg/compliance/elliptic/verdict.go:18-66 | A sanctioned reply of any provider is rejected exactly unless it is an unfinished Elliptic wallet analysis, which stays pending |
| Policies.SanctionedButPending | pkg/compliance/elliptic/verdict.go:4-30 | Contrary to the policy's comment, a sanctioned wallet can come out other than rejected |
| Policies.RaisedNeverLower | pkg/compliance/elliptic/verdict.go:36-51 | A higher score never gives a lower rank, for all cut points |
| Policies.RaisingOneScore | pkg/compliance/combine.go:94-132 | Raising one provider's score never lowers the merged rank |
| Policies.SanctionedNeverPasses | pkg/compliance/combine.go:94-132 | With a sanctioned part the whole is never approved or unscreenable, and rejected exactly when some part is |
| Policies.MergeApprovedOnlyUnderCuts | pkg/compliance/combine.go:94-132 | A merged approval means every provider scored the address, unsanctioned, under cut points of its own |
| Policies.PolicyApprovesExactly | pkg/compliance/didit/screen.go:109-128 | Elliptic wallet and transaction, Didit and Merkle: approved exactly on a final, unsanctioned reply scored under every cut that is set, with not both cuts zero |
| Policies.PolicyPendingExactly | pkg/compliance/didit/screen.go:109-128 | Pending exactly while the provider has not finished: an analysis under way or failed, a predictive or unknown transaction, an unscreened address, a missing score where sanctions do not decide |
| Policies.PolicyRejectsExactly | pkg/compliance/elliptic/transaction.go:104-116 | Rejected exactly on sanctions, unfinished wallet analyses apart, or on a final score at the hard cut |
| Policies.PolicyUnscreenableExactly | pkg/compliance/merkle/verdict.go:56-81 | Unscreenable exactly where the provider knows nothing of the address: an address unknown to Elliptic, or one without history or exposure at Merkle |
| Policies.PolicyNamesVerdict | pkg/compliance/merkle/verdict.go:56-81 | No policy gives an unnamed verdict, and a scored review is over the review cut or has no cuts at all |
| ConnectionCache.StepKeepsInv | platform/cache/cache.go:24-167 | Every statement of every thread keeps lock, knowledge, count and client invariants |
| ConnectionCache.MutualExclusion | platform/cache/cache.go:17-50 | A writer excludes every other reader and writer |
| ConnectionCache.OneClientPerName | platform/cache/cache.go:24-50 | In every interleaving at most one client is created per name between removals of that name |
| ConnectionCache.ReturnsRegistered | platform/cache/cache.go:24-50 | GetConnection returns the client registered under its name at that moment, and creates only when none is |
| ConnectionCache.AnswersAreTrue | platform/cache/cache.go:24-167 | What a call is about to answer is so at that moment: an error of GetConnection or a false from Ready with nothing registered, a removal with nothing left, a failed one with the closed client still there, CloseAll with an empty map |
| ConnectionCache.StaysInCall | platform/cache/cache.go:24-167 | Whatever the others do, a thread stays in the call it began until it leaves by one of its return statements |
| ConnectionCache.ErrorsComeFromFailures | platform/cache/cache.go:24-167 | Where no creation and no Close fails, GetConnection never ends without a client and no removal reports a failure |
| ConnectionCache.GetAlone | platform/cache/cache.go:24-50 | Undisturbed, GetConnection finds the registered client, or creates, registers and returns the next one, or fails and has changed nothing |
| ConnectionCache.CloseAllClosesEach | platform/cache/cache.go:147-167 | In any order CloseAll closes each client once, goes on past failures and reports one exactly if a Close failed |
| ConnectionCache.LockFreeAtRest | platform/cache/cache.go:24-167 | The lock is free whenever no call is active |
| ConnectionCache.NeverStuck | platform/cache/cache.go:24-167 | While any call is active a holder of the lock can move, or with the lock free every active thread can, whichever waiting thread the lock prefers |
| ConnectionCache.NoneLeaked | platform/cache/cache.go:24-167 | Every client whose creation succeeded is registered or has been closed |
| ConnectionCache.ReturnsOpen | platform/cache/cache.go:128-167 | While no Close fails, GetConnection never returns a closed client |
| ConnectionCache.FailedCloseIsServed | platform/cache/cache.go:128-144 | In any reachable state, after a Close fails any idle thread that asks for the name gets the closed client, with no further failure |
| ConnectionCache.ServesOpenExactly | platform/cache/cache.go:24-167 | After a run whose Closes succeeded, GetConnection goes on returning open clients until the next failure if and only if the next event is not a failed Close |
| ConnectionCache.NoFailureExactly | platform/cache/cache.go:24-167 | Every Close in a run succeeded if and only if at no point of it calls whose Close succeeds could get a closed client |
| Backfill.ScanDepositors | cmd/vault-backfill/main.go:99-169 | The scan stops on any log; success lists exactly the addresses of the decodable events among all the node had at its last request, at least all it had at the start, for any log length, unless a full page came without a cursor; every request follows from the page before, and the ledgers given are the first page's oldest and the last page's latest; failure has a cause |
| Backfill.Collect | cmd/vault-backfill/main.go:131-145 | Decoding a page adds exactly the addresses of its decodable events |
| Backfill.PageCovers | cmd/vault-backfill/main.go:121-157 | A page that keeps the RPC promise continues the log where the request started, and is short only at the end |
| LoanRef.References.constructor | pkg/loanref/loanref.go:47-54 | The table maps each byte to its place in the alphabet and every other byte to -1 |
| LoanRef.References.ValidatePrefix | pkg/loanref/loanref.go:62-72 | Accepts exactly two characters of the alphabet |
| LoanRef.References.CheckChar | pkg/loanref/loanref.go:78-84 | The loop computes the check character of the body |
| LoanRef.References.Validate | pkg/loanref/loanref.go:89-103 | Accepts exactly well-formed references under the prefix |
| LoanRef.References.Generate | pkg/loanref/loanref.go:114-150 | Refuses exactly a bad prefix, and otherwise gives a reference Validate accepts |
| LoanRef.ImageExactly | pkg/loanref/loanref.go:86-150 | Under a valid prefix Validate accepts exactly what the generators produce |
| LoanRef.TypoCaught | pkg/loanref/loanref.go:74-103 | Every single wrong character is caught |
| LoanRef.TwoApart | pkg/loanref/loanref.go:74-103 | Two distinct valid references under one prefix differ in at least two positions |
| LoanRef.DoubleTypoExactly | pkg/loanref/loanref.go:74-103 | Two wrong characters pass exactly when both are in the alphabet and their errors cancel modulo 32 |
| LoanRef.SwapNeverCaught | pkg/loanref/loanref.go:74-103 | Swapping two of the random characters is never caught |
| LoanRef.CheckMoves | pkg/loanref/loanref.go:74-84 | The check character moves round the alphabet by as much as any one character of the body does |
| LoanRef.ZerosCheck | pkg/loanref/loanref.go:74-84 | And for a body of zeros it is the zero |
| LoanRef.SeedsCollideExactly | pkg/loanref/loanref.go:133-150 | Two seeds give one reference exactly when the low five bits of their first six bytes agree |
| Money.NearestExactly | pkg/utils/money.go:304-316 | In 64-bit arithmetic the result of a positive amount is the nearest cent, half up and never zero, exactly when adding half a cent does not overflow; otherwise it is negative. Other amounts are left as they are |
| Money.RoundingKeepsOrderExactly | pkg/utils/money.go:304-316 | Rounding keeps the order of two 64-bit amounts if and only if the larger is not past the edge, both are, or the smaller is no larger than what amounts past the edge round to |
| Money.RoundingTwice | pkg/utils/money.go:304-316 | Rounding twice is rounding once, for every 64-bit amount |
| TransactionLedger.ChangedFields | pkg/transaction/dto.go:74-101 | The field-by-field map holds exactly what the request sets |
| TransactionLedger.PartialWriteIsFull | pkg/repository/transaction_repository.go:256-315 | The allow-list never rejects what a request sets, and the partial write leaves the row a full rewrite of the overlaid record would |
| TransactionLedger.TransactionRepository.UpdateFields | pkg/repository/transaction_repository.go:301-315 | Nothing is written when any column is off the list; otherwise exactly the given columns are, or the unique hash refuses all |
| TransactionLedger.TransactionRepository.Update | pkg/repository/transaction_repository.go:294-298 | Rewrites every updatable column and no other |
| TransactionLedger.Service.Create | pkg/transaction/transaction_service.go:59-101 | Refuses exactly the bad requests and taken hashes; otherwise records a pending row with each asked value in its own column |
| TransactionLedger.Service.Update | pkg/transaction/transaction_service.go:297-339 | Refuses finished rows and forbidden transitions; otherwise each column holds what is asked for it, or what it held, and the terms stay |
| LedgerRuns.HistoryIsWalk | pkg/transaction/transaction_service.go:14-20 | Over any sequential run every row starts pending and moves only along the table |
| LedgerRuns.HistoriesExactly | pkg/transaction/transaction_service.go:14-20 | The histories a row can have are exactly the lawful ones from where it stands: submitted or cancelled from pending, success or failure from submitted, pending when new or again after a failure, every one of them possible |
| LedgerRuns.SucceededWasSubmitted | pkg/transaction/transaction_service.go:14-20 | A row that succeeded was submitted before, whatever else happened to it |
| LedgerRuns.RunKeepsRow | pkg/transaction/transaction_service.go:297-339 | A succeeded or cancelled row never changes again, terms never change and hashes stay unique |
| LedgerOverlaps.LateWriteExactly | pkg/transaction/transaction_service.go:297-339 | A late write keeps the rules if and only if it changes nothing or the check it made on reading would pass on the row as it is |
| LedgerOverlaps.LawfulExactly | pkg/transaction/transaction_service.go:297-339 | In any interleaving of reads and writes every row follows the transition table, keeps its terms and freezes when done, if and only if every write meets that guard |
| LedgerOverlaps.GuardedRunFreezes | pkg/transaction/transaction_service.go:297-339 | Under the guard a finished row is the same row at the end of any interleaving |
| LedgerOverlaps.UndisturbedIsUpdate | pkg/transaction/transaction_service.go:297-339 | An update nothing comes between meets the guard and does what the service does |
| LedgerOverlaps.OverlappingUpdatesUnfreeze | pkg/transaction/transaction_service.go:297-339 | Without the guard a succeeded row is made to fail by an update that read it while submitted |

## Left out

- JSON strings are sequences of Unicode scalar values: the decoder's replacement of invalid UTF-8 happens before the model begins, and its limit of 10000 nesting levels is not modelled.
- `sort.Strings` is modelled by its contract, through insertion; the buffer holds text and encodes it on `Bytes`.
- CanonicalForm.OrderIndependent: documents with repeated keys are excluded, because the decoder keeps the last of them and order then matters. The reader yields values and no documents, so a body is tied to a document through what both stand for.
- HMAC comparison, webhook age and the decoding of the event itself.
- Integer widths other than in `Money`: indices, counters, sums and amounts are unbounded.
- A floor of the account sequence set while another process calls nextval; the boot check is one step.
- `AccountRepository.Update`, which writes a status column and a time that no part of this model reads.
- ChainHeal.Fairness: a row whose check cannot be recorded keeps its place at the head of the queue; rounds in which the database refuses a stamp, and re-issues that put a conflict row back, are not part of a history.
- ChangePIN, ResetPIN and the profile update, which write counters back from an earlier read; the rate bound covers claims and resets.
- Notifications sent on failed attempts, and the text of lock messages.
- Know-your-business decisions, the audit row written beside each screening, and the watcher's other alerts.
- OnchainWriter.Converges: a write that the chain confirms but the table fails to record counts as not made; the exit deadline recorded after a write is not modelled.
- Airtel and M-Pesa rows are keyed by the partner id and the receipt; the surrogate id used by SetAppliedStroops stands for the same row. Columns no statement here depends on are dropped.
- AirtelRuns.CallbackAndSweepConverge: notifications never carry an empty receipt (`pkg/services/airtelpoller/summary.go:188-190`), and the sweep always confirms (`pkg/services/airtelpoller/summary.go:181`).
- Exit windows are keyed by address, which is unique.
- M-Pesa GetLoanIDByReference and the lookups by id: plain reads.
- The raw payloads kept beside a merged screening (one that is not JSON would fail the merge when it is encoded), provider references, and screening times; risk scores are reals, and Merkle's and Didit's string comparisons are booleans. Rule lists are concatenated in the merge but not derived from replies.
- A client whose tracing cannot be installed is neither numbered nor closed, as in the code. Clients are numbers and their network calls outcomes; a waiting writer does not hold back new readers, which only allows more interleavings (and no deadlock depends on it, ConnectionCache.NeverStuck). GetClient and ListConnections are single reads. Because concurrency is the point, the cache is steps over a state and not a class.
- Backfill.ScanDepositors: events the node drops from its window during a scan are not modelled; decoding is a property of the event, and allowlisting the found addresses is left out.
- `b & 0x1f` is written as the remainder modulo 32; a prefix longer or shorter than two characters given to Validate is accepted as the code accepts it.
- Interest, currency conversion and decimal parsing in `pkg/utils/money.go`: results depend on a decimal library that is not part of this model.
- BatchCreate, and the text and number formats of ledger columns.
