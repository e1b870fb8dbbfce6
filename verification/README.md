# A verified model of the payment flow

This project models the decision-making core of a crypto payment processor and proves what it keeps, and
exactly where it stops keeping it. Dafny verifies the whole project with `dafny verify dfyconfig.toml`;
nothing here runs the original program.

**The payment flow** (`Domain`, `Ledger`, `Steps`, `Service`, `Protocol`, `Invariant`, `Preservation`,
`Runs`, `Promises`, `Effects`, `Limits`, `Reconciliation`, `Witnesses`). A payment is locked to an
invoice, the latest of its incoming transactions. Transfers reach the invoice as fills in an upserted
ledger; below the invoice amount the payment is *partial*, at it the invoice is promoted, and a receipt
check credits the merchant. Around this run a reorg recheck, an expiry sweep, a change of payment
method, merchant decisions and the automatic attribution of transfers in another currency. `Steps` says
what each service call leaves of the database, `Service` is the call itself, a class whose methods
update tables row by row; the contract of each is that it leaves exactly the database, and gives the
outcome, of its function in `Steps`, so what is proved about the functions holds of the methods.
`Effects` says what each call does in every database that a guarded run reaches, without those
functions: which rows change, to what amounts, statuses and times, and when nothing does. `Protocol` has
the runs: any sequence of calls, for any number of payments, at any times, with any answers of the chain
and the price feed.

The services check less than their promises need. `Protocol.Guard` collects what a caller has to check:
an inbound step needs a pending transaction, and a delivery that is new to the ledger or is a repetition
that does not seem to cover the invoice; both price reads of a promotion agree; a merchant decides only
about a finalized transaction; an automatic re-lock succeeds in canceling the stale one. `Promises` has
what holds in every database that a guarded run reaches. `Limits` and `Reconciliation` take guards away,
one at a time, and prove for every reachable database exactly when the promise still holds without them:
for a merchant who decides early, a repeated delivery, a second price read that differs, a re-lock whose
cancel fails, and a fill that an administrator records against a transaction in any status. `Witnesses`
has a run from the empty database to the failing side of each.

**Money** (`Decimal`, `Money`, `Display`): raw integers, their decimal text, rounding to display
precision, and what a customer who pays the displayed remainder gets.

**Attribution** (`Attribution`), **addresses** (`Base58`), **listing** (`Pagination`), **RPC failover**
(`Rpc`) and **the marketing queue** (`Marketing`, `MarketingService`, `MarketingRuns`,
`MarketingEffects`) are smaller cores in the same style: a specification, the imperative code proved
against it, and the laws of the specification. The table lists the laws, and of the imperative code what
holds a loop or an algorithm of its own.

## Where the code and its own words differ

The model follows the code. What its comments or design say differently:

- The extension of a partial payment is described as capped a day after the original expiry
  (internal/db/repository/payments.sql.go:549-552). Only a migration ever writes that column
  (scripts/migrations/20260504120000-create_transaction_fills.sql:30-32), so for every payment the
  services create the cap is a day after the *current* expiry, and dust keeps it alive without bound
  (`Limits.ExtensionCapExact`, `Limits.NoDeadlineHolds`).
- `InProgressInvalid` is described as no longer reached by a promotion
  (internal/service/processing/service_incoming.go:274-278). The $0.10 tolerance is fetched twice, and
  when the second fetch is lower it is reached (`Limits.PromotionStatusExact`).
- A merchant may resolve or decline an underpaid payment before the chain confirms its transaction; the
  receipt check then writes `underpaid` over the decision and a second resolve credits the balance again
  (`Limits.ResolveExact`, `Limits.DeclineExact`).
- The upsert absorbs repeated deliveries, but a promotion adds the delivered amount before the upsert:
  the webhook and admin paths, which have no guard against repetition, count a repeated delivery twice
  (`Limits.PromotionConservesExactly`). The watcher's guard is enough, at a price: a transfer marked
  reorged is never counted again when it is mined again (`Limits.ReorgedForever`).
- Recording every output once is promised
  (scripts/migrations/20260504120000-create_transaction_fills.sql:8-10). Every fill is written with
  index 0 (internal/service/processing/service_incoming.go:154-168), so of two outputs of one hash to
  the same invoice the second gains nothing (`Limits.TwoOutputsExact`).
- A fill reconciled by an administrator is said to promote the payment or to leave it partial and open
  to a top-up (internal/service/processing/service.go:569-575). Nothing tests the status of the
  transaction: a fill for a payment that was already credited can take success away and lead to a
  second credit; when exactly is `Reconciliation.ReconcileExact` and
  `Reconciliation.SuccessSurvivesExactly`.
- A transaction stuck in progress is said always to cancel itself after a day
  (internal/service/processing/service_incoming.go:495-510). One that the chain confirms and whose
  service fee exceeds what it gained is refused at every check (`Promises.CheckFinalizes`,
  `Witnesses.NeverFinalized`).
- An automatic re-lock cancels a partially paid invoice like any other, and what had been paid to it is
  never credited (`Limits.RelockStrandsEarlierFills`).
- Truncation is documented to round toward zero; it rounds down (`Money.TowardZeroExactly`).
- An amount with more decimals than its currency makes the parser panic, and every underscore behind the
  point makes the amount ten times too small (`Money.ParseNumeral`, `Money.UnderscoreExact`).
- A list limit of -1 panics (`Pagination.LimitExact`).
- The token row that is written for the unsubscribe link of an email is what the next step of a sequence
  reads as an unsubscription, so an address gets one email of a sequence
  (`MarketingRuns.OneMailPerEnrollment`, `MarketingRuns.SecondStepExact`) and is left out of every later
  audience (`MarketingRuns.MailedIsNeverAddressedAgain`). A sequence whose last enrollment does not
  finish stays running until it is paused or canceled (`MarketingRuns.SequenceEndExact`,
  `MarketingRuns.AbandonedStaysRunning`); an ordinary sequence of two emails ends like this
  (`MarketingRuns.TwoEmailsAreAbandoned`).
- An email of a sequence that could not be sent is scheduled again an hour later, up to three times
  (internal/service/marketing/sequences.go:530-547). The token row is written before it is sent, so the
  next call finds the address unsubscribed and sends nothing (`MarketingEffects.RetryExact`).

## Model

| member | source | states |
|---|---|---|
| Ledger.UpsertSum | internal/db/repository/transaction_fills.sql.go:30-49 | the upsert moves the confirmed sum of its own transaction by exactly the gain of the delivery, and no other sum |
| Ledger.SumsAgree | internal/db/repository/transaction_fills.sql.go:113-134 | without merely observed fills, the sum shown to the customer is the sum that promotes |
| Ledger.SumsOfOneMore | internal/db/repository/transaction_fills.sql.go:108-142 | one more row adds its amount to the confirmed sum of its transaction if it is confirmed, to the shown sum unless it is reorged, and nothing to any other |
| Ledger.MergeExact | internal/db/repository/transaction_fills.sql.go:30-49 | a repetition raises the confirmations of its row to the greater number, confirms it if it has no fewer than are stored, never takes that back, and moves neither amount nor sender |
| Promises.LedgerConservation | internal/service/processing/service_incoming.go:199-272 | a recorded fact amount is the sum of the confirmed fills, and along every guarded continuation it, that sum and the rows behind it stay as they are |
| Promises.CreditedOnce | internal/service/transaction/service_update.go:245-361 | at most one credit per payment; each is the confirmed sum capped at the invoice amount minus the fee, or the whole sum of an accepted underpayment; a merchant balance is the sum of its credits |
| Promises.SuccessIsFinal | internal/service/payment/service.go:666-752 | along every guarded continuation a successful payment stays successful and is credited nothing more |
| Promises.StatusesDescend | internal/service/processing/service_incoming.go:142-302 | over any guarded run, however long, the status of a payment changes at most five times, always to one of lower rank |
| Promises.JointStatus | internal/service/processing/service_incoming.go:476-615 | which status of the latest transaction goes with which status of its payment, both ways, with the recorded hash and 0 < fact amount < amount where they are due |
| Promises.OneLiveTransaction | internal/service/processing/service.go:291-343 | all but the newest transaction of a payment are canceled, whichever creations failed after a cancel |
| Promises.PendingIsShort | internal/service/processing/service_incoming.go:79-137 | while an invoice is pending its confirmed sum is at least 0 and strictly below its amount, through partial fills, repetitions and reorgs, and equals what the customer is shown |
| Promises.ExpireEndsPartial | internal/service/processing/service_incoming.go:851-934 | expiry takes a partial payment out of that status if and only if its grace period is over: to underpaid with the confirmed sum as fact amount, or to failed with a canceled transaction |
| Promises.RecordedLifeIsBounded | internal/db/repository/payments.sql.go:549-563 | where the original expiry is recorded, no run moves the expiry back or past a day after it, and half an hour later any expire call ends a partial payment |
| Promises.CheckFinalizes | internal/service/processing/service_incoming.go:503-530 | a day after the last update a receipt check finalizes an in-progress transaction, unless it is confirmed and the fee exceeds what it gained, exactly then |
| Promises.SweepExact | internal/service/payment/service.go:397-421 | a payment that the sweep lists keeps its status if and only if a pending transaction is within its grace period |
| Promises.ListingExact | internal/service/processing/service_crosscurrency.go:153-165 | the listing of open invoices holds one exactly when fewer than the limit are newer |
| Promises.AttributionIsSafe | internal/service/processing/service_crosscurrency.go:190-238 | an automatic re-lock is never dust or an underpayment, and no other of the newest open invoices of the collector is nearly as close |
| Effects.CompletionExact | internal/service/transaction/service_update.go:245-361 | a good receipt of a valid transaction adds min(confirmed sum, invoice amount) minus the fee to the balance and to the audit log, completes it, and makes its payment successful; if that is negative, nothing changes |
| Effects.InvalidCompletionExact | internal/service/processing/service_incoming.go:533-585 | a good receipt of an invalid transaction completes it without fee and credit, and leaves the payment underpaid |
| Effects.UnconfirmedExact | internal/service/processing/service_incoming.go:494-531 | any other receipt fails transaction and payment if the transfer failed, or more than 86400 seconds after the last update, and changes nothing otherwise |
| Effects.OtherReceiptsAreIdle | internal/service/processing/service_incoming.go:476-492 | a receipt of a transaction that is not in progress changes nothing |
| Effects.RecheckExact | internal/service/processing/service_incoming.go:347-409 | the recheck reorgs exactly the confirmed fills of partial payments that were seen 1800 seconds ago or earlier and whose receipt is gone, and changes no other field of any row |
| Effects.DeclinedStaysFailed | internal/service/payment/service.go:730-752 | declining an underpaid payment makes it failed and changes nothing else; along every guarded continuation in which nobody resolves it, it stays failed and is never credited |
| Effects.AcceptanceExact | internal/service/payment/service.go:666-727 | accepting an underpaid payment credits the confirmed sum of its latest invoice once and makes it successful; accepting a failed one credits nothing |
| Effects.DecisionRefused | internal/service/payment/service.go:666-752 | a decision about the payment of another merchant, or in another status, changes nothing |
| Effects.MethodExact | internal/service/processing/service.go:291-343 | choosing a currency keeps the invoice if and only if a live one has that ticker on that network; otherwise a live one is canceled, and with a usable quote the latest transaction is a new pending one on the quoted terms |
| Effects.LockExact | internal/service/processing/service.go:268-288 | an editable payment is locked, for 1200 seconds, if and only if it has a customer and a transaction |
| Effects.CheckoutExact | internal/service/processing/service.go:268-343 | the four calls of a checkout, from any database, add one locked payment and its one pending invoice on the quoted terms, and change nothing else |
| Effects.UnlockedIsDueAfterAnHour | internal/service/payment/service.go:397-421 | a payment that is never locked is due for the sweep exactly when more than 3600 seconds have passed |
| Effects.ExpiryExact | internal/service/processing/service_incoming.go:851-950 | expiry spares a payment with a pending invoice for 1800 seconds; then it is underpaid for the confirmed sum, under hash and sender of the first fill, if that is positive, and failed with its invoice canceled if not |
| Effects.LedgerExact | internal/db/repository/transaction_fills.sql.go:30-76 | a delivery adds one row at the end of the ledger, or, when it has the row already, makes that row count |
| Effects.ShortDeliveryExact | internal/service/processing/service_incoming.go:79-197 | a delivery that leaves the invoice short is recorded and makes the payment partial until 1800 seconds from now, at most 86400 after the recorded or else the present expiry |
| Effects.CoveringDeliveryExact | internal/service/processing/service_incoming.go:199-302 | a delivery that covers the invoice promotes it for the whole sum, valid if and only if it covers at the second price read too |
| Effects.RefusedDeliveryExact | internal/service/processing/service_incoming.go:40-113 | a delivery without ticker, sender, hash or network, in other money, or that only a missing price can judge changes nothing |
| Effects.WatcherGuardExact | internal/db/repository/transaction_fills.sql.go:183-197 | after an accepted delivery the guard stops exactly what it stopped before and that hash on that network for that recipient, in any letter case |
| Effects.AttributionExact | internal/service/processing/service_crosscurrency.go:114-238 | the gates pass a transfer to an invoice if and only if it has currency and a positive amount, its hash is unbound at the collector, it is worth 0.50 or more and at most 0.10 less than the price, and no other of the newest fifty waiting invoices is nearer than a dollar and two per cent behind |
| Effects.RelockedExactly | internal/service/processing/service_crosscurrency.go:114-346 | a new invoice is made if and only if the transfer is for an old one; otherwise the database is unchanged |
| Effects.RelockRows | internal/service/processing/service_crosscurrency.go:270-346 | the new invoice is for what arrived, without fee and in progress, with its fill; the stale one is canceled if that succeeds; the payment is in progress |
| Effects.RelockUnnamed | internal/service/processing/service_crosscurrency.go:270-346 | without a hash or a named currency the inbound call is refused: the stale invoice is canceled all the same, the new one stays pending and the payment does not move |
| Preservation.GainIsAmountExactly | internal/db/repository/transaction_fills.sql.go:30-49 | a delivery gains what it delivers exactly when it is new to the ledger or a reorged row of the same amount; a repetition gains nothing |
| Preservation.RecheckedSum | internal/service/processing/service_incoming.go:347-409 | the recheck lowers no sum but those of partial payments, and raises none |
| Preservation.StepKeepsInv | internal/service/processing/service_incoming.go:79-950 | every guarded call keeps the joint invariant of payments, transactions, fills, balances and credits |
| Runs.StepWellFormed | internal/db/repository/transaction_fills.sql.go:30-35 | every call, guarded or not, keeps the references between the tables and the unique key of the fills |
| Runs.RunKeepsInv | internal/service/processing/service_incoming.go:79-950 | the joint invariant holds after every guarded run |
| Runs.RunEvolves | internal/service/processing/service_incoming.go:79-950 | over every guarded run terms are kept, expiries never move back, a finalized transaction is frozen and the audit log only grows |
| Runs.ExtensionNeverShortens | internal/service/payment/service.go:635-645 | the extension of a partial payment never shortens it, and respects the recorded cap |
| Limits.ResolveExact | internal/service/payment/service.go:666-727 | after resolving an underpaid payment some continuation credits it twice if and only if its latest transaction was not finalized |
| Limits.DeclineExact | internal/service/payment/service.go:730-752 | a declined payment can come back above its rank if and only if its latest transaction was not finalized |
| Limits.PromotionConservesExactly | internal/service/processing/service_webhook.go:237-260 | a promotion records what the ledger sums to if and only if the delivery is new to it |
| Limits.WatcherGuardSuffices | internal/db/repository/transaction_fills.sql.go:183-197 | a delivery that the watcher lets through is new to the ledger |
| Limits.ReorgedForever | internal/service/watcher/service.go:254-286 | along any run that the watcher's guard lets through, a reorged fill stays reorged |
| Limits.PromotionStatusExact | internal/service/processing/service_incoming.go:279-302 | a promotion reaches inProgress if and only if the second price read still covers the invoice, and otherwise leaves the payment as it was |
| Limits.ExtensionCapExact | internal/db/repository/payments.sql.go:549-563 | extensions are bounded at all if and only if the original expiry is recorded, and then by a day after it |
| Limits.DustOutlivesAnyDeadline | internal/service/payment/service.go:626-645 | from any live invoice with room for n units a guarded run of dust keeps the payment partial for n half hours more |
| Limits.NoDeadlineHolds | internal/service/payment/service.go:626-645 | for every n a guarded run from the empty database ends with a partial payment, not expired, that lives n half hours past its lock |
| Limits.TwoOutputsExact | internal/service/processing/service_incoming.go:154-168 | two transfers short of the invoice count together if and only if their hashes or networks differ |
| Reconciliation.ReconcileExact | internal/service/processing/service.go:579-621 | a reconciled fill of any amount, against a transaction in any status, leads to a double credit if and only if it is accepted, the payment was credited before, and the payment expires or the sum is one that a confirmation accepts |
| Reconciliation.PositiveFillReopens | internal/service/processing/service.go:579-621 | for a credited payment, a positive fill reopens it if and only if it seems to cover the invoice or the payment expires |
| Reconciliation.SuccessSurvivesExactly | internal/service/processing/service.go:579-621 | success survives a reconciled fill if and only if the call is refused, or the fill covers the invoice at the first price read and no longer at the second |
| Reconciliation.RunKeepsOnce | internal/service/transaction/service_update.go:245-361 | a payment that was credited at most once, and is closed if it was, stays so along every guarded run, whatever its ledger and fact amounts |
| Limits.RelockExact | internal/service/processing/service_crosscurrency.go:297-346 | an automatic re-lock promotes at once for exactly what arrived, and leaves one live transaction if and only if its cancel succeeds |
| Limits.CanceledIsNeverCredited | internal/service/transaction/service_update.go:475-520 | along every guarded continuation a canceled transaction stays as it is and no credit names it |
| Limits.PromotedLatestIsFinal | internal/service/processing/service.go:291-343 | once promoted, underpaid or closed, a payment gets no other transaction along any guarded run |
| Limits.RelockStrandsEarlierFills | internal/service/processing/service_crosscurrency.go:270-346 | a re-lock keeps the confirmed sum of the superseded invoice; no later credit names that invoice, and whatever is credited for the payment is at most the last transfer |
| Witnesses.ResolvedTooEarly | internal/service/payment/service.go:666-752 | a run reaches an underpaid payment whose resolve leads to a second credit and whose decline can be undone |
| Witnesses.DeliveredTwice | internal/service/processing/service_incoming.go:199-272 | a run reaches a partial payment of 6 of 10 units that a repetition promotes for 12 |
| Witnesses.SecondOutputIsLost | internal/service/processing/service_incoming.go:154-168 | 3 and 4 units with one hash count as 3 |
| Witnesses.PriceFell | internal/service/processing/service_incoming.go:274-302 | a promotion at two prices leaves an invalid transaction behind a payment still locked |
| Witnesses.ReconciledAfterSuccess | internal/service/processing/service.go:579-621 | a run reaches a credited payment that every positive reconciled fill, covering or not, opens to a second credit |
| Witnesses.CancelFailed | internal/service/processing/service_crosscurrency.go:297-346 | an attributed transfer whose cancel fails leaves two live transactions |
| Witnesses.StrandedFills | internal/service/processing/service_crosscurrency.go:270-346 | an attributed transfer strands 4 units of a partial payment |
| Witnesses.ReorgedIsReached | internal/service/watcher/service.go:254-286 | a run reaches a reorged fill that is new to the ledger when it is mined again, and that the watcher stops |
| Witnesses.NeverFinalized | internal/service/transaction/service_update.go:245-361 | a run reaches a confirmed transaction that no check finalizes, at any time after a day |
| Service.HeadIsFirstFill | internal/service/processing/service_incoming.go:411-432 | the head of the list of fills is the fill that names the hash and the sender at expiry |
| Service.ProcessingService.RecheckPartialFills | internal/service/processing/service_incoming.go:347-409 | flips exactly the flagged fills, and counts them |
| Attribution.ChooseCrossCurrencyInvoice | internal/service/processing/service_crosscurrency.go:70-100 | the two searches and the margin find the one invoice that beats all others, or none |
| Attribution.WinnerExact | internal/service/processing/service_crosscurrency.go:60-100 | an invoice is chosen if and only if it beats every other by the margin; a single one always is |
| Attribution.CloseIsNotPassedOver | internal/service/processing/service_crosscurrency.go:46-58 | an invoice closer than the margin is never passed over for another, and one that another matches at least as well is never chosen |
| Attribution.OrderFree | internal/service/processing/service_crosscurrency.go:70-100 | permuting the invoices permutes the answer |
| Money.String | internal/money/money.go:265-298 | prints sign, whole part and the trimmed fraction, for every value and every number of decimals |
| Money.RoundTrip | internal/money/money.go:265-298 | reading what was printed gives the value back, for every value, negative ones too, and every number of decimals |
| Money.TextIsInjective | internal/money/money.go:265-298 | different amounts with the same decimals never print alike |
| Money.FiatText | internal/money/money.go:265-298 | a fiat amount is printed with all its decimals behind a point, unless they are the two zeros of whole cents |
| Money.CryptoText | internal/money/money.go:265-298 | a crypto amount is printed with a point if and only if it is not whole, and then without zeros at its end |
| Money.ParseNumeral | internal/money/money.go:539-558 | the value, the error or the panic for every numeral with sign, point and underscores |
| Money.GroupedIsRead | internal/money/money.go:539-558 | a grouped numeral is read as its digits scaled by the length of its fraction as written, underscores included |
| Money.UnderscoreExact | internal/money/money.go:539-558 | the parser reads a grouped numeral as what it means if and only if no underscore stands behind the point or the number is zero |
| Money.ForeignCharacterIsRefused | internal/money/money.go:485-499 | a text with any other character is never read as a value |
| Money.CutToFiat | internal/money/money.go:573-590 | cutting the printed amount at the dot is division by 10^decimals rounded toward zero, and never fails |
| Money.CutIsFloorExactly | internal/money/money.go:573-590 | that is the floor if and only if the amount is not negative or is whole |
| Money.TruncateDecimals | internal/money/money.go:441-451 | the value without its part below a displayed unit |
| Money.CeilDecimals | internal/money/money.go:461-475 | the value raised to the next displayed unit, from a quotient rounded toward zero |
| Money.FloorIsGreatest | internal/money/money.go:435-451 | truncation gives the greatest displayable amount at or below the value |
| Money.CeilIsLeast | internal/money/money.go:453-475 | ceiling gives the least displayable amount at or above the value, less than a unit away |
| Money.TowardZeroExactly | internal/money/money.go:435-451 | truncation moves toward zero if and only if the value is not negative or is displayable |
| Money.DisplayFits | internal/service/processing/service.go:208-212 | a displayable amount prints no more decimals than are shown |
| Money.LockAmount | internal/service/processing/service.go:520-567 | a collector lock is displayable and covers the raw conversion; it exceeds it by one displayed unit to less than a thousand with dust, and by less than one when no random number is to be had |
| Money.GenerateDustAmount | internal/service/processing/service.go:646-663 | the dust is 1 to 999 displayed units |
| Display.PayingShownRemainder | internal/service/processing/service.go:225-239 | paying the shown remainder promotes if and only if the tolerance is at least the part cut off, else the payment stays partial |
| Display.ExactPayersNeedNoTolerance | internal/service/processing/service.go:225-239 | after displayable payments of a displayable invoice the shown remainder is all of it and promotes without any price |
| Base58.DecodeIn | internal/service/evmcollector/balance.go:357-381 | the decoder refuses exactly the strings with a foreign character and rebases all others |
| Base58.Bijection | internal/service/evmcollector/balance.go:357-381 | decoding and encoding are inverse on all strings over the alphabet and all byte arrays |
| Base58.LeadingOnesAreZeroBytes | internal/service/evmcollector/balance.go:371-380 | leading ones match leading zero bytes exactly |
| Base58.StandardIsAlphabet | internal/service/evmcollector/balance.go:358 | the alphabet has 58 different characters and starts with 1 |
| Base58.PayloadOnly | internal/service/evmcollector/balance.go:347-354 | two encoded addresses are read alike if and only if their payloads are equal, whatever their checksums |
| Base58.HexDenotes | internal/service/evmcollector/balance.go:347-354 | byte after byte, the hexadecimal text has the sixteens and then the ones |
| Pagination.List | internal/service/payment/service.go:198-278 | one call gives the page, the cursor or the failure that `Listed` says |
| Pagination.QueryResult | internal/db/repository/payments.sql.go:375-441 | the query skips to the cursor and takes up to the limit |
| Pagination.EveryPaymentOnce | internal/service/payment/service.go:198-278 | following the cursors ends and yields every matching payment of the merchant once, in order, ascending or descending, for every limit from 0 to 100 |
| Pagination.LimitExact | internal/service/payment/service.go:198-208 | which limits are refused, fail in the query or panic |
| Rpc.DialExact | internal/provider/rpc/provider.go:199-262 | the dial picks the first endpoint that may be tried and works, demotes exactly those tried before it, promotes it, and touches no other |
| Rpc.LookupRotates | internal/service/blockchain/service_broadcaster.go:177-237 | a lookup shorter than the recovery interval asks at each turn the first listed endpoint that works, could be tried at the start and was neither asked nor dialed in vain since; gives up only when there is none; demotes exactly those that refuse or are dialed in vain; and ends with the first answer or the last refusal |
| Rpc.DownIsSkipped | internal/provider/rpc/provider.go:265-280 | a demoted endpoint is neither asked nor touched before its recovery |
| Rpc.RecoversExactly | internal/provider/rpc/provider.go:265-280 | an endpoint that works, with none before it that does, is picked if and only if it has not failed, has worked since, or failed 120 seconds ago or earlier |
| Rpc.Provider.DialWithFailover | internal/provider/rpc/provider.go:205-262 | leaves the health map and the endpoint of `Dial` |
| Rpc.Provider.GetReceipt | internal/service/blockchain/service_broadcaster.go:197-237 | leaves the health map, the endpoints asked and the result of `Ask` |
| MarketingService.Service.ProcessQueue | internal/service/marketing/service.go:298-423 | leaves exactly the state of `QueueTick` |
| MarketingService.Service.SendBatch | internal/service/marketing/service.go:371-421 | sends the batch email by email until the quota is used up, and leaves the state of `DeliverAll` |
| MarketingRuns.QuotaIsKept | internal/service/marketing/service.go:445-479 | over any run of ticks, campaigns and sequences together, the count of a day never exceeds the limit of its row |
| MarketingRuns.CampaignsAreAccounted | internal/service/marketing/service.go:222-431 | in every reachable state the counters are the numbers of recipients by status and add up to the total, and a completed campaign has nobody waiting |
| MarketingRuns.OutcomeIsFinal | internal/service/marketing/service.go:402-421 | a recipient leaves `pending` once |
| MarketingRuns.CompletedSequenceIsDone | internal/service/marketing/sequences.go:549-563 | a completed sequence has no active enrollment |
| MarketingRuns.OneMailPerEnrollment | internal/service/marketing/sequences.go:424-499 | over any run an enrollment is mailed twice only if its address has blanks around it |
| MarketingRuns.SecondStepExact | internal/service/marketing/sequences.go:424-499 | after a first email the next call mails again if and only if the address has blanks around it, and unsubscribes it otherwise |
| MarketingRuns.EffortDescends | internal/service/marketing/sequences.go:424-547 | steps left plus attempts left goes down by one with every call that leaves the enrollment active |
| MarketingRuns.EnrollmentEnds | internal/service/marketing/sequences.go:424-547 | however calls are mixed, an enrollment is left active at most as often as it has steps and attempts left |
| MarketingRuns.SequenceEndExact | internal/service/marketing/sequences.go:424-563 | when the last active enrollment is called, the sequence completes if and only if the address is subscribed and not converted, and no step is left or the last one is sent; else it is left running with nobody to mail, unless the enrollment stays active |
| MarketingRuns.AbandonedStaysRunning | internal/service/marketing/sequences.go:221-563 | a running sequence without active enrollments stays so along every run that neither pauses nor cancels it |
| MarketingRuns.TwoEmailsAreAbandoned | internal/service/marketing/sequences.go:424-563 | a run from the empty state in which a two-step sequence sends its first email and is left running |
| MarketingRuns.MailedIsNeverAddressedAgain | internal/service/marketing/service.go:379-390 | no campaign or sequence launched after an email has a row for its address, in any letter case, unless the address had blanks around it |
| MarketingEffects.BatchExact | internal/service/marketing/service.go:326-363 | a batch is exactly the first waiting recipients of its campaign, as many as it has room for |
| MarketingEffects.ServeExact | internal/service/marketing/service.go:326-433 | the first ten waiting recipients of a campaign, or as many as the quota has room for, are sent or bounce, and only what was sent is counted; a campaign without any is completed |
| MarketingEffects.FirstCampaignFirst | internal/service/marketing/service.go:298-423 | a tick with quota left serves the campaign that was started first like that, whatever else it serves |
| MarketingEffects.TickExact | internal/service/marketing/service.go:298-480 | a tick counts at most what the lower of the two limits leaves for its day, for no other day, and does nothing when that is used up |
| MarketingEffects.LaunchExact | internal/service/marketing/service.go:222-270 | a campaign is launched if and only if it is a draft or paused and somebody of its audience is subscribed; then exactly those who are get a row |
| MarketingEffects.SequenceLaunchExact | internal/service/marketing/sequences.go:221-244 | a sequence is launched if and only if it is a draft or paused, has a step, and somebody of its audience is subscribed |
| MarketingEffects.SequenceLaunchRows | internal/service/marketing/sequences.go:246-284 | then exactly those who are subscribed are enrolled, newcomers from the first step on, and the sequence keeps the start it has |
| MarketingEffects.EndExact | internal/service/marketing/sequences.go:424-547 | which call ends an enrollment as unsubscribed, converted, finished or, at the third failure, given up |
| MarketingEffects.ScheduleExact | internal/service/marketing/sequences.go:424-547 | what a call mails and counts, and when the next is due: 3600 seconds after a failure, at the offset of the next step after a success |
| MarketingEffects.RetryExact | internal/service/marketing/sequences.go:481-547 | an email that could not be sent is tried again if and only if its address has blanks around it |
| MarketingEffects.MissingTemplateGivesUp | internal/service/marketing/sequences.go:470-547 | a step without a template fails three times, mails nobody, and then the enrollment is given up |
| MarketingEffects.TransitionsExact | internal/service/marketing/sequences.go:286-316 | from which statuses a sequence is paused, resumed and canceled |
| MarketingEffects.OneEmailIsSent | internal/service/marketing/service.go:222-433 | a run from the empty state sends a campaign of one email and completes it in the next tick |
| MarketingEffects.TrimExact | internal/service/marketing/service.go:385 | trimming takes exactly the blanks off both ends of an address |
| MarketingEffects.LowerExact | internal/service/marketing/service.go:385 | capital letters become small ones, and nothing else changes |

## Left out

- Interleavings inside one service call, failing database writes and more than one clock value per call: each call is one atomic step.
- Protocol.Guard: what an inbound step does to a payment when its transaction is not the latest one, or
  when the amount of a delivery other than a reconciled one is not positive, is not stated.
- The rows that one poll of the watcher holds in memory while others write: a step reads the tables as they are.
- Unexpected transactions of the system merchant, withdrawals, internal and virtual transactions, network fees and the hot-wallet ledger.
- How an invoice amount comes about before it is rounded (price, markup, service fee, float64 and big.Float arithmetic): a quote is an input.
- Attribution.ChooseCrossCurrencyInvoice: computes on reals; the rounding of float64 is not modelled.
- Matching a transfer to one of several invoices of the same currency by amount, in the watcher; which transaction an inbound step is for is an input.
- The columns block_number, confirmed_at and metadata, emails, webhooks, events and logging.
- A test network is another network id; the order of equal timestamps is the order of insertion.
- lower() and TrimSpace work on ASCII; a string is the sequence of its bytes.
- Service.ProcessingService.RecheckPartialFills: the inner loop over the fills of one transaction is a method of its own.
- MarketingService.Service.ProcessQueue: the inner loops are methods of their own, and a tick lies within one quota day.
- Relaunching a paused campaign, which would reset its counters: no call pauses a campaign, and the invariant says that none is paused.
- The library's Base58 encoder, the checksum of an address and everything that asks a chain.
- GetBatchExpired: the limit and the order of its batch.
- Which endpoint URLs a chain is configured with, and timeouts: the endpoint list is an input.
- HTTP, SMTP, configuration, subscriptions, contacts, users and tokens: input, output and single queries.
