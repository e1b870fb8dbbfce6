/** The promises of the payment flow, for every database that a guarded run can reach. */
module Promises {
  import opened Domain
  import opened Ledger
  import opened Steps
  import opened Protocol
  import opened Invariant
  import opened Preservation
  import opened Runs
  import Attribution

  ghost predicate Reachable(db: Database) {
    exists events :: Guarded(EMPTY, events) && Run(EMPTY, events) == db
  }

  lemma ReachableIsOk(db: Database)
    requires Reachable(db)
    ensures Inv(db)
  {
    var events :| Guarded(EMPTY, events) && Run(EMPTY, events) == db;
    EmptyIsOk();
    RunKeepsInv(EMPTY, events);
  }

  /** A recorded fact amount is the sum of the confirmed fills, and neither it nor the rows
      behind it change in any continuation. */
  lemma LedgerConservation(db: Database, events: seq<Event>, t: nat)
    requires Reachable(db) && Guarded(db, events)
    requires t < |db.transactions| && db.transactions[t].factAmount.Some?
    ensures db.transactions[t].factAmount == Some(SumConfirmed(db.fills, t))
    ensures var later := Run(db, events);
      && t < |later.transactions|
      && later.transactions[t].factAmount == db.transactions[t].factAmount
      && SumConfirmed(later.fills, t) == SumConfirmed(db.fills, t)
      && LedgerFrozen(db.fills, later.fills, t)
  {
    ReachableIsOk(db);
    assert PaymentOk(db, db.transactions[t].entityID);
    RunKeepsInv(db, events);
    RunEvolves(db, events);
    var later := Run(db, events);
    assert TransactionEvolves(db.transactions[t], later.transactions[t]);
    assert PaymentOk(later, later.transactions[t].entityID);
  }

  /** Every payment is credited at most once; a credit is the confirmed sum of its invoice,
      capped at the invoice amount and minus the fee unless the merchant accepted an
      underpayment; and a merchant balance is the sum of these credits. */
  lemma CreditedOnce(db: Database)
    requires Reachable(db)
    ensures forall i, j :: 0 <= i < j < |db.credits| ==> db.credits[i].paymentID != db.credits[j].paymentID
    ensures forall key :: BalanceOf(db, key) == CreditTotal(db.credits, key)
    ensures forall i :: 0 <= i < |db.credits| ==>
      var c := db.credits[i];
      && c.transactionID < |db.transactions| && c.paymentID < |db.payments|
      && db.payments[c.paymentID].status == PaymentSuccess
      && var tx, received := db.transactions[c.transactionID], SumConfirmed(db.fills, c.transactionID);
      && c.key == BalanceKey(tx.merchantID, tx.currency.ticker, tx.currency.networkID) && 0 <= c.amount <= received
      && c.amount == if tx.status == CompletedInvalid then received
                     else (if received > tx.amount then tx.amount else received) - tx.serviceFee
  {
    ReachableIsOk(db);
    forall i | 0 <= i < |db.credits| ensures
      var c := db.credits[i];
      && c.transactionID < |db.transactions| && c.paymentID < |db.payments|
      && db.payments[c.paymentID].status == PaymentSuccess
      && var tx, received := db.transactions[c.transactionID], SumConfirmed(db.fills, c.transactionID);
      && c.key == BalanceKey(tx.merchantID, tx.currency.ticker, tx.currency.networkID) && 0 <= c.amount <= received
      && c.amount == if tx.status == CompletedInvalid then received
                     else (if received > tx.amount then tx.amount else received) - tx.serviceFee
    {
      var c := db.credits[i];
      assert CreditOk(db, c);
      assert PaymentOk(db, c.paymentID);
      assert TransactionOk(db.transactions[c.transactionID], SumConfirmed(db.fills, c.transactionID));
    }
  }

  function CreditsOf(credits: seq<Credit>, p: nat): seq<Credit> {
    if |credits| == 0 then []
    else CreditsOf(credits[..|credits| - 1], p)
         + if credits[|credits| - 1].paymentID == p then [credits[|credits| - 1]] else []
  }

  lemma {:induction false} CreditsOfPrefix(a: seq<Credit>, b: seq<Credit>, p: nat)
    requires a <= b
    requires forall i :: |a| <= i < |b| ==> b[i].paymentID != p
    ensures CreditsOf(a, p) == CreditsOf(b, p)
    decreases |b|
  {
    if |a| < |b| {
      CreditsOfPrefix(a, b[..|b| - 1], p);
    } else {
      assert a == b;
    }
  }

  /** Success is final: whatever comes later, the payment stays successful and the merchant
      is credited nothing more for it. */
  lemma SuccessIsFinal(db: Database, events: seq<Event>, p: nat)
    requires Reachable(db) && Guarded(db, events)
    requires p < |db.payments| && db.payments[p].status == PaymentSuccess
    ensures var later := Run(db, events);
      && p < |later.payments| && later.payments[p].status == PaymentSuccess
      && CreditsOf(later.credits, p) == CreditsOf(db.credits, p)
  {
    ReachableIsOk(db);
    SuccessIsFinalFrom(db, events, p);
  }

  /** The new lines of the audit log are not about payment p. */
  predicate CreditsOthers(db: Database, after: Database, p: nat) {
    && db.credits <= after.credits
    && forall i :: |db.credits| <= i < |after.credits| ==> after.credits[i].paymentID != p
  }

  lemma CheckCreditsOthers(db: Database, t: nat, receipt: Receipt, p: nat)
    requires Inv(db) && p < |db.payments| && db.payments[p].status == PaymentSuccess
    ensures CreditsOthers(db, CheckIncoming(db, t, receipt).db, p)
  {
    if t < |db.transactions| && db.transactions[t].status.IsInProgress() {
      PendingIsLatest(db, t);
    }
  }

  lemma AttributionCreditsNobody(db: Database, u: Unmatched)
    requires Inv(db) && Guard(db, Attributes(u, true))
    ensures ResolveUnmatched(db, u, true).db.credits == db.credits
  {
    match Attributed(db, u)
    case None =>
    case Some(inv) => AutoAcceptEffect(db, inv, u);
  }

  lemma ExpiryCreditsNobody(db: Database, p: nat)
    requires db.WellFormed()
    ensures Expire(db, p).db.credits == db.credits
  {
  }

  lemma InboundCreditsNobody(db: Database, t: nat, input: Input, tolerance: Tolerance)
    requires db.WellFormed()
    ensures ProcessInbound(db, t, input, tolerance).db.credits == db.credits
  {
  }

  lemma SetMethodCreditsNobody(db: Database, p: nat, currency: Currency, quote: Option<Quote>)
    ensures SetPaymentMethod(db, p, currency, quote).db.credits == db.credits
  {
  }

  /** In one step nothing is credited to a payment that is already successful. */
  lemma StepCreditsOthers(db: Database, e: Event, p: nat)
    requires Inv(db) && Guard(db, e)
    requires p < |db.payments| && db.payments[p].status == PaymentSuccess
    ensures CreditsOthers(db, Step(db, e), p)
  {
    match e
    case Checks(t, receipt) => CheckCreditsOthers(db, t, receipt, p);
    case Attributes(u, _) => AttributionCreditsNobody(db, u);
    case Expires(q) => ExpiryCreditsNobody(db, q);
    case Receives(t, input, tolerance) => InboundCreditsNobody(db, t, input, tolerance);
    case SetsMethod(q, currency, quote) => SetMethodCreditsNobody(db, q, currency, quote);
    case Resolves(merchantID, q) => assert CreditsOthers(db, Resolve(db, merchantID, q).db, p);
    case Declines(merchantID, q) => assert Decline(db, merchantID, q).db.credits == db.credits;
    case Locks(q) => assert LockPaymentOptions(db, q).db.credits == db.credits;
    case _ =>
  }

  lemma {:induction false} SuccessIsFinalFrom(db: Database, events: seq<Event>, p: nat)
    requires Inv(db) && Guarded(db, events)
    requires p < |db.payments| && db.payments[p].status == PaymentSuccess
    ensures var later := Run(db, events);
      && p < |later.payments| && later.payments[p].status == PaymentSuccess
      && CreditsOf(later.credits, p) == CreditsOf(db.credits, p)
    decreases |events|
  {
    if |events| > 0 {
      var next := Step(db, events[0]);
      StepKeepsInv(db, events[0]);
      StepEvolves(db, events[0]);
      StepCreditsOthers(db, events[0], p);
      assert PaymentEvolves(db.payments[p], next.payments[p]);
      CreditsOfPrefix(db.credits, next.credits, p);
      SuccessIsFinalFrom(next, events[1..], p);
    }
  }

  /** How often the status of payment p changes along a run. */
  function StatusChanges(db: Database, events: seq<Event>, p: nat): nat
    requires db.WellFormed() && p < |db.payments|
    decreases |events|
  {
    if |events| == 0 then 0
    else
      StepWellFormed(db, events[0]);
      var next := Step(db, events[0]);
      if |next.payments| <= p then 0
      else (if next.payments[p].status != db.payments[p].status then 1 else 0)
           + StatusChanges(next, events[1..], p)
  }

  lemma {:induction false} StatusesDescendFrom(db: Database, events: seq<Event>, p: nat)
    requires Inv(db) && Guarded(db, events) && p < |db.payments|
    ensures p < |Run(db, events).payments|
    ensures StatusChanges(db, events, p) + Rank(Run(db, events).payments[p].status) <= Rank(db.payments[p].status)
    decreases |events|
  {
    if |events| > 0 {
      var next := Step(db, events[0]);
      StepKeepsInv(db, events[0]);
      StepEvolves(db, events[0]);
      assert PaymentEvolves(db.payments[p], next.payments[p]);
      StatusesDescendFrom(next, events[1..], p);
    }
  }

  /** No going back: however long the run, a payment changes status at most five times,
      each time to a status of lower rank. */
  lemma StatusesDescend(db: Database, events: seq<Event>, p: nat)
    requires Reachable(db) && Guarded(db, events) && p < |db.payments|
    ensures p < |Run(db, events).payments|
    ensures StatusChanges(db, events, p) <= Rank(db.payments[p].status) - Rank(Run(db, events).payments[p].status) <= 5
  {
    ReachableIsOk(db);
    StatusesDescendFrom(db, events, p);
  }

  /** The joint status of a payment and its latest transaction. */
  lemma JointStatus(db: Database, p: nat)
    requires Reachable(db) && p < |db.payments|
    ensures var latest, status := Latest(db.transactions, p), db.payments[p].status;
      && (status == PaymentPartial ==>
            latest.Some? && db.transactions[latest.value].status == Pending && HasFill(db, latest.value))
      && (status == PaymentInProgress ==>
            && latest.Some? && db.transactions[latest.value].status == InProgress
            && db.transactions[latest.value].hashID.Some?)
      && (status == PaymentUnderpaid ==>
            && latest.Some? && db.transactions[latest.value].factAmount.Some?
            && 0 < db.transactions[latest.value].factAmount.value < db.transactions[latest.value].amount
            && (db.transactions[latest.value].status == InProgressInvalid
                || db.transactions[latest.value].status == CompletedInvalid))
      && (latest.Some? && db.transactions[latest.value].status == InProgress ==> status == PaymentInProgress)
      && (latest.Some? && db.transactions[latest.value].status == InProgressInvalid ==> status == PaymentUnderpaid)
      && (latest.Some? && db.transactions[latest.value].status == Completed ==> status == PaymentSuccess)
  {
    ReachableIsOk(db);
    assert PaymentOk(db, p);
  }

  /** One live transaction: all but the newest transaction of a payment are canceled. */
  lemma OneLiveTransaction(db: Database, t: nat)
    requires Reachable(db) && t < |db.transactions|
    ensures db.transactions[t].status != Cancelled ==>
              Latest(db.transactions, db.transactions[t].entityID) == Some(t)
  {
    ReachableIsOk(db);
    assert PaymentOk(db, db.transactions[t].entityID);
  }

  /** While an invoice is pending it is short of its amount, and the customer is shown what
      the promotion counts. */
  lemma PendingIsShort(db: Database, t: nat)
    requires Reachable(db) && t < |db.transactions| && db.transactions[t].status == Pending
    ensures 0 <= SumConfirmed(db.fills, t) < db.transactions[t].amount
    ensures SumAll(db.fills, t) == SumConfirmed(db.fills, t)
  {
    ReachableIsOk(db);
    PendingIsLatest(db, t);
    SumNonNegative(db.fills, t, ConfirmedOnly);
    SumsAgree(db.fills, t);
  }

  // ---------------------------------------------------------------- bounded life

  /** An expire call takes a partial payment out of that status exactly when its grace
      period is over; what it becomes depends on whether anything confirmed is left. */
  lemma ExpireEndsPartial(db: Database, p: nat)
    requires Reachable(db) && p < |db.payments|
    requires db.payments[p].status == PaymentPartial && db.payments[p].kind == TypePayment
    ensures db.payments[p].expiresAt.Some? && Latest(db.transactions, p).Some?
    ensures var after, t := Expire(db, p).db, Latest(db.transactions, p).value;
      && (after.payments[p].status != PaymentPartial <==>
            db.now >= db.payments[p].expiresAt.value + GRACE_PERIOD)
      && (after.payments[p].status != PaymentPartial ==>
            if SumConfirmed(db.fills, t) > 0
            then && after.payments[p].status == PaymentUnderpaid
                 && after.transactions[t].status == InProgressInvalid
                 && after.transactions[t].factAmount == Some(SumConfirmed(db.fills, t))
            else after.payments[p].status == PaymentFailed && after.transactions[t].status == Cancelled)
  {
    ReachableIsOk(db);
    assert PaymentOk(db, p);
    var t := Latest(db.transactions, p).value;
    SumNonNegative(db.fills, t, ConfirmedOnly);
    if SumConfirmed(db.fills, t) != 0 {
      FirstFillIsUsable(db, t);
    }
  }

  /** Where the original expiry is recorded, life is bounded: along any guarded run the expiry
      never moves back and never passes a day after the original, and half an hour later any
      expire call ends a partial payment. */
  lemma RecordedLifeIsBounded(db: Database, events: seq<Event>, p: nat)
    requires Inv(db) && Guarded(db, events)
    requires p < |db.payments| && db.payments[p].originalExpiresAt.Some? && db.payments[p].kind == TypePayment
    ensures var later, last := Run(db, events), db.payments[p].originalExpiresAt.value + EXTENSION_CAP;
      && p < |later.payments| && later.payments[p].expiresAt.Some?
      && (db.payments[p].expiresAt.Some? ==> db.payments[p].expiresAt.value <= later.payments[p].expiresAt.value)
      && later.payments[p].expiresAt.value <= last
      && (later.payments[p].status == PaymentPartial && later.now >= last + GRACE_PERIOD ==>
            Expire(later, p).db.payments[p].status != PaymentPartial)
  {
    RunKeepsInv(db, events);
    RunEvolves(db, events);
    assert PaymentEvolves(db.payments[p], Run(db, events).payments[p]);
    assert PaymentOk(Run(db, events), p);
  }

  /** A receipt check more than a day after the last update finalizes an in-progress
      transaction, unless the chain confirms it and the service fee exceeds what it gained. */
  lemma CheckFinalizes(db: Database, t: nat, receipt: Receipt)
    requires Reachable(db) && t < |db.transactions| && db.transactions[t].status.IsInProgress()
    requires db.now - db.transactions[t].updatedAt > IN_PROGRESS_TIMEOUT
    ensures db.transactions[t].factAmount.Some?
    ensures CheckIncoming(db, t, receipt).db.transactions[t].status.IsFinalized() <==>
            !(&& receipt.Receipt? && receipt.isConfirmed && receipt.success
              && db.transactions[t].status == InProgress
              && Gained(db.transactions[t], db.transactions[t].factAmount.value) < 0)
  {
    ReachableIsOk(db);
    PendingIsLatest(db, t);
  }

  /** The nightly sweep: GetBatchExpired lists the payment, if the batch has room for it. */
  predicate Due(row: Payment, now: int) {
    && row.kind == TypePayment
    && (row.status == PaymentPending || row.status == PaymentLocked || row.status == PaymentPartial)
    && (if row.expiresAt.Some? then row.expiresAt.value < now
        else row.createdAt < now - EXPIRATION_PERIOD_FOR_NOT_LOCKED)
  }

  /** When a listed payment that is still open is closed by the sweep. */
  lemma SweepExact(db: Database, p: nat)
    requires Reachable(db) && p < |db.payments| && Due(db.payments[p], db.now)
    ensures var row, after := db.payments[p], Expire(db, p).db;
      && Rank(after.payments[p].status) <= Rank(row.status)
      && (after.payments[p].status == row.status <==>
            && row.expiresAt.Some? && LatestStatus(db, p) == Some(Pending)
            && db.now < row.expiresAt.value + GRACE_PERIOD)
      && (row.expiresAt.None? <==> row.status == PaymentPending)
  {
    ReachableIsOk(db);
    assert PaymentOk(db, p);
  }

  // ---------------------------------------------------------------- cross-currency attribution

  /** How many open invoices of the collector are newer than transaction t. */
  function CountNewer(txs: seq<Transaction>, collector: string, t: nat): nat
    requires t < |txs|
    decreases |txs|
  {
    var last := |txs| - 1;
    if t == last then 0
    else CountNewer(txs[..last], collector, t) + if IsOpenInvoice(txs[last], collector) then 1 else 0
  }

  /** The listing holds an open invoice exactly when fewer than the limit are newer. */
  lemma {:induction false} ListingExact(txs: seq<Transaction>, collector: string, limit: nat, t: nat)
    requires t < |txs| && IsOpenInvoice(txs[t], collector)
    ensures t in OpenInvoices(txs, collector, limit) <==> CountNewer(txs, collector, t) < limit
    decreases |txs|
  {
    var last := |txs| - 1;
    var rest := txs[..last];
    if t < last && limit > 0 {
      var open := IsOpenInvoice(txs[last], collector);
      var less := if open then limit - 1 else limit;
      ListingExact(rest, collector, less, t);
      assert OpenInvoices(txs, collector, limit) == (if open then [last] else []) + OpenInvoices(rest, collector, less);
    }
  }

  function PriceOf(db: Database, t: nat): real
    requires db.WellFormed() && t < |db.transactions|
  {
    db.payments[db.transactions[t].entityID].price
  }

  /** An automatic re-lock is never an underpayment or dust, and no other of the newest open
      invoices of the collector is nearly as close. */
  lemma AttributionIsSafe(db: Database, u: Unmatched, t: nat)
    requires db.WellFormed() && Attributed(db, u).Some?
    requires t < |db.transactions| && IsOpenInvoice(db.transactions[t], u.collector)
    ensures var value, inv := u.fiatValue.value, Attributed(db, u).value;
      && u.fiatValue.Some? && value >= CROSS_CURRENCY_DUST_FIAT
      && value + CROSS_CURRENCY_FIAT_TOLERANCE >= PriceOf(db, inv)
      && (CountNewer(db.transactions, u.collector, t) < MAX_OPEN_INVOICES && t != inv ==>
            Attribution.Distance(value, PriceOf(db, t)) - Attribution.Distance(value, PriceOf(db, inv))
              >= Attribution.Margin(value))
  {
    ListingExact(db.transactions, u.collector, MAX_OPEN_INVOICES, t);
    var invoices := OpenInvoices(db.transactions, u.collector, MAX_OPEN_INVOICES);
    var prices := Prices(db, invoices);
    var w := Attribution.Winner(u.fiatValue.value, prices).value;
    if CountNewer(db.transactions, u.collector, t) < MAX_OPEN_INVOICES && t != invoices[w] {
      var j :| 0 <= j < |invoices| && invoices[j] == t;
      assert prices[j] == PriceOf(db, t);
    }
  }
}
