/** What each call does to the tables, spelled out in rows, amounts and seconds, for every
    database that a guarded run reaches. */
module Effects {
  import opened Domain
  import opened Ledger
  import opened Steps
  import opened Protocol
  import opened Invariant
  import opened Preservation
  import opened Runs
  import opened Promises
  import Attribution

  function BalanceAt(db: Database, key: BalanceKey): int {
    if key in db.balances then db.balances[key] else 0
  }

  // ---------------------------------------------------------------- receipt check

  /** Behind a transaction in progress its payment waits, and the recorded amount is the sum. */
  lemma InProgressRows(db: Database, t: nat)
    requires Reachable(db) && t < |db.transactions| && db.transactions[t].status.IsInProgress()
    ensures var tx, p := db.transactions[t], db.transactions[t].entityID;
      && db.WellFormed() && p < |db.payments|
      && (tx.status == InProgressInvalid ==> db.payments[p].status == PaymentUnderpaid)
      && tx.hashID.Some? && tx.senderAddress.Some? && tx.recipient != ""
      && tx.factAmount == Some(SumConfirmed(db.fills, t)) && SumConfirmed(db.fills, t) > 0
  {
    ReachableIsOk(db);
    PendingIsLatest(db, t);
  }

  /** A good receipt of a valid transaction pays the merchant what was confirmed, at most the
      invoice amount, minus the service fee, and makes the payment successful; if the fee is
      more than that, nothing happens. */
  lemma CompletionExact(db: Database, t: nat)
    requires Reachable(db) && t < |db.transactions| && db.transactions[t].status == InProgress
    ensures var tx, p, received := db.transactions[t], db.transactions[t].entityID, SumConfirmed(db.fills, t);
            var gain := (if received > tx.amount then tx.amount else received) - tx.serviceFee;
            var key := BalanceKey(tx.merchantID, tx.currency.ticker, tx.currency.networkID);
      && p < |db.payments|
      && CheckIncoming(db, t, Receipt(true, true)) ==
           if gain < 0 then Result(db, Refused(NegativeMoney))
           else Result(db.(
                  payments := db.payments[p := db.payments[p].(status := PaymentSuccess)],
                  transactions := db.transactions[t := tx.(status := Completed, updatedAt := db.now)],
                  balances := db.balances[key := BalanceAt(db, key) + gain],
                  credits := db.credits + [Credit(key, p, t, gain)]), Done)
  {
    InProgressRows(db, t);
  }

  /** A good receipt of an invalid transaction credits nothing: the merchant has to decide. */
  lemma InvalidCompletionExact(db: Database, t: nat)
    requires Reachable(db) && t < |db.transactions| && db.transactions[t].status == InProgressInvalid
    ensures var tx, p := db.transactions[t], db.transactions[t].entityID;
      && p < |db.payments| && db.payments[p].status == PaymentUnderpaid
      && CheckIncoming(db, t, Receipt(true, true)) == Result(
           db.(transactions := db.transactions[t := tx.(
             status := CompletedInvalid, updatedAt := db.now, serviceFee := 0)]), Done)
  {
    InProgressRows(db, t);
  }

  /** Any other receipt fails transaction and payment when the chain says that the transfer
      failed, or more than a day after the last update; else it changes nothing. */
  lemma UnconfirmedExact(db: Database, t: nat, receipt: Receipt)
    requires Reachable(db) && t < |db.transactions|
    requires db.transactions[t].status == InProgress || db.transactions[t].status == InProgressInvalid
    requires receipt != Receipt(true, true)
    ensures var tx, p := db.transactions[t], db.transactions[t].entityID;
      && p < |db.payments|
      && CheckIncoming(db, t, receipt) ==
           if receipt == Receipt(true, false) || db.now - tx.updatedAt > 86400
           then Result(db.(
                  payments := db.payments[p := db.payments[p].(status := PaymentFailed)],
                  transactions := db.transactions[t := tx.(status := Failed, updatedAt := db.now)]), Done)
           else Result(db, if receipt.FetchFailed? then Refused(ReceiptUnavailable) else Done)
  {
    InProgressRows(db, t);
  }

  /** A receipt of a transaction that is not in progress changes nothing. */
  lemma OtherReceiptsAreIdle(db: Database, t: nat, receipt: Receipt)
    requires db.WellFormed()
    requires t < |db.transactions| ==>
               db.transactions[t].status != InProgress && db.transactions[t].status != InProgressInvalid
    ensures CheckIncoming(db, t, receipt).db == db
  {
  }

  // ---------------------------------------------------------------- reorg recheck

  /** The recheck takes fill f back: its payment is partial, it was confirmed, that was seen
      half an hour ago at least, and its receipt is gone. */
  predicate TakesBack(db: Database, gone: set<nat>, f: nat)
    requires db.WellFormed() && f < |db.fills|
  {
    && db.payments[db.transactions[db.fills[f].transactionID].entityID].status == PaymentPartial
    && db.fills[f].status == Confirmed && db.now - db.fills[f].observedAt >= 1800 && f in gone
  }

  function TakenBack(db: Database, gone: set<nat>): set<nat>
    requires db.WellFormed()
  {
    set f: nat | f < |db.fills| && TakesBack(db, gone, f)
  }

  /** Those fills are reorged, and are otherwise as before; so are all others. */
  ghost predicate ReorgsExactly(before: seq<Fill>, after: seq<Fill>, ids: set<nat>) {
    && |after| == |before|
    && forall f: nat :: f < |before| ==>
         after[f] == if f in ids then before[f].(status := Reorged) else before[f]
  }

  /** Exactly those fills change, and of those only the status; nothing else does. */
  lemma RecheckExact(db: Database, gone: set<nat>)
    requires db.WellFormed()
    ensures var after := RecheckPartialFills(db, gone);
      after.(fills := db.fills) == db && ReorgsExactly(db.fills, after.fills, TakenBack(db, gone))
  {
  }

  // ---------------------------------------------------------------- merchant decisions

  predicate NeverResolves(events: seq<Event>, p: nat) {
    forall i :: 0 <= i < |events| ==> !(events[i].Resolves? && events[i].payment == p)
  }

  lemma CheckNeverReopens(db: Database, t: nat, receipt: Receipt, p: nat)
    requires Inv(db) && p < |db.payments| && db.payments[p].status == PaymentFailed
    ensures p < |CheckIncoming(db, t, receipt).db.payments|
    ensures CheckIncoming(db, t, receipt).db.payments[p] == db.payments[p]
  {
    if t < |db.transactions| && db.transactions[t].status.IsInProgress() {
      PendingIsLatest(db, t);
    }
  }

  lemma RelockNeverSucceeds(db: Database, u: Unmatched, p: nat)
    requires Inv(db) && Guard(db, Attributes(u, true))
    requires p < |db.payments| && db.payments[p].status != PaymentSuccess
    ensures var after := ResolveUnmatched(db, u, true).db.payments;
      p < |after| && after[p].status != PaymentSuccess
  {
    match Attributed(db, u)
    case None =>
    case Some(inv) => AutoAcceptEffect(db, inv, u);
  }

  /** Only a resolve makes a failed payment successful. */
  lemma FailedNeverSucceeds(db: Database, e: Event, p: nat)
    requires Inv(db) && Guard(db, e) && p < |db.payments| && db.payments[p].status == PaymentFailed
    requires !(e.Resolves? && e.payment == p)
    ensures p < |Step(db, e).payments| && Step(db, e).payments[p].status != PaymentSuccess
  {
    match e
    case Checks(t, receipt) => CheckNeverReopens(db, t, receipt, p);
    case Expires(q) => ExpiryNeverSucceeds(db, q, p);
    case Receives(t, input, tolerance) => InboundNeverSucceeds(db, t, input, tolerance, p);
    case Attributes(u, _) => RelockNeverSucceeds(db, u, p);
    case SetsMethod(q, currency, quote) => SetMethodKeepsPayments(db, q, currency, quote);
    case Resolves(m, q) => assert Resolve(db, m, q).db.payments[p] == db.payments[p];
    case _ =>
  }

  lemma FailedStepStays(db: Database, e: Event, p: nat)
    requires Inv(db) && Guard(db, e) && p < |db.payments| && db.payments[p].status == PaymentFailed
    requires !(e.Resolves? && e.payment == p)
    ensures p < |Step(db, e).payments| && Step(db, e).payments[p].status == PaymentFailed
  {
    FailedNeverSucceeds(db, e, p);
    StepEvolves(db, e);
    assert PaymentEvolves(db.payments[p], Step(db, e).payments[p]);
  }

  lemma ExpiryNeverSucceeds(db: Database, q: nat, p: nat)
    requires db.WellFormed() && p < |db.payments| && db.payments[p].status != PaymentSuccess
    ensures p < |Expire(db, q).db.payments| && Expire(db, q).db.payments[p].status != PaymentSuccess
  {
  }

  lemma InboundNeverSucceeds(db: Database, t: nat, input: Input, tolerance: Tolerance, p: nat)
    requires db.WellFormed() && p < |db.payments| && db.payments[p].status != PaymentSuccess
    ensures var after := ProcessInbound(db, t, input, tolerance).db.payments;
      p < |after| && after[p].status != PaymentSuccess
  {
  }

  lemma SetMethodKeepsPayments(db: Database, p: nat, currency: Currency, quote: Option<Quote>)
    ensures SetPaymentMethod(db, p, currency, quote).db.payments == db.payments
  {
  }

  lemma {:induction false} FailedStays(db: Database, events: seq<Event>, p: nat)
    requires Inv(db) && Guarded(db, events) && NeverResolves(events, p)
    requires p < |db.payments| && db.payments[p].status == PaymentFailed
    ensures var later := Run(db, events);
      Inv(later) && p < |later.payments| && later.payments[p].status == PaymentFailed
    decreases |events|
  {
    if |events| > 0 {
      StepKeepsInv(db, events[0]);
      FailedStepStays(db, events[0], p);
      FailedStays(Step(db, events[0]), events[1..], p);
    }
  }

  lemma {:induction false} NoneCredited(credits: seq<Credit>, p: nat)
    requires forall i :: 0 <= i < |credits| ==> credits[i].paymentID != p
    ensures CreditsOf(credits, p) == []
  {
    if |credits| > 0 {
      NoneCredited(credits[..|credits| - 1], p);
    }
  }

  /** Declining an underpaid payment makes it failed and changes nothing else; unless its
      merchant resolves it later, it stays failed and is never credited, whatever happens. */
  lemma DeclinedStaysFailed(db: Database, p: nat, events: seq<Event>)
    requires Reachable(db) && Settled(db, p) && p < |db.payments| && db.payments[p].status == PaymentUnderpaid
    ensures var r := Decline(db, db.payments[p].merchantID, p);
      && r == Result(db.(payments := db.payments[p := db.payments[p].(status := PaymentFailed)]), Done)
      && r.db.WellFormed() && Step(db, Declines(db.payments[p].merchantID, p)) == r.db
      && (Guarded(r.db, events) && NeverResolves(events, p) ==>
            var later := Run(r.db, events);
            && p < |later.payments| && later.payments[p].status == PaymentFailed
            && CreditsOf(later.credits, p) == [])
  {
    ReachableIsOk(db);
    var m := db.payments[p].merchantID;
    DeclineKeepsInv(db, m, p);
    var declined := Decline(db, m, p).db;
    if Guarded(declined, events) && NeverResolves(events, p) {
      FailedStays(declined, events, p);
      UnsuccessfulIsNotCredited(Run(declined, events), p);
      NoneCredited(Run(declined, events).credits, p);
    }
  }

  /** Accepting an underpaid payment credits all that was confirmed for its latest invoice;
      accepting a failed one credits nothing. */
  lemma AcceptanceExact(db: Database, p: nat)
    requires Reachable(db) && p < |db.payments|
    requires db.payments[p].status == PaymentUnderpaid || db.payments[p].status == PaymentFailed
    ensures db.payments[p].status == PaymentUnderpaid ==> Latest(db.transactions, p).Some?
    ensures var accepted := db.payments[p := db.payments[p].(status := PaymentSuccess)];
      Resolve(db, db.payments[p].merchantID, p) ==
        if db.payments[p].status == PaymentFailed then Result(db.(payments := accepted), Done)
        else
          var t := Latest(db.transactions, p).value;
          var tx, received := db.transactions[t], SumConfirmed(db.fills, t);
          var key := BalanceKey(tx.merchantID, tx.currency.ticker, tx.currency.networkID);
          Result(db.(
            payments := accepted, balances := db.balances[key := BalanceAt(db, key) + received],
            credits := db.credits + [Credit(key, p, t, received)]), Done)
  {
    if db.payments[p].status == PaymentUnderpaid {
      UnderpaidRows(db, p);
      ResolveEffect(db, p, Latest(db.transactions, p).value);
    }
  }

  /** Behind an underpaid payment its latest invoice has recorded what was confirmed. */
  lemma UnderpaidRows(db: Database, p: nat)
    requires Reachable(db) && p < |db.payments| && db.payments[p].status == PaymentUnderpaid
    ensures db.WellFormed() && Latest(db.transactions, p).Some?
    ensures var t := Latest(db.transactions, p).value;
      db.transactions[t].factAmount == Some(SumConfirmed(db.fills, t)) && SumConfirmed(db.fills, t) > 0
  {
    ReachableIsOk(db);
    assert PaymentOk(db, p);
    var t := Latest(db.transactions, p).value;
    assert TransactionOk(db.transactions[t], SumConfirmed(db.fills, t));
  }

  /** A merchant decides about its own payments only, and not about those that are still open
      or already successful. */
  lemma DecisionRefused(db: Database, merchantID: int, p: nat)
    ensures p >= |db.payments| || db.payments[p].merchantID != merchantID ==>
              && Resolve(db, merchantID, p) == Result(db, Refused(NotFound))
              && Decline(db, merchantID, p) == Result(db, Refused(NotFound))
    ensures p < |db.payments| && db.payments[p].merchantID == merchantID ==>
              && (db.payments[p].status != PaymentUnderpaid ==>
                    Decline(db, merchantID, p) == Result(db, Refused(InvalidStatus)))
              && (db.payments[p].status != PaymentUnderpaid && db.payments[p].status != PaymentFailed ==>
                    Resolve(db, merchantID, p) == Result(db, Refused(InvalidStatus)))
  {
  }

  // ---------------------------------------------------------------- setting a payment up

  /** Choosing a currency for an editable payment. The lock is kept exactly when a live one has
      that ticker on that network; in every other case a live one is canceled, and with a
      usable quote the payment gets a new lock on the quoted terms. */
  lemma MethodExact(db: Database, p: nat, currency: Currency, quote: Option<Quote>)
    requires Reachable(db) && p < |db.payments| && db.payments[p].status == PaymentPending
    ensures var latest, r := Latest(db.transactions, p), SetPaymentMethod(db, p, currency, quote);
            var live := latest.Some? && db.transactions[latest.value].status != Cancelled;
            var same := && live && db.transactions[latest.value].currency.ticker == currency.ticker
                        && db.transactions[latest.value].currency.networkID == currency.networkID;
            var usable := quote.Some? && quote.value.amount > 0 && quote.value.recipient != "";
            var kept := if !live then db.transactions
                        else db.transactions[latest.value := db.transactions[latest.value].(
                               status := Cancelled, updatedAt := db.now)];
      && (live ==> db.transactions[latest.value].status == Pending)
      && (r == Result(db, Done) <==> same)
      && (r.outcome == Done <==> same || usable)
      && (!same ==> r.db == db.(transactions :=
            if !usable then kept
            else kept + [Transaction(
                   db.payments[p].merchantID, p, Pending, currency, quote.value.recipient, quote.value.amount,
                   quote.value.serviceFee, None, None, None, db.now)]))
      && (!same && usable ==> Latest(r.db.transactions, p) == Some(|db.transactions|))
  {
    ReachableIsOk(db);
    assert PaymentOk(db, p);
    var latest, r := Latest(db.transactions, p), SetPaymentMethod(db, p, currency, quote);
    if latest.Some? {
      assert TransactionOk(db.transactions[latest.value], SumConfirmed(db.fills, latest.value));
    }
    if |r.db.transactions| > |db.transactions| {
      var kept, row := r.db.transactions[..|db.transactions|], r.db.transactions[|db.transactions|];
      assert r.db.transactions == kept + [row];
      LatestAppend(kept, row, p);
    }
  }

  /** No other payment takes a method, and none but an editable one is locked. */
  lemma ClosedSetup(db: Database, p: nat, currency: Currency, quote: Option<Quote>)
    requires p < |db.payments| ==> db.payments[p].status != PaymentPending
    ensures SetPaymentMethod(db, p, currency, quote).db == db
    ensures SetPaymentMethod(db, p, currency, quote).outcome != Done
    ensures LockPaymentOptions(db, p).db == db
  {
  }

  /** Locking takes a customer and a chosen method, and gives the customer twenty minutes. */
  lemma LockExact(db: Database, p: nat)
    requires db.WellFormed() && p < |db.payments| && db.payments[p].status == PaymentPending
    ensures var ready := db.payments[p].customerID.Some?
                         && exists t :: 0 <= t < |db.transactions| && db.transactions[t].entityID == p;
      LockPaymentOptions(db, p) ==
        if !ready then Result(db, Refused(OptionsMissing))
        else Result(db.(payments := db.payments[p := db.payments[p].(
               status := PaymentLocked, expiresAt := Some(db.now + 1200))]), Done)
  {
    var latest := Latest(db.transactions, p);
    if latest.Some? {
      assert db.transactions[latest.value].entityID == p;
    }
  }

  /** A whole checkout, from any database: the four calls of a new payment leave one locked
      payment and its one pending invoice. */
  lemma CheckoutExact(db: Database, merchantID: int, customerID: int, price: real, currency: Currency, quote: Quote)
    requires db.WellFormed() && quote.amount > 0 && quote.recipient != ""
    ensures var p := |db.payments|;
            var created := CreatePayment(db, TypePayment, merchantID, price);
            var visited := AssignCustomer(created, p, customerID);
            var chosen := SetPaymentMethod(visited, p, currency, Some(quote)).db;
      LockPaymentOptions(chosen, p) == Result(db.(
        payments := db.payments + [Payment(
          TypePayment, PaymentLocked, merchantID, db.now, Some(db.now + 1200), None, Some(customerID), price)],
        transactions := db.transactions + [Transaction(
          merchantID, p, Pending, currency, quote.recipient, quote.amount, quote.serviceFee, None, None, None,
          db.now)]), Done)
  {
    var p := |db.payments|;
    var created := CreatePayment(db, TypePayment, merchantID, price);
    var visited := AssignCustomer(created, p, customerID);
    assert Latest(db.transactions, p).None?;
    var row := Payment(TypePayment, PaymentPending, merchantID, db.now, None, None, Some(customerID), price);
    assert visited.payments == db.payments + [row];
    var chosen := SetPaymentMethod(visited, p, currency, Some(quote)).db;
    LatestAppend(db.transactions, chosen.transactions[|db.transactions|], p);
    assert (db.payments + [row])[p := row.(status := PaymentLocked, expiresAt := Some(db.now + 1200))]
        == db.payments + [row.(status := PaymentLocked, expiresAt := Some(db.now + 1200))];
  }

  /** A payment that is never locked is swept an hour after its creation, and not before. */
  lemma UnlockedIsDueAfterAnHour(db: Database, merchantID: int, price: real, seconds: nat)
    ensures var created := CreatePayment(db, TypePayment, merchantID, price);
      Due(created.payments[|db.payments|], db.now + seconds) <==> seconds > 3600
  {
  }

  // ---------------------------------------------------------------- expiry

  /** f is the first fill of transaction t that was recorded. */
  predicate IsFirstOf(fills: seq<Fill>, t: nat, f: nat) {
    f < |fills| && fills[f].transactionID == t && forall g :: 0 <= g < f ==> fills[g].transactionID != t
  }

  /** An open payment is let be for half an hour past its expiry while its invoice is pending;
      then it is underpaid, if anything confirmed is left, under the hash and sender of the
      first fill, and failed otherwise. */
  lemma ExpiryExact(db: Database, p: nat)
    requires Reachable(db) && p < |db.payments| && db.payments[p].kind == TypePayment
    requires var status := db.payments[p].status;
      status == PaymentPending || status == PaymentLocked || status == PaymentPartial
    ensures var row, latest, r := db.payments[p], Latest(db.transactions, p), Expire(db, p);
            var spared := && row.status != PaymentPending && row.expiresAt.Some? && latest.Some?
                          && db.transactions[latest.value].status == Pending && db.now < row.expiresAt.value + 1800;
            var received := if latest.Some? then SumConfirmed(db.fills, latest.value) else 0;
      && (spared ==> r == Result(db, Done))
      && (!spared && row.status == PaymentPartial && received > 0 ==>
            && latest.Some?
            && exists f: nat :: IsFirstOf(db.fills, latest.value, f) && r == Result(db.(
                 payments := db.payments[p := row.(status := PaymentUnderpaid)],
                 transactions := db.transactions[latest.value := db.transactions[latest.value].(
                   status := InProgressInvalid, updatedAt := db.now, factAmount := Some(received),
                   hashID := Some(db.fills[f].hash), senderAddress := Some(db.fills[f].sender))]), Done))
      && (!spared && !(row.status == PaymentPartial && received > 0) ==> r == Result(db.(
            payments := db.payments[p := row.(status := PaymentFailed)],
            transactions := if latest.None? || db.transactions[latest.value].status == Cancelled then db.transactions
                            else db.transactions[latest.value := db.transactions[latest.value].(
                                   status := Cancelled, updatedAt := db.now)]), Done))
  {
    ReachableIsOk(db);
    assert PaymentOk(db, p);
    var latest := Latest(db.transactions, p);
    if latest.Some? {
      var t := latest.value;
      SumNonNegative(db.fills, t, ConfirmedOnly);
      if SumConfirmed(db.fills, t) > 0 {
        FirstFillIsUsable(db, t);
        assert IsFirstOf(db.fills, t, FirstFill(db.fills, t).value);
      }
    }
  }

  /** No other payment expires. */
  lemma ClosedNeverExpires(db: Database, p: nat)
    requires db.WellFormed()
    requires p < |db.payments| ==>
               var row := db.payments[p];
               || row.kind != TypePayment
               || (row.status != PaymentPending && row.status != PaymentLocked && row.status != PaymentPartial)
    ensures Expire(db, p).db == db && Expire(db, p).outcome != Done
  {
  }

  // ---------------------------------------------------------------- inbound transfers

  /** The row under which this delivery is recorded for transaction t. */
  predicate IsRowOf(fill: Fill, t: nat, input: Input) {
    fill.transactionID == t && fill.networkID == input.networkID && fill.hash == input.hash && fill.logIndex == 0
  }

  /** What the ledger is after a delivery: a new row at its end, or, when it has the row
      already, the same with that row counting, in case it was reorged. */
  lemma LedgerExact(db: Database, t: nat, input: Input)
    requires Inv(db) && input.Valid()
    ensures var after := RecordFill(db, t, input);
      && after.(fills := db.fills) == db
      && ((exists f :: 0 <= f < |db.fills| && IsRowOf(db.fills[f], t, input))
          || after.fills == db.fills + [
               Fill(t, input.networkID, input.hash, 0, input.amount, input.sender, 1, Confirmed, db.now)])
      && (forall f: nat :: f < |db.fills| && IsRowOf(db.fills[f], t, input) ==>
            after.fills == db.fills[f := db.fills[f].(status := Confirmed)])
  {
    var row := FillRow(db, t, input);
    var found := FindFill(db.fills, row);
    if found.Some? {
      assert FillOk(db.fills[found.value], db.now);
      assert IsRowOf(db.fills[found.value], t, input);
    }
    forall f: nat | f < |db.fills| && IsRowOf(db.fills[f], t, input) ensures found == Some(f) {
      assert SameKey(db.fills[f], row);
    }
  }

  /** The sum covers the invoice, outright or within what ten cents are worth. */
  predicate Covers(sum: int, amount: int, tenCents: Option<nat>) {
    sum >= amount || (tenCents.Some? && sum + tenCents.value >= amount)
  }

  /** Only the price can tell, and it is not to be had. */
  predicate Undecided(sum: int, amount: int, tenCents: Option<nat>) {
    sum < amount && tenCents.None?
  }

  /** A delivery that leaves the invoice short is recorded and gives the customer half an hour
      from now, within a day of the recorded expiry or else of the present one. */
  lemma ShortDeliveryExact(db: Database, t: nat, input: Input, tolerance: Tolerance)
    requires Inv(db) && t < |db.transactions| && input.Valid()
    requires input.currency.ticker == db.transactions[t].currency.ticker
    requires input.currency.decimals == db.transactions[t].currency.decimals
    requires var sum := SumConfirmed(db.fills, t) + input.amount;
      && !Covers(sum, db.transactions[t].amount, tolerance.first)
      && !Undecided(sum, db.transactions[t].amount, tolerance.first)
    ensures var p := db.transactions[t].entityID;
      && p < |db.payments|
      && var row := db.payments[p];
         var base := if row.originalExpiresAt.Some? then row.originalExpiresAt else row.expiresAt;
         var expiry := if base.Some? && base.value + 86400 < db.now + 1800 then base.value + 86400 else db.now + 1800;
         ProcessInbound(db, t, input, tolerance) == Result(db.(
           fills := RecordFill(db, t, input).fills,
           payments := db.payments[p := row.(status := PaymentPartial, expiresAt := Some(expiry))]), Done)
  {
  }

  /** A delivery that covers the invoice at the first price read promotes it for the whole sum,
      valid if it covers it at the second as well, and is not touched without a second price. */
  lemma CoveringDeliveryExact(db: Database, t: nat, input: Input, tolerance: Tolerance)
    requires Inv(db) && t < |db.transactions| && input.Valid()
    requires input.currency.ticker == db.transactions[t].currency.ticker
    requires input.currency.decimals == db.transactions[t].currency.decimals
    requires SumConfirmed(db.fills, t) + input.amount != 0
    requires Covers(SumConfirmed(db.fills, t) + input.amount, db.transactions[t].amount, tolerance.first)
    ensures var tx, p := db.transactions[t], db.transactions[t].entityID;
            var sum := SumConfirmed(db.fills, t) + input.amount;
            var valid := Covers(sum, tx.amount, tolerance.second);
      && p < |db.payments|
      && ProcessInbound(db, t, input, tolerance) ==
           if Undecided(sum, tx.amount, tolerance.second) then Result(db, Refused(PriceUnavailable))
           else Result(db.(
                  fills := RecordFill(db, t, input).fills,
                  transactions := db.transactions[t := tx.(
                    status := if valid then InProgress else InProgressInvalid, updatedAt := db.now,
                    hashID := Some(input.hash), senderAddress := Some(input.sender), factAmount := Some(sum))],
                  payments := if valid then db.payments[p := db.payments[p].(status := PaymentInProgress)]
                              else db.payments), Done)
  {
  }

  /** Every other delivery changes nothing. */
  lemma RefusedDeliveryExact(db: Database, t: nat, input: Input, tolerance: Tolerance)
    requires db.WellFormed()
    requires || t >= |db.transactions|
             || input.currency.ticker == "" || input.sender == "" || input.hash == "" || input.networkID == ""
             || input.currency.ticker != db.transactions[t].currency.ticker
             || input.currency.decimals != db.transactions[t].currency.decimals
             || Undecided(SumConfirmed(db.fills, t) + input.amount, db.transactions[t].amount, tolerance.first)
    ensures ProcessInbound(db, t, input, tolerance).db == db && ProcessInbound(db, t, input, tolerance).outcome != Done
  {
  }

  /** The watcher's guard stops a transfer exactly when one with its hash was recorded before
      for the same recipient, in any letter case. */
  lemma WatcherGuardExact(db: Database, t: nat, input: Input, tolerance: Tolerance, networkID: string, hash: string,
                          recipient: string)
    requires db.WellFormed() && t < |db.transactions|
    requires ProcessInbound(db, t, input, tolerance).outcome == Done
    ensures var after := ProcessInbound(db, t, input, tolerance).db;
      && after.WellFormed()
      && (FillExists(after, networkID, hash, recipient) <==>
            || FillExists(db, networkID, hash, recipient)
            || (&& networkID == input.networkID && hash == input.hash
                && Lower(recipient) == Lower(db.transactions[t].recipient)))
      && !FillExists(EMPTY, networkID, hash, recipient)
  {
    InboundWellFormed(db, t, input, tolerance);
    var after := ProcessInbound(db, t, input, tolerance).db;
    var row := FillRow(db, t, input);
    assert after.fills == Upsert(db.fills, row);
    match FindFill(db.fills, row)
    case None =>
      assert after.fills[|db.fills|] == row;
      forall f | 0 <= f < |db.fills| ensures after.fills[f] == db.fills[f] {
      }
    case Some(g) =>
      assert after.fills[g].hash == input.hash;
  }

  // ---------------------------------------------------------------- cross-currency payments

  /** An invoice at the collector that waits for a transfer. */
  predicate Awaits(tx: Transaction, collector: string) {
    tx.recipient == collector && tx.status == Pending && tx.hashID.None?
  }

  function NewerAwaiting(txs: seq<Transaction>, collector: string, t: nat): set<nat> {
    set s: nat | t < s < |txs| && Awaits(txs[s], collector)
  }

  /** One of the newest fifty invoices that wait at the collector. */
  predicate Considered(db: Database, collector: string, t: nat) {
    && t < |db.transactions| && Awaits(db.transactions[t], collector)
    && |NewerAwaiting(db.transactions, collector, t)| < 50
  }

  function Gap(a: real, b: real): real {
    if a >= b then a - b else b - a
  }

  function FiatPrice(db: Database, t: nat): real
    requires db.WellFormed() && t < |db.transactions|
  {
    db.payments[db.transactions[t].entityID].price
  }

  /** The transfer is for invoice t: currency and amount are known, it is bound to no transaction
      at the collector yet, it is worth fifty cents and at most ten cents less than the price, and
      every other invoice is farther from its value by a dollar and by two per cent of it. */
  ghost predicate IsFor(db: Database, u: Unmatched, t: nat)
    requires db.WellFormed()
  {
    && u.currency.Some? && u.amount.Some? && u.amount.value > 0 && u.fiatValue.Some?
    && (forall s: nat :: s < |db.transactions| ==>
          || db.transactions[s].hashID != Some(u.hash)
          || db.transactions[s].currency.networkID != u.currency.value.networkID
          || Lower(db.transactions[s].recipient) != Lower(u.collector))
    && Considered(db, u.collector, t)
    && var value := u.fiatValue.value;
    && value >= 0.50 && value + 0.10 >= FiatPrice(db, t)
    && forall s: nat :: s != t && Considered(db, u.collector, s) ==>
         && Gap(value, FiatPrice(db, s)) - Gap(value, FiatPrice(db, t)) >= 1.0
         && Gap(value, FiatPrice(db, s)) - Gap(value, FiatPrice(db, t)) >= 0.02 * value
  }

  lemma {:induction false} NewerAreCounted(txs: seq<Transaction>, collector: string, t: nat)
    requires t < |txs|
    ensures |NewerAwaiting(txs, collector, t)| == CountNewer(txs, collector, t)
    decreases |txs|
  {
    var last := |txs| - 1;
    if t < last {
      var rest := txs[..last];
      NewerAreCounted(rest, collector, t);
      assert NewerAwaiting(txs, collector, t)
          == NewerAwaiting(rest, collector, t) + if Awaits(txs[last], collector) then {last} else {};
    } else {
      assert NewerAwaiting(txs, collector, t) == {};
    }
  }

  /** The listing holds exactly these, each once. */
  lemma ConsideredAreListed(db: Database, collector: string, t: nat)
    requires t < |db.transactions|
    ensures Considered(db, collector, t) <==> t in OpenInvoices(db.transactions, collector, MAX_OPEN_INVOICES)
  {
    NewerAreCounted(db.transactions, collector, t);
    if Awaits(db.transactions[t], collector) {
      ListingExact(db.transactions, collector, MAX_OPEN_INVOICES, t);
    }
  }

  lemma {:induction false} ListedDescend(txs: seq<Transaction>, collector: string, limit: nat, i: nat, j: nat)
    requires i < j < |OpenInvoices(txs, collector, limit)|
    ensures OpenInvoices(txs, collector, limit)[i] > OpenInvoices(txs, collector, limit)[j]
    decreases |txs|
  {
    var last := |txs| - 1;
    if IsOpenInvoice(txs[last], collector) {
      if i > 0 {
        ListedDescend(txs[..last], collector, limit - 1, i - 1, j - 1);
      }
    } else {
      ListedDescend(txs[..last], collector, limit, i, j);
    }
  }

  /** Beating all others of the list is beating all others that are considered. */
  lemma BeatsAllConsidered(db: Database, collector: string, value: real, i: nat)
    requires db.WellFormed()
    requires var ids := OpenInvoices(db.transactions, collector, MAX_OPEN_INVOICES); i < |ids|
    ensures var ids := OpenInvoices(db.transactions, collector, MAX_OPEN_INVOICES);
      Attribution.BeatsAll(value, Prices(db, ids), i) <==>
      forall s: nat :: s != ids[i] && Considered(db, collector, s) ==>
        && Gap(value, FiatPrice(db, s)) - Gap(value, FiatPrice(db, ids[i])) >= 1.0
        && Gap(value, FiatPrice(db, s)) - Gap(value, FiatPrice(db, ids[i])) >= 0.02 * value
  {
    var ids := OpenInvoices(db.transactions, collector, MAX_OPEN_INVOICES);
    var prices := Prices(db, ids);
    forall j, k | 0 <= j < k < |ids| ensures ids[j] > ids[k] {
      ListedDescend(db.transactions, collector, MAX_OPEN_INVOICES, j, k);
    }
    forall s: nat | s < |db.transactions| ensures Considered(db, collector, s) <==> s in ids {
      ConsideredAreListed(db, collector, s);
    }
    if Attribution.BeatsAll(value, prices, i) {
      forall s: nat | s != ids[i] && Considered(db, collector, s)
        ensures Gap(value, FiatPrice(db, s)) - Gap(value, FiatPrice(db, ids[i])) >= Attribution.Margin(value)
      {
        var j :| 0 <= j < |ids| && ids[j] == s;
        assert prices[j] == FiatPrice(db, s);
      }
    } else {
      var margin := Attribution.Margin(value);
      var j :| 0 <= j < |prices| && j != i
            && Attribution.Distance(value, prices[j]) - Attribution.Distance(value, prices[i]) < margin;
      assert ids[j] in ids && ids[j] != ids[i];
      assert Considered(db, collector, ids[j]);
    }
  }

  /** The gates pass a transfer exactly to the invoice it is for. */
  lemma AttributionExact(db: Database, u: Unmatched, t: nat)
    requires db.WellFormed()
    ensures Attributed(db, u) == Some(t) <==> IsFor(db, u, t)
  {
    var ids := OpenInvoices(db.transactions, u.collector, MAX_OPEN_INVOICES);
    if Attributed(db, u) == Some(t) {
      var value := u.fiatValue.value;
      var w := Attribution.Winner(value, Prices(db, ids)).value;
      BeatsAllConsidered(db, u.collector, value, w);
      ConsideredAreListed(db, u.collector, t);
    } else if IsFor(db, u, t) {
      var value := u.fiatValue.value;
      ConsideredAreListed(db, u.collector, t);
      var i :| 0 <= i < |ids| && ids[i] == t;
      BeatsAllConsidered(db, u.collector, value, i);
      Attribution.WinnerIsUnique(value, Prices(db, ids), i);
    }
  }

  /** A transfer that is for no invoice changes nothing: the safety net takes it. */
  lemma StrayIsLeftAlone(db: Database, u: Unmatched, cancelSucceeds: bool)
    requires db.WellFormed() && forall t: nat :: !IsFor(db, u, t)
    ensures ResolveUnmatched(db, u, cancelSucceeds) == Result(db, Done)
  {
    if Attributed(db, u).Some? {
      AttributionExact(db, u, Attributed(db, u).value);
    }
  }

  lemma AcceptanceGrows(db: Database, t: nat, u: Unmatched, cancelSucceeds: bool)
    requires db.WellFormed() && t < |db.transactions| && u.currency.Some? && u.amount.Some? && u.collector != ""
    ensures |AutoAccept(db, t, u, cancelSucceeds).db.transactions| == |db.transactions| + 1
  {
  }

  /** A new invoice is made exactly when the transfer is for an old one; else nothing changes. */
  lemma RelockedExactly(db: Database, u: Unmatched, cancelSucceeds: bool)
    requires Reachable(db)
    ensures db.WellFormed()
    ensures var r := ResolveUnmatched(db, u, cancelSucceeds);
      && ((exists t: nat :: IsFor(db, u, t)) <==> |r.db.transactions| == |db.transactions| + 1)
      && ((forall t: nat :: !IsFor(db, u, t)) <==> r.db == db)
      && Step(db, Attributes(u, cancelSucceeds)) == r.db
  {
    ReachableIsOk(db);
    if t: nat :| IsFor(db, u, t) {
      AttributionGrows(db, u, t, cancelSucceeds);
    } else {
      StrayIsLeftAlone(db, u, cancelSucceeds);
    }
  }

  lemma AttributionGrows(db: Database, u: Unmatched, t: nat, cancelSucceeds: bool)
    requires Reachable(db) && IsFor(db, u, t)
    ensures db.WellFormed()
    ensures |ResolveUnmatched(db, u, cancelSucceeds).db.transactions| == |db.transactions| + 1
  {
    ReachableIsOk(db);
    AttributionExact(db, u, t);
    PendingIsLatest(db, t);
    AcceptanceGrows(db, t, u, cancelSucceeds);
  }

  lemma RelockOutcome(db: Database, u: Unmatched, t: nat, cancelSucceeds: bool)
    requires Inv(db) && t < |db.transactions| && IsOpenInvoice(db.transactions[t], u.collector)
    requires u.currency.Some? && u.amount.Some? && u.amount.value > 0
    requires Guard(db, Attributes(u, true))
    ensures var rows := Accepted(db, t, u).transactions;
      AutoAccept(db, t, u, cancelSucceeds) == Result(
        Accepted(db, t, u).(transactions := if cancelSucceeds then rows else rows[t := db.transactions[t]]), Done)
  {
    if cancelSucceeds {
      AutoAcceptEffect(db, t, u);
    } else {
      PendingIsLatest(db, t);
      var created := db.(transactions := db.transactions + [Relock(db, t, u)]);
      RelockedPromotes(db, created, t, u);
      PromotedIsAccepted(db, created, t, u);
    }
  }

  /** A transfer that is for an invoice replaces it by one in the received currency, for exactly
      what arrived, without a fee and paid at once. */
  lemma RelockRows(db: Database, u: Unmatched, t: nat, cancelSucceeds: bool)
    requires Reachable(db) && IsFor(db, u, t)
    requires u.hash != "" && u.currency.value.ticker != "" && u.currency.value.networkID != ""
    ensures var stale, p, received := db.transactions[t], db.transactions[t].entityID, u.currency.value;
            var sender := if u.sender == "" then "cross-currency-reconcile" else u.sender;
            var kept := if cancelSucceeds
                        then db.transactions[t := stale.(status := Cancelled, updatedAt := db.now)]
                        else db.transactions;
      && p < |db.payments|
      && ResolveUnmatched(db, u, cancelSucceeds) == Result(db.(
           transactions := kept + [Transaction(
             stale.merchantID, p, InProgress, received, u.collector, u.amount.value, 0, u.amount, Some(u.hash),
             Some(sender), db.now)],
           fills := db.fills + [Fill(
             |db.transactions|, received.networkID, u.hash, 0, u.amount.value, sender, 1, Confirmed, db.now)],
           payments := db.payments[p := db.payments[p].(status := PaymentInProgress)]), Done)
  {
    ReachableIsOk(db);
    AttributionExact(db, u, t);
    RelockOutcome(db, u, t, cancelSucceeds);
    PendingIsLatest(db, t);
  }
  /** If the transfer has no hash or no named currency, its inbound call is refused, and the new
      invoice stays pending beside a payment that has not moved. */
  lemma RelockUnnamed(db: Database, u: Unmatched, t: nat, cancelSucceeds: bool)
    requires Reachable(db) && IsFor(db, u, t)
    requires u.hash == "" || u.currency.value.ticker == "" || u.currency.value.networkID == ""
    ensures var stale := db.transactions[t];
            var kept := if cancelSucceeds
                        then db.transactions[t := stale.(status := Cancelled, updatedAt := db.now)]
                        else db.transactions;
      ResolveUnmatched(db, u, cancelSucceeds) == Result(db.(
        transactions := kept + [Transaction(
          stale.merchantID, stale.entityID, Pending, u.currency.value, u.collector, u.amount.value, 0, None, None,
          None, db.now)]), Refused(InvalidInput))
  {
    ReachableIsOk(db);
    AttributionExact(db, u, t);
    PendingIsLatest(db, t);
  }
}
