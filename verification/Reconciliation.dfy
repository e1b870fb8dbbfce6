/** Fills that an administrator records against the latest transaction of a payment, whatever
    its status: which of them lead to a double credit, and which take success away. */
module Reconciliation {
  import opened Domain
  import opened Ledger
  import opened Steps
  import opened Protocol
  import opened Invariant
  import opened Preservation
  import opened Runs
  import opened Promises
  import opened Limits

  // ---------------------------------------------------------------- at most one credit

  /** All transactions of payment p but the latest are canceled. */
  predicate OthersCanceled(db: Database, p: nat) {
    forall t :: 0 <= t < |db.transactions| && db.transactions[t].entityID == p ==>
      Latest(db.transactions, p) == Some(t) || db.transactions[t].status == Cancelled
  }

  /** In progress, but for an amount that no confirmation accepts. */
  predicate Unconfirmable(tx: Transaction) {
    && tx.status.IsInProgress() && tx.factAmount.Some?
    && (tx.factAmount.value <= 0 || (tx.status == InProgress && Gained(tx, tx.factAmount.value) < 0))
  }

  /** Nothing can be credited to payment p any more. */
  predicate Closed(db: Database, p: nat)
    requires p < |db.payments|
  {
    var row := db.payments[p];
    && (|| row.status == PaymentSuccess || row.status == PaymentInProgress || row.status == PaymentFailed
        || (row.status == PaymentPartial && row.kind != TypePayment))
    && forall t :: 0 <= t < |db.transactions| && db.transactions[t].entityID == p ==>
         db.transactions[t].status.IsFinalized() || Unconfirmable(db.transactions[t])
  }

  /** Much less than the joint invariant: neither the ledger nor the fact amounts have to be
      in order for a payment to be credited once at most. */
  ghost predicate CreditedAtMostOnce(db: Database, p: nat) {
    && db.WellFormed() && p < |db.payments| && OthersCanceled(db, p)
    && (CreditsOf(db.credits, p) == [] || (|CreditsOf(db.credits, p)| == 1 && Closed(db, p)))
  }

  /** A step that leaves payment p and its transactions as they are. */
  lemma Untouched(db: Database, after: Database, p: nat)
    requires CreditedAtMostOnce(db, p) && after.WellFormed() && SameTransactions(db, after, p)
    requires p < |after.payments| && after.payments[p].kind == db.payments[p].kind
    requires after.payments[p].status == db.payments[p].status
    requires forall t :: 0 <= t < |db.transactions| && db.transactions[t].entityID == p ==>
               after.transactions[t] == db.transactions[t]
    requires CreditsOf(after.credits, p) == CreditsOf(db.credits, p)
    ensures CreditedAtMostOnce(after, p)
  {
    SameLatest(db, after, p);
  }

  /** A step that changes the latest transaction of a payment that has not been credited; if it
      credits the payment, it also closes it. */
  lemma LatestMoves(db: Database, after: Database, p: nat, t: nat)
    requires CreditedAtMostOnce(db, p) && after.WellFormed() && SameTransactions(db, after, p)
    requires p < |after.payments| && Latest(db.transactions, p) == Some(t)
    requires forall u :: 0 <= u < |db.transactions| && u != t ==>
               after.transactions[u].status == db.transactions[u].status
    requires CreditsOf(after.credits, p) != [] ==>
               |CreditsOf(after.credits, p)| == 1 && after.payments[p].status == PaymentSuccess
               && after.transactions[t].status.IsFinalized()
    ensures CreditedAtMostOnce(after, p)
  {
    SameLatest(db, after, p);
  }

  /** A live transaction is the latest, and its payment has not been credited, unless it is one
      that no confirmation accepts. */
  lemma LiveIsUncredited(db: Database, p: nat, t: nat)
    requires CreditedAtMostOnce(db, p) && t < |db.transactions| && db.transactions[t].entityID == p
    requires !db.transactions[t].status.IsFinalized()
    ensures Latest(db.transactions, p) == Some(t)
    ensures CreditsOf(db.credits, p) == [] || Unconfirmable(db.transactions[t])
  {
  }

  // ---------------------------------------------------------------- every guarded call keeps it

  lemma InboundKeepsOnce(db: Database, t: nat, input: Input, tolerance: Tolerance, p: nat)
    requires CreditedAtMostOnce(db, p) && (t < |db.transactions| ==> db.transactions[t].status == Pending)
    ensures CreditedAtMostOnce(ProcessInbound(db, t, input, tolerance).db, p)
  {
    InboundWellFormed(db, t, input, tolerance);
    var after := ProcessInbound(db, t, input, tolerance).db;
    InboundCreditsNobody(db, t, input, tolerance);
    InboundFrame(db, t, input, tolerance);
    if t < |db.transactions| && db.transactions[t].entityID == p {
      LiveIsUncredited(db, p, t);
      LatestMoves(db, after, p, t);
    } else {
      Untouched(db, after, p);
    }
  }

  /** All that a receipt check can do to such a transaction is to cancel it. */
  lemma UnconfirmableCheck(db: Database, t: nat, receipt: Receipt)
    requires db.WellFormed() && t < |db.transactions| && Unconfirmable(db.transactions[t])
    ensures CheckIncoming(db, t, receipt).db == db || CheckIncoming(db, t, receipt).db == CancelIncoming(db, t)
  {
  }

  lemma ClosedByCancel(db: Database, p: nat, t: nat)
    requires CreditedAtMostOnce(db, p) && |CreditsOf(db.credits, p)| == 1
    requires Latest(db.transactions, p) == Some(t) && CancelIncoming(db, t).WellFormed()
    ensures CreditedAtMostOnce(CancelIncoming(db, t), p)
  {
    SameLatest(db, CancelIncoming(db, t), p);
  }

  lemma CheckKeepsOnce(db: Database, t: nat, receipt: Receipt, p: nat)
    requires CreditedAtMostOnce(db, p)
    ensures CreditedAtMostOnce(CheckIncoming(db, t, receipt).db, p)
  {
    CheckWellFormed(db, t, receipt);
    var after := CheckIncoming(db, t, receipt).db;
    CheckFrame(db, t, receipt);
    if after != db {
      CheckCredits(db, t, receipt, p);
      if db.transactions[t].entityID == p {
        LiveIsUncredited(db, p, t);
        if CreditsOf(db.credits, p) == [] {
          LatestMoves(db, after, p, t);
        } else {
          UnconfirmableCheck(db, t, receipt);
          ClosedByCancel(db, p, t);
        }
      } else {
        Untouched(db, after, p);
      }
    }
  }

  /** A receipt check credits the payment of its transaction at most once, and closes it then. */
  lemma CheckCredits(db: Database, t: nat, receipt: Receipt, p: nat)
    requires db.WellFormed() && p < |db.payments| && t < |db.transactions|
    ensures var after, q := CheckIncoming(db, t, receipt).db, db.transactions[t].entityID;
      && (q != p ==> CreditsOf(after.credits, p) == CreditsOf(db.credits, p))
      && (after.credits == db.credits
          || (|CreditsOf(after.credits, q)| == |CreditsOf(db.credits, q)| + 1
              && after.payments[q].status == PaymentSuccess && after.transactions[t].status == Completed))
  {
    var after := CheckIncoming(db, t, receipt).db;
    if after.credits != db.credits {
      CreditsOfAppend(db.credits, after.credits[|db.credits|], p);
      CreditsOfAppend(db.credits, after.credits[|db.credits|], db.transactions[t].entityID);
    }
  }

  lemma UnderpaidKeepsOnce(db: Database, p: nat, t: nat)
    requires CreditedAtMostOnce(db, p) && CreditsOf(db.credits, p) == [] && Latest(db.transactions, p) == Some(t)
    requires MarkUnderpaid(db, p, t).WellFormed()
    ensures CreditedAtMostOnce(MarkUnderpaid(db, p, t), p)
  {
    LatestMoves(db, MarkUnderpaid(db, p, t), p, t);
  }

  lemma CancelAndFailKeepsOnce(db: Database, p: nat)
    requires CreditedAtMostOnce(db, p) && CreditsOf(db.credits, p) == []
    requires CancelAndFail(db, p, Latest(db.transactions, p)).WellFormed()
    ensures CreditedAtMostOnce(CancelAndFail(db, p, Latest(db.transactions, p)), p)
  {
    var latest := Latest(db.transactions, p);
    if latest.Some? {
      LatestMoves(db, CancelAndFail(db, p, latest), p, latest.value);
    }
  }

  /** An expiry touches its own payment and the latest transaction of that payment. */
  lemma ExpiryFrame(db: Database, q: nat, p: nat)
    requires db.WellFormed() && q != p && p < |db.payments|
    ensures var after := Expire(db, q).db;
      && SameTransactions(db, after, p) && |after.payments| == |db.payments| && after.payments[p] == db.payments[p]
      && forall t :: 0 <= t < |db.transactions| && db.transactions[t].entityID == p ==>
           after.transactions[t] == db.transactions[t]
  {
  }

  lemma ExpiryKeepsOnce(db: Database, q: nat, p: nat)
    requires CreditedAtMostOnce(db, p)
    ensures CreditedAtMostOnce(Expire(db, q).db, p)
  {
    ExpireWellFormed(db, q);
    ExpiryCreditsNobody(db, q);
    var after := Expire(db, q).db;
    if q != p {
      ExpiryFrame(db, q, p);
      Untouched(db, after, p);
    } else if after != db {
      assert CreditsOf(db.credits, p) == [];
      var latest := Latest(db.transactions, p);
      if db.payments[p].status == PaymentPartial && latest.Some? && SumConfirmed(db.fills, latest.value) != 0 {
        UnderpaidKeepsOnce(db, p, latest.value);
      } else {
        CancelAndFailKeepsOnce(db, p);
      }
    }
  }

  lemma OwnMethodKeepsOnce(db: Database, p: nat, currency: Currency, quote: Option<Quote>)
    requires CreditedAtMostOnce(db, p) && SetPaymentMethod(db, p, currency, quote).db.WellFormed()
    ensures CreditedAtMostOnce(SetPaymentMethod(db, p, currency, quote).db, p)
  {
    SetMethodCreditsNobody(db, p, currency, quote);
    var after := SetPaymentMethod(db, p, currency, quote).db;
    if after != db {
      AppendedIsLatest(db, after, p);
    }
  }

  lemma SetMethodFrame(db: Database, q: nat, currency: Currency, quote: Option<Quote>, p: nat)
    requires db.WellFormed() && q != p && p < |db.payments|
    ensures var after := SetPaymentMethod(db, q, currency, quote).db;
      && SameTransactions(db, after, p) && after.payments == db.payments
      && forall t :: 0 <= t < |db.transactions| && db.transactions[t].entityID == p ==>
           after.transactions[t] == db.transactions[t]
  {
  }

  lemma SetMethodKeepsOnce(db: Database, q: nat, currency: Currency, quote: Option<Quote>, p: nat)
    requires CreditedAtMostOnce(db, p)
    ensures CreditedAtMostOnce(SetPaymentMethod(db, q, currency, quote).db, p)
  {
    SetMethodWellFormed(db, q, currency, quote);
    if q == p {
      OwnMethodKeepsOnce(db, p, currency, quote);
    } else {
      SetMethodCreditsNobody(db, q, currency, quote);
      SetMethodFrame(db, q, currency, quote, p);
      Untouched(db, SetPaymentMethod(db, q, currency, quote).db, p);
    }
  }

  /** At most one transaction is appended, and then all others of its payment are canceled. */
  lemma AppendedIsLatest(db: Database, after: Database, p: nat)
    requires CreditedAtMostOnce(db, p) && CreditsOf(db.credits, p) == [] && after.credits == db.credits
    requires after.WellFormed() && p < |after.payments|
    requires |db.transactions| <= |after.transactions| <= |db.transactions| + 1
    requires forall t :: 0 <= t < |db.transactions| ==> after.transactions[t].entityID == db.transactions[t].entityID
    requires forall t :: 0 <= t < |db.transactions| && db.transactions[t].entityID == p ==>
               after.transactions[t].status == Cancelled
    ensures CreditedAtMostOnce(after, p)
  {
    if |after.transactions| > |db.transactions| {
      var t := |db.transactions|;
      assert after.transactions == after.transactions[..t] + [after.transactions[t]];
      LatestAppend(after.transactions[..t], after.transactions[t], p);
    }
  }

  /** Merchant decisions touch no transaction, and of payments and credits only those of q. */
  lemma ResolveFrame(db: Database, merchantID: int, q: nat, p: nat)
    requires db.WellFormed() && p < |db.payments|
    ensures var after := Resolve(db, merchantID, q).db;
      && after.WellFormed() && after.transactions == db.transactions && |after.payments| == |db.payments|
      && after.payments[p].kind == db.payments[p].kind
      && (q != p ==> after.payments[p] == db.payments[p] && CreditsOf(after.credits, p) == CreditsOf(db.credits, p))
  {
    var after := Resolve(db, merchantID, q).db;
    RowsWellFormed(db, after);
    if after.credits != db.credits {
      CreditsOfAppend(db.credits, after.credits[|db.credits|], p);
    }
  }

  /** A resolve credits only what is underpaid, and makes its own payment successful. */
  lemma OwnResolve(db: Database, merchantID: int, p: nat)
    requires db.WellFormed() && p < |db.payments|
    ensures var after := Resolve(db, merchantID, p).db;
      || after == db
      || (&& after.payments[p].status == PaymentSuccess
          && |CreditsOf(after.credits, p)| <= |CreditsOf(db.credits, p)| + 1
          && (db.payments[p].status != PaymentUnderpaid ==> after.credits == db.credits))
  {
    var after := Resolve(db, merchantID, p).db;
    if after.credits != db.credits {
      CreditsOfAppend(db.credits, after.credits[|db.credits|], p);
    }
  }

  lemma ResolveKeepsOnce(db: Database, merchantID: int, q: nat, p: nat)
    requires CreditedAtMostOnce(db, p) && Settled(db, q)
    ensures CreditedAtMostOnce(Resolve(db, merchantID, q).db, p)
  {
    var after := Resolve(db, merchantID, q).db;
    ResolveFrame(db, merchantID, q, p);
    if q != p {
      SettledKeepsOnce(db, after, p);
    } else if after != db {
      OwnResolve(db, merchantID, p);
      SettledKeepsOnce(db, after, p);
    }
  }

  /** A step that touches no transaction, and credits p only when p is settled and successful. */
  lemma SettledKeepsOnce(db: Database, after: Database, p: nat)
    requires CreditedAtMostOnce(db, p) && after.WellFormed() && after.transactions == db.transactions
    requires p < |after.payments| && after.payments[p].kind == db.payments[p].kind
    requires || (&& (after.payments[p] == db.payments[p] || after.payments[p].status == PaymentSuccess)
                 && CreditsOf(after.credits, p) == CreditsOf(db.credits, p))
             || (&& CreditsOf(db.credits, p) == [] && |CreditsOf(after.credits, p)| <= 1
                 && Settled(db, p) && after.payments[p].status == PaymentSuccess)
    ensures CreditedAtMostOnce(after, p)
  {
  }

  lemma DeclineKeepsOnce(db: Database, merchantID: int, q: nat, p: nat)
    requires CreditedAtMostOnce(db, p) && Settled(db, q)
    ensures CreditedAtMostOnce(Decline(db, merchantID, q).db, p)
  {
    RowsWellFormed(db, Decline(db, merchantID, q).db);
  }

  lemma AttributionKeepsOnce(db: Database, u: Unmatched, p: nat)
    requires CreditedAtMostOnce(db, p)
    ensures CreditedAtMostOnce(ResolveUnmatched(db, u, true).db, p)
  {
    match Attributed(db, u)
    case None =>
    case Some(inv) =>
      if u.collector != "" {
        var relocked := Relocked(db, inv, u);
        RelockKeepsOnce(db, inv, u, p);
        InboundKeepsOnce(relocked, |db.transactions|, CrossCurrencyInput(u), Tolerance(None, None), p);
      }
  }

  lemma RelockKeepsOnce(db: Database, inv: nat, u: Unmatched, p: nat)
    requires CreditedAtMostOnce(db, p) && inv < |db.transactions| && db.transactions[inv].status == Pending
    requires u.currency.Some? && u.amount.Some?
    ensures CreditedAtMostOnce(Relocked(db, inv, u), p)
    ensures Relocked(db, inv, u).transactions[|db.transactions|].status == Pending
  {
    var relocked := Relocked(db, inv, u);
    assert relocked.WellFormed();
    if db.transactions[inv].entityID == p {
      LiveIsUncredited(db, p, inv);
      AppendedIsLatest(db, relocked, p);
    } else {
      Untouched(db, relocked, p);
    }
  }

  /** A step that touches neither transactions nor credits, and the status of p only while p is
      editable. */
  lemma QuietKeepsOnce(db: Database, after: Database, p: nat)
    requires CreditedAtMostOnce(db, p) && after.WellFormed()
    requires after.transactions == db.transactions && after.credits == db.credits
    requires p < |after.payments| && after.payments[p].kind == db.payments[p].kind
    requires after.payments[p].status == db.payments[p].status || db.payments[p].status == PaymentPending
    ensures CreditedAtMostOnce(after, p)
  {
  }

  lemma StepKeepsOnce(db: Database, e: Event, p: nat)
    requires CreditedAtMostOnce(db, p) && Guard(db, e)
    ensures CreditedAtMostOnce(Step(db, e), p)
  {
    StepWellFormed(db, e);
    match e
    case Receives(t, input, tolerance) => InboundKeepsOnce(db, t, input, tolerance, p);
    case Checks(t, receipt) => CheckKeepsOnce(db, t, receipt, p);
    case Expires(q) => ExpiryKeepsOnce(db, q, p);
    case SetsMethod(q, currency, quote) => SetMethodKeepsOnce(db, q, currency, quote, p);
    case Resolves(merchantID, q) => ResolveKeepsOnce(db, merchantID, q, p);
    case Declines(merchantID, q) => DeclineKeepsOnce(db, merchantID, q, p);
    case Attributes(u, _) => AttributionKeepsOnce(db, u, p);
    case Locks(q) => QuietKeepsOnce(db, LockPaymentOptions(db, q).db, p);
    case AssignsCustomer(q, customerID) => QuietKeepsOnce(db, AssignCustomer(db, q, customerID), p);
    case Rechecks(gone) => QuietKeepsOnce(db, RecheckPartialFills(db, gone), p);
    case CreatesPayment(kind, merchantID, price) => QuietKeepsOnce(db, CreatePayment(db, kind, merchantID, price), p);
    case Waits(seconds) => QuietKeepsOnce(db, db.(now := db.now + seconds), p);
  }

  lemma {:induction false} RunKeepsOnce(db: Database, events: seq<Event>, p: nat)
    requires CreditedAtMostOnce(db, p) && Guarded(db, events)
    ensures CreditedAtMostOnce(Run(db, events), p)
    decreases |events|
  {
    if |events| > 0 {
      StepKeepsOnce(db, events[0], p);
      RunKeepsOnce(Step(db, events[0]), events[1..], p);
    }
  }

  lemma OnceIsNotTwice(db: Database, p: nat)
    requires CreditedAtMostOnce(db, p)
    ensures !CanCreditTwice(db, p)
  {
    forall events | Guarded(db, events) ensures |CreditsOf(Run(db, events).credits, p)| <= 1 {
      RunKeepsOnce(db, events, p);
    }
  }

  // ---------------------------------------------------------------- a credited payment

  lemma {:induction false} CreditsOfSome(credits: seq<Credit>, p: nat, i: nat)
    requires i < |credits| && credits[i].paymentID == p
    ensures |CreditsOf(credits, p)| >= 1
  {
    if i < |credits| - 1 {
      CreditsOfSome(credits[..|credits| - 1], p, i);
    }
  }

  /** A transaction that was confirmed on chain: with hash, sender, and something received. */
  predicate Received(tx: Transaction) {
    && tx.hashID.Some? && tx.senderAddress.Some? && tx.recipient != ""
    && tx.factAmount.Some? && tx.factAmount.value > 0
  }

  /** A credited payment is successful, and its latest transaction is the credited one. */
  lemma CreditedIsFinal(db: Database, p: nat, t: nat)
    requires Inv(db) && p < |db.payments| && !NotCredited(db, p) && Latest(db.transactions, p) == Some(t)
    ensures var tx := db.transactions[t];
      && db.payments[p].status == PaymentSuccess && (tx.status == Completed || tx.status == CompletedInvalid)
      && Received(tx) && tx.factAmount.value == SumConfirmed(db.fills, t) && Gained(tx, tx.factAmount.value) >= 0
    ensures |CreditsOf(db.credits, p)| == 1
  {
    var i :| 0 <= i < |db.credits| && db.credits[i].paymentID == p;
    assert CreditOk(db, db.credits[i]);
    assert PaymentOk(db, p);
    CreditsOfSome(db.credits, p, i);
    DistinctCredits(db.credits, p);
  }

  lemma CreditTwiceEarlier(db: Database, e: Event, p: nat)
    requires db.WellFormed() && Guard(db, e) && Step(db, e).WellFormed() && CanCreditTwice(Step(db, e), p)
    ensures CanCreditTwice(db, p)
  {
    var rest :| Guarded(Step(db, e), rest) && |CreditsOf(Run(Step(db, e), rest).credits, p)| >= 2;
    RunOne(db, e);
    RunAppend(db, [e], rest);
    assert Guarded(db, [e] + rest);
  }

  /** A transaction that is invalid and in progress is credited once the chain confirms it and
      the merchant accepts it, whatever has been credited before. */
  lemma InvalidIsCreditedAgain(db: Database, p: nat, t: nat)
    requires db.WellFormed() && Latest(db.transactions, p) == Some(t)
    requires db.transactions[t].status == InProgressInvalid && Received(db.transactions[t])
    requires |CreditsOf(db.credits, p)| >= 1
    ensures CanCreditTwice(db, p)
  {
    ConfirmInvalidEffect(db, p, t);
    var checked := CheckIncoming(db, t, GOOD_RECEIPT).db;
    LatestFrame(db.transactions, checked.transactions, p);
    var m := checked.payments[p].merchantID;
    ResolveEffect(checked, p, t);
    CreditsOfAppend(db.credits, Resolve(checked, m, p).db.credits[|db.credits|], p);
    TwoEventsCreditTwice(db, Checks(t, GOOD_RECEIPT), Resolves(m, p), p);
  }

  /** A transaction that is in progress again is credited when its receipt confirms. */
  lemma PromotedIsCreditedAgain(db: Database, p: nat, t: nat)
    requires db.WellFormed() && Latest(db.transactions, p) == Some(t)
    requires db.transactions[t].status == InProgress && Received(db.transactions[t])
    requires Gained(db.transactions[t], db.transactions[t].factAmount.value) >= 0
    requires |CreditsOf(db.credits, p)| >= 1
    ensures CanCreditTwice(db, p)
  {
    var e, tx := Checks(t, GOOD_RECEIPT), db.transactions[t];
    var c := Credit(KeyOf(tx), p, t, Gained(tx, tx.factAmount.value));
    assert Step(db, e).credits == db.credits + [c];
    CreditsOfAppend(db.credits, c, p);
    RunOne(db, e);
    assert Guarded(db, [e]);
  }

  // ---------------------------------------------------------------- what a reconciled fill does

  function ReconcileInput(db: Database, t: nat, hash: string, amount: int, sender: string): Input
    requires t < |db.transactions|
  {
    var currency := db.transactions[t].currency;
    Input(currency, amount, if sender == "" then "admin-reconcile" else sender, hash, currency.networkID)
  }

  /** The transaction row and the payments that a promotion writes, by the second price read. */
  lemma PromotionWrites(db: Database, t: nat, input: Input, tolerance: Tolerance, combined: int)
    requires db.WellFormed() && t < |db.transactions| && input.Valid()
    requires Promote(db, t, input, tolerance, combined).outcome == Done
    ensures var after, p := Promote(db, t, input, tolerance, combined).db, db.transactions[t].entityID;
            var second := CrossesExpected(db.transactions[t].amount, combined, tolerance.second);
      && second.Some? && combined != 0
      && after.fills == RecordFill(db, t, input).fills && after.credits == db.credits
      && after.transactions == db.transactions[t := db.transactions[t].(
           status := if second.value then InProgress else InProgressInvalid, updatedAt := db.now,
           senderAddress := Some(input.sender), factAmount := Some(combined), hashID := Some(input.hash))]
      && after.payments == if second.value
                           then db.payments[p := db.payments[p].(status := PaymentInProgress)] else db.payments
  {
  }

  /** The three ways a reconciled fill can go, by the two price reads. */
  lemma ReconcileEffect(db: Database, p: nat, t: nat, hash: string, amount: int, sender: string, tolerance: Tolerance)
    requires db.WellFormed() && Latest(db.transactions, p) == Some(t)
    requires Reconcile(db, p, hash, amount, sender, tolerance).outcome == Done
    ensures p < |db.payments|
    ensures var input := ReconcileInput(db, t, hash, amount, sender);
            var after := Reconcile(db, p, hash, amount, sender, tolerance).db;
            var combined := SumConfirmed(db.fills, t) + amount;
            var second := CrossesExpected(db.transactions[t].amount, combined, tolerance.second);
      && input.Valid() && after.WellFormed()
      && after.fills == RecordFill(db, t, input).fills && after.credits == db.credits
      && (if !SeemsToCover(db, t, input, tolerance)
          then after == MarkPartial(RecordFill(db, t, input), p)
          else
            && second.Some? && combined != 0
            && after.transactions == db.transactions[t := db.transactions[t].(
                 status := if second.value then InProgress else InProgressInvalid, updatedAt := db.now,
                 senderAddress := Some(input.sender), factAmount := Some(combined), hashID := Some(input.hash))]
            && after.payments == if second.value
                                 then db.payments[p := db.payments[p].(status := PaymentInProgress)] else db.payments)
  {
    var input := ReconcileInput(db, t, hash, amount, sender);
    InboundWellFormed(db, t, input, tolerance);
    if SeemsToCover(db, t, input, tolerance) {
      PromotionWrites(db, t, input, tolerance, SumConfirmed(db.fills, t) + amount);
    }
  }

  predicate AllNamed(fills: seq<Fill>) {
    forall f :: 0 <= f < |fills| ==> fills[f].hash != "" && fills[f].sender != ""
  }

  /** Only a new row of a negative amount lowers the sum. */
  lemma RecordingRaises(db: Database, t: nat, input: Input)
    requires Inv(db) && input.Valid()
    ensures var row, after := FillRow(db, t, input), RecordFill(db, t, input).fills;
      && AllNamed(after)
      && (|| SumConfirmed(after, t) >= SumConfirmed(db.fills, t)
          || (input.amount < 0 && after == db.fills + [row]))
  {
    var row := FillRow(db, t, input);
    UpsertSum(db.fills, row, t);
    forall f | 0 <= f < |db.fills| ensures FillOk(db.fills[f], db.now) {
    }
  }

  /** The expiry of a payment that is partial behind a finalized transaction opens it again. */
  lemma ExpiryReopens(db: Database, p: nat, t: nat)
    requires db.WellFormed() && p < |db.payments| && Latest(db.transactions, p) == Some(t)
    requires db.payments[p].status == PaymentPartial && db.payments[p].kind == TypePayment
    requires db.transactions[t].status.IsFinalized() && db.transactions[t].recipient != ""
    requires SumConfirmed(db.fills, t) > 0
    requires AllNamed(db.fills)
    ensures var after := Expire(db, p).db;
      && after.WellFormed() && Latest(after.transactions, p) == Some(t)
      && after.transactions[t].status == InProgressInvalid && Received(after.transactions[t])
      && after.credits == db.credits
  {
    ExpireWellFormed(db, p);
    if FirstFill(db.fills, t).None? {
      SumOfNothing(db.fills, t, ConfirmedOnly);
    }
    LatestFrame(db.transactions, Expire(db, p).db.transactions, p);
  }

  /** From a partial payment behind a finalized transaction to a second credit. */
  lemma PartialIsCreditedAgain(db: Database, p: nat, t: nat)
    requires db.WellFormed() && p < |db.payments| && Latest(db.transactions, p) == Some(t)
    requires db.payments[p].status == PaymentPartial && db.payments[p].kind == TypePayment
    requires db.transactions[t].status.IsFinalized() && db.transactions[t].recipient != ""
    requires SumConfirmed(db.fills, t) > 0 && |CreditsOf(db.credits, p)| >= 1
    requires AllNamed(db.fills)
    ensures CanCreditTwice(db, p)
  {
    ExpiryReopens(db, p, t);
    InvalidIsCreditedAgain(Expire(db, p).db, p, t);
    CreditTwiceEarlier(db, Expires(p), p);
  }

  lemma LastIsReorged(fills: seq<Fill>, rows: seq<Fill>, t: nat)
    requires |rows| == |fills| > 0 && rows[..|fills| - 1] == fills[..|fills| - 1]
    requires rows[|fills| - 1].status == Reorged
    ensures SumConfirmed(rows, t) == SumConfirmed(fills[..|fills| - 1], t)
  {
  }

  lemma RecheckKeepsNames(db: Database, gone: set<nat>)
    requires db.WellFormed() && AllNamed(db.fills)
    ensures var after := RecheckPartialFills(db, gone);
      after.WellFormed() && after == db.(fills := after.fills) && AllNamed(after.fills)
  {
    StepWellFormed(db, Rechecks(gone));
  }

  /** The answer of the chain that only the last fill of the ledger is gone. */
  function LastIsGone(fills: seq<Fill>): set<nat> {
    if |fills| == 0 then {} else {|fills| - 1}
  }

  /** Half an hour later a recheck takes the last fill of the ledger back. */
  lemma LastFillTakenBack(db: Database, p: nat, t: nat)
    requires db.WellFormed() && p < |db.payments| && Latest(db.transactions, p) == Some(t)
    requires db.payments[p].status == PaymentPartial && |db.fills| > 0
    requires var last := db.fills[|db.fills| - 1];
      last.transactionID == t && last.status == Confirmed && last.observedAt == db.now
    ensures var later := db.(now := db.now + REORG_GRACE_PERIOD);
      && later.WellFormed()
      && SumConfirmed(RecheckPartialFills(later, LastIsGone(db.fills)).fills, t)
         == SumConfirmed(db.fills[..|db.fills| - 1], t)
  {
    var later := db.(now := db.now + REORG_GRACE_PERIOD);
    assert later.WellFormed();
    LastIsReorged(db.fills, RecheckPartialFills(later, LastIsGone(db.fills)).fills, t);
  }

  lemma TakenBackIsCreditedAgain(db: Database, p: nat, t: nat)
    requires db.WellFormed() && p < |db.payments| && Latest(db.transactions, p) == Some(t)
    requires db.payments[p].status == PaymentPartial && db.payments[p].kind == TypePayment
    requires db.transactions[t].status.IsFinalized() && db.transactions[t].recipient != ""
    requires |db.fills| > 0 && SumConfirmed(db.fills[..|db.fills| - 1], t) > 0 && |CreditsOf(db.credits, p)| >= 1
    requires var last := db.fills[|db.fills| - 1];
      last.transactionID == t && last.status == Confirmed && last.observedAt == db.now
    requires AllNamed(db.fills)
    ensures CanCreditTwice(db, p)
  {
    var later, gone := db.(now := db.now + REORG_GRACE_PERIOD), LastIsGone(db.fills);
    LastFillTakenBack(db, p, t);
    RecheckKeepsNames(later, gone);
    PartialIsCreditedAgain(RecheckPartialFills(later, gone), p, t);
    RecheckedLater(db, p, gone);
  }

  lemma RecheckedLater(db: Database, p: nat, gone: set<nat>)
    requires var later := db.(now := db.now + REORG_GRACE_PERIOD);
      && db.WellFormed() && later.WellFormed() && RecheckPartialFills(later, gone).WellFormed()
      && CanCreditTwice(RecheckPartialFills(later, gone), p)
    ensures CanCreditTwice(db, p)
  {
    CreditTwiceEarlier(db.(now := db.now + REORG_GRACE_PERIOD), Rechecks(gone), p);
    CreditTwiceEarlier(db, Waits(REORG_GRACE_PERIOD), p);
  }

  lemma SmallFillReopens(db: Database, p: nat, t: nat, input: Input)
    requires Inv(db) && p < |db.payments| && Latest(db.transactions, p) == Some(t) && !NotCredited(db, p)
    requires input.Valid() && db.payments[p].kind == TypePayment
    requires MarkPartial(RecordFill(db, t, input), p).WellFormed()
    ensures CanCreditTwice(MarkPartial(RecordFill(db, t, input), p), p)
  {
    var after := MarkPartial(RecordFill(db, t, input), p);
    CreditedIsFinal(db, p, t);
    RecordingRaises(db, t, input);
    if SumConfirmed(after.fills, t) > 0 {
      PartialIsCreditedAgain(after, p, t);
    } else {
      assert after.fills[..|after.fills| - 1] == db.fills;
      TakenBackIsCreditedAgain(after, p, t);
    }
  }

  /** Whether a reconciled fill opens a payment that was credited to a second credit. One that
      does not seem to cover the invoice does so whenever the payment is one that expires; one
      that does, unless no confirmation accepts the sum it adds up to. */
  predicate Reopens(db: Database, p: nat, t: nat, amount: int, tolerance: Tolerance)
    requires p < |db.payments| && t < |db.transactions|
  {
    var tx, combined := db.transactions[t], SumConfirmed(db.fills, t) + amount;
    if CrossesExpected(tx.amount, combined, tolerance.first) == Some(true)
    then && combined > 0
         && (CrossesExpected(tx.amount, combined, tolerance.second) == Some(true) ==> Gained(tx, combined) >= 0)
    else db.payments[p].kind == TypePayment
  }

  lemma CoveringFillReopens(db: Database, p: nat, t: nat, hash: string, amount: int, sender: string,
                            tolerance: Tolerance)
    requires Inv(db) && Latest(db.transactions, p) == Some(t) && p < |db.payments| && !NotCredited(db, p)
    requires Reconcile(db, p, hash, amount, sender, tolerance).outcome == Done
    requires SeemsToCover(db, t, ReconcileInput(db, t, hash, amount, sender), tolerance)
    requires Reopens(db, p, t, amount, tolerance)
    ensures Reconcile(db, p, hash, amount, sender, tolerance).db.WellFormed()
    ensures CanCreditTwice(Reconcile(db, p, hash, amount, sender, tolerance).db, p)
  {
    var after := Reconcile(db, p, hash, amount, sender, tolerance).db;
    ReconcileEffect(db, p, t, hash, amount, sender, tolerance);
    CreditedIsFinal(db, p, t);
    LatestFrame(db.transactions, after.transactions, p);
    if after.transactions[t].status == InProgress {
      PromotedIsCreditedAgain(after, p, t);
    } else {
      InvalidIsCreditedAgain(after, p, t);
    }
  }

  lemma CreditedIsCreditedAgain(db: Database, p: nat, t: nat, hash: string, amount: int, sender: string,
                                tolerance: Tolerance)
    requires Inv(db) && Latest(db.transactions, p) == Some(t) && p < |db.payments| && !NotCredited(db, p)
    requires Reconcile(db, p, hash, amount, sender, tolerance).outcome == Done
    requires Reopens(db, p, t, amount, tolerance)
    ensures Reconcile(db, p, hash, amount, sender, tolerance).db.WellFormed()
    ensures CanCreditTwice(Reconcile(db, p, hash, amount, sender, tolerance).db, p)
  {
    var input := ReconcileInput(db, t, hash, amount, sender);
    if SeemsToCover(db, t, input, tolerance) {
      CoveringFillReopens(db, p, t, hash, amount, sender, tolerance);
    } else {
      ReconcileEffect(db, p, t, hash, amount, sender, tolerance);
      SmallFillReopens(db, p, t, input);
    }
  }

  /** Whatever a fill makes of its transaction, the payment is credited once at most if it has
      not been credited so far; and if it has, as long as it stays closed. */
  lemma MovedIsCreditedOnce(db: Database, after: Database, p: nat, t: nat)
    requires Inv(db) && Latest(db.transactions, p) == Some(t) && p < |db.payments| && after.WellFormed()
    requires |after.transactions| == |db.transactions|
    requires forall u :: 0 <= u < |db.transactions| ==>
               && after.transactions[u].entityID == db.transactions[u].entityID
               && (u != t ==> after.transactions[u].status == db.transactions[u].status)
    requires after.credits == db.credits && p < |after.payments|
    requires || NotCredited(db, p)
             || (&& (after.transactions[t].status == db.transactions[t].status || Unconfirmable(after.transactions[t]))
                 && (|| after.payments[p].status == PaymentSuccess || after.payments[p].status == PaymentInProgress
                     || (after.payments[p].status == PaymentPartial && after.payments[p].kind != TypePayment)))
    ensures CreditedAtMostOnce(after, p)
  {
    LatestFrame(db.transactions, after.transactions, p);
    OthersAreFinal(db, p, t);
    DistinctCredits(db.credits, p);
    if !NotCredited(db, p) {
      CreditedIsFinal(db, p, t);
    }
  }

  lemma OtherwiseCreditedOnce(db: Database, p: nat, t: nat, hash: string, amount: int, sender: string,
                              tolerance: Tolerance)
    requires Inv(db) && Latest(db.transactions, p) == Some(t) && p < |db.payments|
    requires Reconcile(db, p, hash, amount, sender, tolerance).outcome == Done
    requires NotCredited(db, p) || !Reopens(db, p, t, amount, tolerance)
    ensures CreditedAtMostOnce(Reconcile(db, p, hash, amount, sender, tolerance).db, p)
  {
    ReconcileEffect(db, p, t, hash, amount, sender, tolerance);
    if !NotCredited(db, p) {
      CreditedIsFinal(db, p, t);
    }
    MovedIsCreditedOnce(db, Reconcile(db, p, hash, amount, sender, tolerance).db, p, t);
  }

  /** A refused call may have recorded its fill, but moves nothing else. */
  lemma RefusedIsCreditedOnce(db: Database, p: nat, hash: string, amount: int, sender: string, tolerance: Tolerance)
    requires Inv(db) && Reconcile(db, p, hash, amount, sender, tolerance).outcome != Done
    ensures var after := Reconcile(db, p, hash, amount, sender, tolerance).db;
      after.WellFormed() && !CanCreditTwice(after, p)
  {
    var latest, after := Latest(db.transactions, p), Reconcile(db, p, hash, amount, sender, tolerance).db;
    if latest.Some? {
      InboundWellFormed(db, latest.value, ReconcileInput(db, latest.value, hash, amount, sender), tolerance);
      RefusedFrame(db, latest.value, ReconcileInput(db, latest.value, hash, amount, sender), tolerance);
    }
    if after == db {
      OkCannotCreditTwice(db, p);
    } else {
      if !NotCredited(db, p) {
        CreditedIsFinal(db, p, latest.value);
      }
      MovedIsCreditedOnce(db, after, p, latest.value);
      OnceIsNotTwice(after, p);
    }
  }

  lemma RefusedFrame(db: Database, t: nat, input: Input, tolerance: Tolerance)
    requires db.WellFormed() && t < |db.transactions|
    requires ProcessInbound(db, t, input, tolerance).outcome != Done
    ensures var after := ProcessInbound(db, t, input, tolerance).db;
      after == db || after == RecordFill(db, t, input)
  {
  }

  /** A reconciled fill, of any amount, with any answers of the price feed, and whatever the
      status of the transaction, leads to a double credit exactly when it is accepted, the
      payment has been credited before, and the fill reopens it. */
  lemma ReconcileExact(db: Database, p: nat, hash: string, amount: int, sender: string, tolerance: Tolerance)
    requires Reachable(db)
    ensures var r := Reconcile(db, p, hash, amount, sender, tolerance);
      && r.db.WellFormed()
      && (r.outcome == Done ==> Latest(db.transactions, p).Some? && p < |db.payments|)
      && (CanCreditTwice(r.db, p) <==>
            && r.outcome == Done && !NotCredited(db, p)
            && Reopens(db, p, Latest(db.transactions, p).value, amount, tolerance))
  {
    ReachableIsOk(db);
    if Reconcile(db, p, hash, amount, sender, tolerance).outcome != Done {
      RefusedIsCreditedOnce(db, p, hash, amount, sender, tolerance);
    } else {
      var t := Latest(db.transactions, p).value;
      ReconcileEffect(db, p, t, hash, amount, sender, tolerance);
      if !NotCredited(db, p) && Reopens(db, p, t, amount, tolerance) {
        CreditedIsCreditedAgain(db, p, t, hash, amount, sender, tolerance);
      } else {
        OtherwiseCreditedOnce(db, p, t, hash, amount, sender, tolerance);
        OnceIsNotTwice(Reconcile(db, p, hash, amount, sender, tolerance).db, p);
      }
    }
  }

  /** For a payment that was credited, a fill of a positive amount reopens it unless it covers
      nothing and the payment never expires. */
  lemma PositiveFillReopens(db: Database, p: nat, amount: nat, tolerance: Tolerance)
    requires Reachable(db) && p < |db.payments| && !NotCredited(db, p) && Latest(db.transactions, p).Some?
    ensures var t := Latest(db.transactions, p).value;
      Reopens(db, p, t, amount, tolerance) <==>
      || db.payments[p].kind == TypePayment
      || CrossesExpected(db.transactions[t].amount, SumConfirmed(db.fills, t) + amount, tolerance.first) == Some(true)
  {
    ReachableIsOk(db);
    CreditedIsFinal(db, p, Latest(db.transactions, p).value);
  }

  /** Success survives a reconciled fill exactly when the call is refused, or when the fill seems
      to cover the invoice at the first price read and no longer at the second. Accepted at one
      price, it never does. */
  lemma SuccessSurvivesExactly(db: Database, p: nat, hash: string, amount: int, sender: string, tolerance: Tolerance)
    requires Reachable(db) && p < |db.payments| && db.payments[p].status == PaymentSuccess
    ensures var r := Reconcile(db, p, hash, amount, sender, tolerance);
      && |r.db.payments| == |db.payments| && (r.outcome == Done ==> Latest(db.transactions, p).Some?)
      && (r.db.payments[p].status == PaymentSuccess <==>
            || r.outcome != Done
            || var t := Latest(db.transactions, p).value;
               var required, combined := db.transactions[t].amount, SumConfirmed(db.fills, t) + amount;
               && CrossesExpected(required, combined, tolerance.first) == Some(true)
               && CrossesExpected(required, combined, tolerance.second) == Some(false))
      && (r.outcome == Done && tolerance.first == tolerance.second ==> r.db.payments[p].status != PaymentSuccess)
  {
    ReachableIsOk(db);
    var latest := Latest(db.transactions, p);
    if latest.Some? {
      if Reconcile(db, p, hash, amount, sender, tolerance).outcome == Done {
        ReconcileEffect(db, p, latest.value, hash, amount, sender, tolerance);
      } else {
        RefusedFrame(db, latest.value, ReconcileInput(db, latest.value, hash, amount, sender), tolerance);
      }
    }
  }
}
