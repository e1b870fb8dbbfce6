/** The payment flow as the services run it: tables that each call updates row by row.
    Every method leaves exactly the database of the function that specifies it, so what is
    proved about runs of those functions holds of runs of these methods. */
module Service {
  import opened Domain
  import opened Ledger
  import opened Steps
  import opened Protocol
  import opened Runs
  import opened Effects
  import Attribution

  /** ListPartialPaymentTxIDs. */
  function PartialTransactions(payments: seq<Payment>, txs: seq<Transaction>): (r: seq<nat>)
    requires forall t :: 0 <= t < |txs| ==> txs[t].entityID < |payments|
    ensures forall t: nat :: t in r <==> t < |txs| && payments[txs[t].entityID].status == PaymentPartial
    ensures forall i, j :: 0 <= i < j < |r| ==> r[i] < r[j]
  {
    if |txs| == 0 then []
    else
      var last := |txs| - 1;
      var rest := PartialTransactions(payments, txs[..last]);
      assert forall i :: 0 <= i < |rest| ==> rest[i] in rest;
      rest + if payments[txs[last].entityID].status == PaymentPartial then [last] else []
  }

  /** ListFills: the ids of the fills of one transaction, in observation order. */
  function FillsOf(fills: seq<Fill>, t: nat): (r: seq<nat>)
    ensures forall f: nat :: f in r <==> f < |fills| && fills[f].transactionID == t
    ensures forall i, j :: 0 <= i < j < |r| ==> r[i] < r[j]
  {
    if |fills| == 0 then []
    else
      var last := |fills| - 1;
      var rest := FillsOf(fills[..last], t);
      assert forall i :: 0 <= i < |rest| ==> rest[i] in rest;
      rest + if fills[last].transactionID == t then [last] else []
  }

  /** The head of that list is the fill that names the hash and the sender at expiry. */
  lemma HeadIsFirstFill(fills: seq<Fill>, t: nat)
    ensures FirstFill(fills, t) == if |FillsOf(fills, t)| == 0 then None else Some(FillsOf(fills, t)[0])
  {
    var own := FillsOf(fills, t);
    if |own| == 0 {
      assert forall f :: 0 <= f < |fills| ==> f !in own;
    } else {
      assert own[0] in own;
      assert FirstFill(fills, t).value in own;
    }
  }

  function Marked(fills: seq<Fill>, ids: set<nat>): (r: seq<Fill>)
    ensures |r| == |fills|
  {
    seq(|fills|, f requires 0 <= f < |fills| => if f in ids then fills[f].(status := Reorged) else fills[f])
  }

  function AllFlagged(db: Database, gone: set<nat>): set<nat>
    requires db.WellFormed()
  {
    set f: nat | f < |db.fills| && Flagged(db, f, gone)
  }

  lemma FlaggedAreTakenBack(db: Database, gone: set<nat>)
    requires db.WellFormed()
    ensures AllFlagged(db, gone) == TakenBack(db, gone)
    ensures ReorgsExactly(db.fills, RecheckPartialFills(db, gone).fills, TakenBack(db, gone))
  {
    RecheckExact(db, gone);
  }

  /** The fills to flag of the transactions that are done, and those fills among `more`. */
  function FlaggedIn(db: Database, gone: set<nat>, done: set<nat>, more: set<nat>): set<nat>
    requires db.WellFormed()
  {
    set f <- AllFlagged(db, gone) | db.fills[f].transactionID in done || f in more
  }

  lemma MarkOne(fills: seq<Fill>, ids: set<nat>, f: nat)
    requires f < |fills| && f !in ids
    ensures Marked(fills, ids)[f] == fills[f]
    ensures Marked(fills, ids + {f}) == Marked(fills, ids)[f := fills[f].(status := Reorged)]
  {
  }

  /** How far the recheck has come: the transactions that are done, the fills that are done
      of the present one, and what that has made of the ledger and the counter. */
  ghost predicate Progress(db: Database, gone: set<nat>, done: set<nat>, more: set<nat>, fills: seq<Fill>, flagged: nat)
    requires db.WellFormed()
  {
    var hit := FlaggedIn(db, gone, done, more);
    fills == Marked(db.fills, hit) && flagged == |hit|
  }

  /** Looking at one more fill. */
  lemma ProgressFill(db: Database, gone: set<nat>, done: set<nat>, more: set<nat>, fills: seq<Fill>, flagged: nat,
                     f: nat)
    requires db.WellFormed() && f < |db.fills| && Progress(db, gone, done, more, fills, flagged)
    requires f !in more && db.fills[f].transactionID !in done
    ensures |fills| == |db.fills| && fills[f] == db.fills[f]
    ensures if Flagged(db, f, gone)
            then Progress(db, gone, done, more + {f}, fills[f := fills[f].(status := Reorged)], flagged + 1)
            else Progress(db, gone, done, more + {f}, fills, flagged)
  {
    var hit := FlaggedIn(db, gone, done, more);
    assert f !in hit;
    MarkOne(db.fills, hit, f);
    assert FlaggedIn(db, gone, done, more + {f}) == if Flagged(db, f, gone) then hit + {f} else hit;
  }

  /** The last fill of a transaction completes it. */
  lemma ProgressTransaction(db: Database, gone: set<nat>, done: set<nat>, more: set<nat>, fills: seq<Fill>,
                            flagged: nat, t: nat)
    requires db.WellFormed() && Progress(db, gone, done, more, fills, flagged)
    requires forall f: nat :: f in more <==> f < |db.fills| && db.fills[f].transactionID == t
    ensures Progress(db, gone, done + {t}, {}, fills, flagged)
  {
    assert FlaggedIn(db, gone, done, more) == FlaggedIn(db, gone, done + {t}, {});
  }

  /** Only fills of partial payments are flagged, so nothing else is left to look at. */
  lemma ProgressEnd(db: Database, gone: set<nat>, done: set<nat>, fills: seq<Fill>, flagged: nat)
    requires db.WellFormed() && Progress(db, gone, done, {}, fills, flagged)
    requires forall t: nat :: t in done <==>
               t < |db.transactions| && db.payments[db.transactions[t].entityID].status == PaymentPartial
    ensures fills == RecheckPartialFills(db, gone).fills && flagged == |AllFlagged(db, gone)|
  {
    forall f: nat | f in AllFlagged(db, gone) ensures f in FlaggedIn(db, gone, done, {}) {
      assert db.fills[f].transactionID in done;
    }
    assert FlaggedIn(db, gone, done, {}) == AllFlagged(db, gone);
  }

  function FirstOf(s: seq<nat>, n: nat): set<nat>
    requires n <= |s|
  {
    set x | x in s[..n]
  }

  lemma TakeOneMore(s: seq<nat>, i: nat)
    requires i < |s| && forall j, k :: 0 <= j < k < |s| ==> s[j] < s[k]
    ensures FirstOf(s, i + 1) == FirstOf(s, i) + {s[i]} && s[i] !in FirstOf(s, i) && s[i] in s
  {
    assert s[..i + 1] == s[..i] + [s[i]];
  }

  lemma TakeAll(s: seq<nat>)
    ensures forall x: nat :: x in FirstOf(s, |s|) <==> x in s
  {
    assert s[..|s|] == s;
  }

  class ProcessingService {
    var payments: seq<Payment>
    var transactions: seq<Transaction>
    var fills: seq<Fill>
    var balances: map<BalanceKey, int>
    var credits: seq<Credit>
    var now: int

    ghost function Snapshot(): Database
      reads this
    {
      Database(payments, transactions, fills, balances, credits, now)
    }

    ghost predicate Valid()
      reads this
    {
      Snapshot().WellFormed()
    }

    constructor ()
      ensures Valid() && Snapshot() == Database([], [], [], map[], [], 0)
    {
      payments, transactions, fills, balances, credits, now := [], [], [], map[], [], 0;
    }

    // -------------------------------------------------------------- table writes

    method InsertTransactionFill(row: Fill)
      modifies this`fills
      ensures fills == Upsert(old(fills), row)
    {
      var found := FindFill(fills, row);
      if found.None? {
        fills := fills + [row];
      } else {
        var stored := fills[found.value];
        var confirmations := stored.confirmations;
        if row.confirmations > confirmations {
          confirmations := row.confirmations;
        }
        var status := stored.status;
        if row.confirmations >= stored.confirmations && row.status == Confirmed {
          status := Confirmed;
        }
        fills := fills[found.value := stored.(confirmations := confirmations, status := status)];
      }
    }

    method MarkFillReorged(f: nat)
      requires f < |fills|
      modifies this`fills
      ensures fills == old(fills)[f := old(fills)[f].(status := Reorged)]
    {
      fills := fills[f := fills[f].(status := Reorged)];
    }

    method UpdatePayment(p: nat, status: PaymentStatus)
      requires p < |payments|
      modifies this`payments
      ensures Snapshot() == SetPaymentStatus(old(Snapshot()), p, status)
    {
      payments := payments[p := payments[p].(status := status)];
      if status == PaymentLocked {
        payments := payments[p := payments[p].(expiresAt := Some(now + EXPIRATION_PERIOD_FOR_LOCKED))];
      }
    }

    method ExtendPaymentExpiry(p: nat, status: PaymentStatus, requested: int)
      requires p < |payments|
      modifies this`payments
      ensures payments == old(payments)[p := old(payments)[p].(
                status := status, expiresAt := Some(ExtendedExpiry(old(payments)[p], requested)))]
    {
      var base := payments[p].originalExpiresAt;
      if base.None? {
        base := payments[p].expiresAt;
      }
      var expiry := requested;
      if base.Some? && base.value + EXTENSION_CAP < requested {
        expiry := base.value + EXTENSION_CAP;
      }
      payments := payments[p := payments[p].(status := status, expiresAt := Some(expiry))];
    }

    method MarkPartial(p: nat)
      requires p < |payments|
      modifies this`payments
      ensures Snapshot() == Steps.MarkPartial(old(Snapshot()), p)
    {
      ExtendPaymentExpiry(p, PaymentPartial, now + PARTIAL_EXTENSION_PER_FILL);
    }

    method CancelTransaction(t: nat, status: TransactionStatus)
      requires t < |transactions|
      modifies this`transactions
      ensures Snapshot() == SetTransactionStatus(old(Snapshot()), t, status)
    {
      transactions := transactions[t := transactions[t].(status := status, updatedAt := now)];
    }

    method Receive(t: nat, status: TransactionStatus, sender: string, hash: string, fact: int) returns (ok: bool)
      requires t < |transactions|
      modifies this`transactions
      ensures ok == Steps.Receive(old(Snapshot()), t, status, sender, hash, fact).Some?
      ensures Snapshot() == if ok then Steps.Receive(old(Snapshot()), t, status, sender, hash, fact).value
                            else old(Snapshot())
    {
      ok := sender != "" && hash != "" && fact != 0;
      if ok {
        transactions := transactions[t := transactions[t].(
          status := status, updatedAt := now, senderAddress := Some(sender),
          factAmount := Some(fact), hashID := Some(hash))];
      }
    }

    /** The balance increment and its audit line. */
    method UpdateBalance(t: nat, amount: int)
      requires t < |transactions|
      modifies this`balances, this`credits
      ensures Snapshot() == CreditMerchant(old(Snapshot()), t, amount)
    {
      var tx := transactions[t];
      var key := BalanceKey(tx.merchantID, tx.currency.ticker, tx.currency.networkID);
      if key !in balances {
        balances := balances[key := 0];
      }
      balances := balances[key := balances[key] + amount];
      credits := credits + [Credit(key, tx.entityID, t, amount)];
    }

    // -------------------------------------------------------------- inbound transfers

    method RecordFill(t: nat, input: Input)
      requires t < |transactions|
      modifies this`fills
      ensures Snapshot() == Steps.RecordFill(old(Snapshot()), t, input)
    {
      InsertTransactionFill(Fill(t, input.networkID, input.hash, 0, input.amount, input.sender, 1, Confirmed, now));
    }

    method ProcessInboundTransaction(t: nat, input: Input, tolerance: Tolerance) returns (outcome: Outcome)
      requires Valid()
      modifies this
      ensures Valid()
      ensures Result(Snapshot(), outcome) == ProcessInbound(old(Snapshot()), t, input, tolerance)
    {
      StepWellFormed(Snapshot(), Receives(t, input, tolerance));
      if t >= |transactions| {
        return Refused(NotFound);
      }
      if !input.Valid() {
        return Refused(InvalidInput);
      }
      if !transactions[t].currency.CompatibleTo(input.currency) {
        return Refused(IncompatibleMoney);
      }
      var combined := SumConfirmed(fills, t) + input.amount;
      var crosses := CrossesExpected(transactions[t].amount, combined, tolerance.first);
      if crosses.None? {
        return Refused(PriceUnavailable);
      }
      if !crosses.value {
        RecordFill(t, input);
        MarkPartial(transactions[t].entityID);
        return Done;
      }
      outcome := PromoteFromPartial(t, input, tolerance, combined);
    }

    method PromoteFromPartial(t: nat, input: Input, tolerance: Tolerance, combined: int) returns (outcome: Outcome)
      requires Valid() && t < |transactions|
      modifies this
      ensures Result(Snapshot(), outcome) == Promote(old(Snapshot()), t, input, tolerance, combined)
    {
      var status, priced := DetermineIncomingStatus(t, tolerance, combined);
      if !priced {
        return Refused(PriceUnavailable);
      }
      RecordFill(t, input);
      var received := Receive(t, status, input.sender, input.hash, combined);
      if !received {
        return Refused(EmptyFactAmount);
      }
      if transactions[t].status == InProgress {
        UpdatePayment(transactions[t].entityID, PaymentInProgress);
      }
      return Done;
    }

    /** determineIncomingStatusFromCombined. */
    method DetermineIncomingStatus(t: nat, tolerance: Tolerance, combined: int)
      returns (status: TransactionStatus, priced: bool)
      requires t < |transactions|
      ensures priced == CrossesExpected(transactions[t].amount, combined, tolerance.second).Some?
      ensures priced ==>
                status == if CrossesExpected(transactions[t].amount, combined, tolerance.second).value
                          then InProgress else InProgressInvalid
    {
      if combined > transactions[t].amount || combined == transactions[t].amount {
        return InProgress, true;
      }
      var crosses := CrossesExpected(transactions[t].amount, combined, tolerance.second);
      if crosses.None? {
        return InProgress, false;
      }
      return if crosses.value then InProgress else InProgressInvalid, true;
    }

    /** AdminReconcileFill: a transfer in the invoice's own currency against the latest
        transaction of a payment, whatever its status. */
    method AdminReconcileFill(p: nat, hash: string, amount: int, sender: string, tolerance: Tolerance)
      returns (outcome: Outcome)
      requires Valid()
      modifies this
      ensures Valid()
      ensures Result(Snapshot(), outcome) == Reconcile(old(Snapshot()), p, hash, amount, sender, tolerance)
    {
      var latest := Latest(transactions, p);
      if latest.None? {
        return Refused(NotFound);
      }
      var currency := transactions[latest.value].currency;
      var author := sender;
      if author == "" {
        author := "admin-reconcile";
      }
      outcome := ProcessInboundTransaction(
        latest.value, Input(currency, amount, author, hash, currency.networkID), tolerance);
    }

    // -------------------------------------------------------------- reorg recheck

    /** Over the transactions of partial payments, and for each over its fills. */
    method RecheckPartialFills(gone: set<nat>) returns (flagged: nat)
      requires Valid()
      modifies this`fills
      ensures Snapshot() == Steps.RecheckPartialFills(old(Snapshot()), gone)
      ensures ReorgsExactly(old(fills), fills, TakenBack(old(Snapshot()), gone))
      ensures flagged == |TakenBack(old(Snapshot()), gone)|
    {
      flagged := 0;
      var ids := PartialTransactions(payments, transactions);
      ghost var db := Snapshot();
      ghost var done: set<nat> := {};
      for i := 0 to |ids|
        invariant done == FirstOf(ids, i)
        invariant Progress(db, gone, done, {}, fills, flagged)
      {
        TakeOneMore(ids, i);
        flagged := RecheckFills(ids[i], gone, flagged, db, done);
        done := done + {ids[i]};
      }
      TakeAll(ids);
      ProgressEnd(db, gone, done, fills, flagged);
      FlaggedAreTakenBack(db, gone);
    }

    /** The inner loop: the fills of one transaction of a partial payment. */
    method RecheckFills(t: nat, gone: set<nat>, before: nat, ghost db: Database, ghost done: set<nat>)
      returns (flagged: nat)
      requires db.WellFormed() && Snapshot() == db.(fills := fills) && t < |transactions|
      requires payments[transactions[t].entityID].status == PaymentPartial && t !in done
      requires Progress(db, gone, done, {}, fills, before)
      modifies this`fills
      ensures Progress(db, gone, done + {t}, {}, fills, flagged)
    {
      flagged := before;
      var own := FillsOf(fills, t);
      assert forall f: nat :: f in own <==> f < |db.fills| && db.fills[f].transactionID == t;
      ghost var more: set<nat> := {};
      for j := 0 to |own|
        invariant more == FirstOf(own, j)
        invariant Progress(db, gone, done, more, fills, flagged)
      {
        var f := own[j];
        TakeOneMore(own, j);
        ProgressFill(db, gone, done, more, fills, flagged, f);
        if fills[f].status == Confirmed && now - fills[f].observedAt >= REORG_GRACE_PERIOD && f in gone {
          MarkFillReorged(f);
          flagged := flagged + 1;
        }
        more := more + {f};
      }
      TakeAll(own);
      ProgressTransaction(db, gone, done, more, fills, flagged, t);
    }

    // -------------------------------------------------------------- receipt check

    method CancelIncomingTransaction(t: nat)
      requires Valid() && t < |transactions|
      modifies this
      ensures Snapshot() == CancelIncoming(old(Snapshot()), t)
    {
      CancelTransaction(t, Failed);
      UpdatePayment(transactions[t].entityID, PaymentFailed);
    }

    /** Confirm runs in one database transaction: an error rolls the row update back. */
    method Confirm(t: nat, status: TransactionStatus) returns (outcome: Outcome)
      requires t < |transactions| && transactions[t].factAmount.Some?
      modifies this`transactions, this`balances, this`credits
      ensures var tx, fact := old(transactions)[t], old(transactions)[t].factAmount.value;
        && outcome == (if fact == 0 then Refused(EmptyFactAmount)
                       else if fact < 0 then Refused(NegativeFactAmount)
                       else if status != CompletedInvalid && Gained(tx, fact) < 0 then Refused(NegativeMoney)
                       else Done)
        && (outcome != Done ==> Snapshot() == old(Snapshot()))
        && (outcome == Done ==>
              var row := tx.(status := status, updatedAt := now,
                             serviceFee := if status == CompletedInvalid then 0 else tx.serviceFee);
              var updated := old(Snapshot()).(transactions := old(transactions)[t := row]);
              Snapshot() == if status == CompletedInvalid then updated
                            else CreditMerchant(updated, t, Gained(tx, fact)))
    {
      var before := transactions;
      var fact := transactions[t].factAmount.value;
      if fact == 0 {
        return Refused(EmptyFactAmount);
      }
      transactions := transactions[t := transactions[t].(status := status, updatedAt := now)];
      if status == CompletedInvalid {
        transactions := transactions[t := transactions[t].(serviceFee := 0)];
      }
      if fact < 0 {
        transactions := before;
        return Refused(NegativeFactAmount);
      }
      if status == CompletedInvalid {
        return Done;
      }
      var gained := fact;
      if fact > transactions[t].amount {
        gained := transactions[t].amount;
      }
      if gained - transactions[t].serviceFee < 0 {
        transactions := before;
        return Refused(NegativeMoney);
      }
      UpdateBalance(t, gained - transactions[t].serviceFee);
      return Done;
    }

    method ConfirmIncomingTransaction(t: nat) returns (outcome: Outcome)
      requires Valid() && t < |transactions| && transactions[t].factAmount.Some?
      modifies this
      ensures Result(Snapshot(), outcome) == ConfirmIncoming(old(Snapshot()), t)
    {
      var setTxStatus, setPaymentStatus := Completed, PaymentSuccess;
      if transactions[t].status == InProgressInvalid {
        setTxStatus, setPaymentStatus := CompletedInvalid, PaymentUnderpaid;
      }
      outcome := Confirm(t, setTxStatus);
      if outcome == Done {
        UpdatePayment(transactions[t].entityID, setPaymentStatus);
      }
    }

    method CheckIncomingTransaction(t: nat, receipt: Receipt) returns (outcome: Outcome)
      requires Valid()
      modifies this
      ensures Valid()
      ensures Result(Snapshot(), outcome) == CheckIncoming(old(Snapshot()), t, receipt)
    {
      StepWellFormed(Snapshot(), Checks(t, receipt));
      if t >= |transactions| {
        return Refused(NotFound);
      }
      var tx := transactions[t];
      if tx.hashID.None? {
        return Refused(EmptyHash);
      } else if tx.senderAddress.None? {
        return Refused(EmptySender);
      } else if tx.recipient == "" {
        return Refused(EmptyRecipient);
      } else if !tx.status.IsInProgress() {
        return Done;
      }
      if receipt.FetchFailed? {
        if now - tx.updatedAt > IN_PROGRESS_TIMEOUT {
          CancelIncomingTransaction(t);
          return Done;
        }
        return Refused(ReceiptUnavailable);
      }
      if !receipt.isConfirmed {
        if now - tx.updatedAt > IN_PROGRESS_TIMEOUT {
          CancelIncomingTransaction(t);
        }
        return Done;
      }
      if !receipt.success {
        CancelIncomingTransaction(t);
        return Done;
      }
      if tx.factAmount.None? {
        return Refused(EmptyFactAmount);
      }
      outcome := ConfirmIncomingTransaction(t);
    }

    // -------------------------------------------------------------- expiry

    method ExpirePayment(p: nat) returns (outcome: Outcome)
      requires Valid()
      modifies this
      ensures Valid()
      ensures Result(Snapshot(), outcome) == Expire(old(Snapshot()), p)
    {
      ExpireWellFormed(Snapshot(), p);
      if p >= |payments| {
        return Refused(NotFound);
      }
      var pt := payments[p];
      if pt.kind != TypePayment {
        return Refused(InvalidType);
      }
      if pt.status != PaymentPending && pt.status != PaymentLocked && pt.status != PaymentPartial {
        return Refused(InvalidStatus);
      }
      var latest := Latest(transactions, p);
      if latest.Some? && transactions[latest.value].status == Pending
         && (pt.status == PaymentLocked || pt.status == PaymentPartial)
         && pt.expiresAt.Some? && now - pt.expiresAt.value < GRACE_PERIOD {
        return Done;
      }
      if pt.status == PaymentPartial && latest.Some? && SumConfirmed(fills, latest.value) != 0 {
        ExpireUnderpaid(p, latest.value);
        return Done;
      }
      CancelAndFailPayment(p, latest);
      return Done;
    }

    method CancelAndFailPayment(p: nat, t: Option<nat>)
      requires p < |payments| && (t.Some? ==> t.value < |transactions|)
      modifies this
      ensures Snapshot() == CancelAndFail(old(Snapshot()), p, t)
    {
      if t.Some? && transactions[t.value].status != Cancelled {
        CancelTransaction(t.value, Cancelled);
      }
      UpdatePayment(p, PaymentFailed);
    }

    method ExpireUnderpaid(p: nat, t: nat)
      requires p < |payments| && t < |transactions|
      modifies this
      ensures Snapshot() == MarkUnderpaid(old(Snapshot()), p, t)
    {
      HeadIsFirstFill(fills, t);
      var own := FillsOf(fills, t);
      var sender, hash := "", "";
      if |own| > 0 {
        assert own[0] in own;
        sender, hash := fills[own[0]].sender, fills[own[0]].hash;
      }
      var ok := Receive(t, InProgressInvalid, sender, hash, SumConfirmed(fills, t));
      UpdatePayment(p, PaymentUnderpaid);
    }

    // -------------------------------------------------------------- setting a payment up

    method CreateIncomingTransaction(p: nat, currency: Currency, quote: Option<Quote>) returns (outcome: Outcome)
      requires p < |payments|
      modifies this`transactions
      ensures Result(Snapshot(), outcome) == CreateIncoming(old(Snapshot()), p, currency, quote)
    {
      if quote.None? {
        return Refused(NoWallet);
      }
      if quote.value.amount == 0 {
        return Refused(AmountIsZero);
      }
      if quote.value.recipient == "" {
        return Refused(EmptyRecipient);
      }
      transactions := transactions + [
        Transaction(payments[p].merchantID, p, Pending, currency, quote.value.recipient,
                    quote.value.amount, quote.value.serviceFee, None, None, None, now)];
      return Done;
    }

    method ChangePaymentMethod(p: nat, t: nat, currency: Currency, quote: Option<Quote>) returns (outcome: Outcome)
      requires p < |payments| && t < |transactions|
      modifies this`transactions
      ensures Result(Snapshot(), outcome) ==
              if old(transactions)[t].recipient == "" then Result(old(Snapshot()), Refused(EmptyRecipient))
              else CreateIncoming(SetTransactionStatus(old(Snapshot()), t, Cancelled), p, currency, quote)
    {
      if transactions[t].recipient == "" {
        return Refused(EmptyRecipient);
      }
      CancelTransaction(t, Cancelled);
      outcome := CreateIncomingTransaction(p, currency, quote);
    }

    method SetPaymentMethod(p: nat, currency: Currency, quote: Option<Quote>) returns (outcome: Outcome)
      requires Valid()
      modifies this
      ensures Valid()
      ensures Result(Snapshot(), outcome) == Steps.SetPaymentMethod(old(Snapshot()), p, currency, quote)
    {
      StepWellFormed(Snapshot(), SetsMethod(p, currency, quote));
      if p >= |payments| {
        return Refused(NotFound);
      }
      if !payments[p].IsEditable() {
        return Refused(InvalidStatus);
      }
      var latest := Latest(transactions, p);
      if latest.None? || transactions[latest.value].status == Cancelled {
        outcome := CreateIncomingTransaction(p, currency, quote);
      } else {
        var tx := transactions[latest.value];
        if tx.currency.ticker == currency.ticker && tx.currency.networkID == currency.networkID {
          outcome := Done;
        } else {
          outcome := ChangePaymentMethod(p, latest.value, currency, quote);
        }
      }
    }

    method LockPaymentOptions(p: nat) returns (outcome: Outcome)
      requires Valid()
      modifies this
      ensures Valid()
      ensures Result(Snapshot(), outcome) == Steps.LockPaymentOptions(old(Snapshot()), p)
    {
      StepWellFormed(Snapshot(), Locks(p));
      if p >= |payments| {
        return Refused(NotFound);
      }
      if !payments[p].IsEditable() {
        return Done;
      }
      if payments[p].customerID.None? || Latest(transactions, p).None? {
        return Refused(OptionsMissing);
      }
      UpdatePayment(p, PaymentLocked);
      return Done;
    }

    // -------------------------------------------------------------- merchant decisions

    method ResolvePayment(merchantID: int, p: nat) returns (outcome: Outcome)
      requires Valid()
      modifies this
      ensures Valid()
      ensures Result(Snapshot(), outcome) == Resolve(old(Snapshot()), merchantID, p)
    {
      StepWellFormed(Snapshot(), Resolves(merchantID, p));
      if p >= |payments| || payments[p].merchantID != merchantID {
        return Refused(NotFound);
      }
      if payments[p].status != PaymentFailed && payments[p].status != PaymentUnderpaid {
        return Refused(InvalidStatus);
      }
      var wasUnderpaid := payments[p].status == PaymentUnderpaid;
      UpdatePayment(p, PaymentSuccess);
      if wasUnderpaid {
        var latest := Latest(transactions, p);
        if latest.Some? {
          var fact := transactions[latest.value].factAmount;
          if fact.Some? && fact.value != 0 {
            UpdateBalance(latest.value, fact.value);
          }
        }
      }
      return Done;
    }

    method DeclinePayment(merchantID: int, p: nat) returns (outcome: Outcome)
      requires Valid()
      modifies this
      ensures Valid()
      ensures Result(Snapshot(), outcome) == Decline(old(Snapshot()), merchantID, p)
    {
      StepWellFormed(Snapshot(), Declines(merchantID, p));
      if p >= |payments| || payments[p].merchantID != merchantID {
        return Refused(NotFound);
      }
      if payments[p].status != PaymentUnderpaid {
        return Refused(InvalidStatus);
      }
      UpdatePayment(p, PaymentFailed);
      return Done;
    }

    // -------------------------------------------------------------- cross-currency payments

    method AutoAcceptCrossCurrency(inv: nat, u: Unmatched, cancelSucceeds: bool) returns (outcome: Outcome)
      requires Valid() && inv < |transactions| && u.currency.Some? && u.amount.Some?
      modifies this
      ensures Valid()
      ensures Result(Snapshot(), outcome) == AutoAccept(old(Snapshot()), inv, u, cancelSucceeds)
    {
      if u.collector == "" {
        return Refused(EmptyRecipient);
      }
      var stale, t := transactions[inv], |transactions|;
      transactions := transactions + [
        Transaction(stale.merchantID, stale.entityID, Pending, u.currency.value, u.collector,
                    u.amount.value, 0, None, None, None, now)];
      if cancelSucceeds {
        CancelTransaction(inv, Cancelled);
      }
      var sender := u.sender;
      if sender == "" {
        sender := "cross-currency-reconcile";
      }
      var input := Input(u.currency.value, u.amount.value, sender, u.hash, u.currency.value.networkID);
      outcome := ProcessInboundTransaction(t, input, Tolerance(None, None));
    }

    /** The gates in front of an automatic re-lock. */
    method AttributeUnmatched(u: Unmatched) returns (inv: Option<nat>)
      requires Valid()
      ensures inv == Attributed(Snapshot(), u)
    {
      var db := Database(payments, transactions, fills, balances, credits, now);
      if u.currency.None? || u.amount.None? || u.amount.value <= 0 {
        return None;
      }
      if HashBound(db, u.currency.value.networkID, u.hash, u.collector) {
        return None;
      }
      var invoices := OpenInvoices(transactions, u.collector, MAX_OPEN_INVOICES);
      if u.fiatValue.None? || u.fiatValue.value < CROSS_CURRENCY_DUST_FIAT {
        return None;
      }
      var value, expected := u.fiatValue.value, Prices(db, invoices);
      var chosen := Attribution.ChooseCrossCurrencyInvoice(value, expected);
      if chosen.None? || value + CROSS_CURRENCY_FIAT_TOLERANCE < expected[chosen.value] {
        return None;
      }
      return Some(invoices[chosen.value]);
    }

    method ResolveUnmatchedCollectorPayment(u: Unmatched, cancelSucceeds: bool) returns (outcome: Outcome)
      requires Valid()
      modifies this
      ensures Valid()
      ensures Result(Snapshot(), outcome) == ResolveUnmatched(old(Snapshot()), u, cancelSucceeds)
    {
      var inv := AttributeUnmatched(u);
      if inv.None? {
        return Done;
      }
      outcome := AutoAcceptCrossCurrency(inv.value, u, cancelSucceeds);
    }
  }
}
