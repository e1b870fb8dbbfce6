/** Every guarded step keeps the invariant. */
module Preservation {
  import opened Domain
  import opened Ledger
  import opened Steps
  import opened Protocol
  import opened Invariant

  lemma UpsertKeepsKeys(fills: seq<Fill>, row: Fill)
    requires forall f, g :: 0 <= f < g < |fills| ==> !SameKey(fills[f], fills[g])
    ensures forall f, g :: 0 <= f < g < |Upsert(fills, row)| ==> !SameKey(Upsert(fills, row)[f], Upsert(fills, row)[g])
  {
    match FindFill(fills, row)
    case None =>
      forall f, g | 0 <= f < g < |Upsert(fills, row)| ensures !SameKey(Upsert(fills, row)[f], Upsert(fills, row)[g]) {
        if g == |fills| { assert !SameKey(fills[f], row); } else { assert !SameKey(fills[f], fills[g]); }
      }
    case Some(i) =>
      forall f, g | 0 <= f < g < |Upsert(fills, row)| ensures !SameKey(Upsert(fills, row)[f], Upsert(fills, row)[g]) {
        assert !SameKey(fills[f], fills[g]);
      }
  }

  /** The rows of one live invoice, its payment and its fills change. */
  ghost predicate InvoiceRows(db: Database, after: Database, p: nat, t: nat) {
    && p < |db.payments| && |after.payments| == |db.payments|
    && after.payments[p].merchantID == db.payments[p].merchantID
    && (forall q :: 0 <= q < |db.payments| && q != p ==> after.payments[q] == db.payments[q])
    && t < |db.transactions| && |after.transactions| == |db.transactions|
    && (forall u :: 0 <= u < |db.transactions| && u != t ==> after.transactions[u] == db.transactions[u])
    && after.transactions[t].entityID == p && after.transactions[t].merchantID == db.transactions[t].merchantID
    && after.now == db.now
    && FillsKept(db, after, t)
  }

  /** They agree afterwards when the new rows fit each other and the ledger. */
  lemma InvoiceRowsAgree(db: Database, after: Database, p: nat, t: nat)
    requires Inv(db) && InvoiceRows(db, after, p, t) && Latest(db.transactions, p) == Some(t)
    requires TransactionOk(after.transactions[t], SumConfirmed(after.fills, t))
    requires ExpiryOk(after.payments[p], after.now)
    requires StatusesAgree(after.payments[p].status, Some(after.transactions[t].status))
    requires after.payments[p].status == PaymentPartial ==> HasFill(after, t)
    ensures after.WellFormed() && OnlyTouches(db, after, p) && PaymentOk(after, p)
    ensures Latest(after.transactions, p) == Some(t)
  {
    LatestFrame(db.transactions, after.transactions, p);
    assert PaymentOk(db, p);
  }

  /** A step that changes such rows, and credits nothing. */
  lemma InvoiceStep(db: Database, after: Database, p: nat, t: nat)
    requires Inv(db) && InvoiceRows(db, after, p, t) && Latest(db.transactions, p) == Some(t)
    requires NotCredited(db, p)
    requires after.transactions[t].status != Completed
    requires after.credits == db.credits && after.balances == db.balances
    requires TransactionOk(after.transactions[t], SumConfirmed(after.fills, t))
    requires ExpiryOk(after.payments[p], after.now)
    requires StatusesAgree(after.payments[p].status, Some(after.transactions[t].status))
    requires after.payments[p].status == PaymentPartial ==> HasFill(after, t)
    ensures Inv(after)
  {
    InvoiceRowsAgree(db, after, p, t);
    assert PaymentOk(db, p);
    LocalStep(db, after, p);
  }

  /** The ledger may only have changed in favour of transaction t. */
  ghost predicate FillsKept(db: Database, after: Database, t: nat) {
    && |db.fills| <= |after.fills|
    && (forall f :: 0 <= f < |db.fills| ==> after.fills[f].transactionID == db.fills[f].transactionID)
    && (forall f :: 0 <= f < |after.fills| ==>
          FillOk(after.fills[f], db.now) && after.fills[f].transactionID < |db.transactions|)
    && (forall f, g :: 0 <= f < g < |after.fills| ==> !SameKey(after.fills[f], after.fills[g]))
    && (forall u :: 0 <= u < |db.transactions| && u != t ==> SumConfirmed(after.fills, u) == SumConfirmed(db.fills, u))
  }

  /** A delivery that is new to the ledger gains what it delivers, and no other does. */
  lemma GainIsAmountExactly(db: Database, t: nat, input: Input)
    requires Inv(db) && input.amount > 0
    ensures Gain(db.fills, FillRow(db, t, input)) == input.amount <==> NewToLedger(db, t, input)
    ensures AlreadyCounted(db, t, input) ==> Gain(db.fills, FillRow(db, t, input)) == 0
  {
    var stored := FindFill(db.fills, FillRow(db, t, input));
    if stored.Some? {
      assert FillOk(db.fills[stored.value], db.now);
    }
  }

  /** Recording a delivery, new or repeated: the sum of its own invoice is up by what it
      gains, every other sum unchanged. */
  lemma RecordFillEffect(db: Database, t: nat, input: Input)
    requires Inv(db) && t < |db.transactions| && input.Valid() && input.amount > 0
    requires NewToLedger(db, t, input) || AlreadyCounted(db, t, input)
    ensures FillsKept(db, RecordFill(db, t, input), t)
    ensures SumConfirmed(RecordFill(db, t, input).fills, t)
         == SumConfirmed(db.fills, t) + Gain(db.fills, FillRow(db, t, input))
    ensures HasFill(RecordFill(db, t, input), t)
  {
    var row := FillRow(db, t, input);
    var after := RecordFill(db, t, input);
    UpsertKeepsKeys(db.fills, row);
    forall u ensures SumConfirmed(after.fills, u)
                  == SumConfirmed(db.fills, u) + if u == t then Gain(db.fills, row) else 0 {
      UpsertSum(db.fills, row, u);
    }
    match FindFill(db.fills, row)
    case None => assert after.fills[|db.fills|].transactionID == t;
    case Some(f) => assert after.fills[f].transactionID == t && FillOk(db.fills[f], db.now);
  }

  lemma PendingIsLatest(db: Database, t: nat)
    requires Inv(db) && t < |db.transactions| && db.transactions[t].status != Cancelled
    ensures var p := db.transactions[t].entityID;
      && Latest(db.transactions, p) == Some(t)
      && TransactionOk(db.transactions[t], SumConfirmed(db.fills, t))
      && PaymentOk(db, p)
  {
    assert PaymentOk(db, db.transactions[t].entityID);
  }

  /** A partial payment may wait half an hour from now, within the cap. */
  lemma PartialRow(db: Database, p: nat)
    requires Inv(db) && p < |db.payments|
    ensures ExpiryOk(MarkPartial(db, p).payments[p], db.now)
    ensures MarkPartial(db, p).payments[p].status == PaymentPartial
  {
    assert PaymentOk(db, p);
  }

  /** Short of its amount with what the delivery gains, an invoice may stay pending. */
  lemma StaysPending(db: Database, t: nat, input: Input)
    requires Inv(db) && t < |db.transactions| && db.transactions[t].status == Pending
    requires input.amount > 0 && (NewToLedger(db, t, input) || AlreadyCounted(db, t, input))
    requires SumConfirmed(db.fills, t) + input.amount < db.transactions[t].amount
    ensures TransactionOk(db.transactions[t], SumConfirmed(db.fills, t) + Gain(db.fills, FillRow(db, t, input)))
  {
    PendingIsLatest(db, t);
    GainIsAmountExactly(db, t, input);
  }

  lemma PartialEffect(db: Database, t: nat, input: Input)
    requires db.WellFormed() && t < |db.transactions|
    ensures var p := db.transactions[t].entityID; var after := MarkPartial(RecordFill(db, t, input), p);
      && after == db.(
           payments := db.payments[p := MarkPartial(db, p).payments[p]], fills := RecordFill(db, t, input).fills)
      && after.payments[p].merchantID == db.payments[p].merchantID
  {
  }

  lemma PartialKeepsInv(db: Database, t: nat, input: Input)
    requires Inv(db) && t < |db.transactions| && db.transactions[t].status == Pending
    requires input.Valid() && input.amount > 0 && (NewToLedger(db, t, input) || AlreadyCounted(db, t, input))
    requires SumConfirmed(db.fills, t) + input.amount < db.transactions[t].amount
    ensures Inv(MarkPartial(RecordFill(db, t, input), db.transactions[t].entityID))
  {
    var p := db.transactions[t].entityID;
    PendingIsLatest(db, t);
    StaysPending(db, t, input);
    PartialRow(db, p);
    PartialEffect(db, t, input);
    UnsuccessfulIsNotCredited(db, p);
    RecordedKeepsInv(db, MarkPartial(RecordFill(db, t, input), p), p, t, input);
  }

  /** A fill is recorded and the rows of its invoice are rewritten to fit the new sum. */
  lemma RecordedKeepsInv(db: Database, after: Database, p: nat, t: nat, input: Input)
    requires Inv(db) && t < |db.transactions| && Latest(db.transactions, p) == Some(t)
    requires input.Valid() && input.amount > 0 && (NewToLedger(db, t, input) || AlreadyCounted(db, t, input))
    requires p < |db.payments| && NotCredited(db, p)
    requires after.fills == RecordFill(db, t, input).fills
    requires after.(payments := db.payments, transactions := db.transactions, fills := db.fills) == db
    requires |after.payments| == |db.payments| && after.payments == db.payments[p := after.payments[p]]
    requires |after.transactions| == |db.transactions|
    requires after.transactions == db.transactions[t := after.transactions[t]]
    requires after.payments[p].merchantID == db.payments[p].merchantID
    requires after.transactions[t].entityID == p && after.transactions[t].merchantID == db.transactions[t].merchantID
    requires after.transactions[t].status != Completed
    requires TransactionOk(after.transactions[t], SumConfirmed(db.fills, t) + Gain(db.fills, FillRow(db, t, input)))
    requires ExpiryOk(after.payments[p], db.now)
    requires StatusesAgree(after.payments[p].status, Some(after.transactions[t].status))
    ensures Inv(after)
  {
    RecordFillEffect(db, t, input);
    SameFills(RecordFill(db, t, input), after, t);
    RowsOfInvoice(db, after, p, t);
    InvoiceStep(db, after, p, t);
  }

  lemma SameFills(recorded: Database, after: Database, t: nat)
    requires after.fills == recorded.fills && HasFill(recorded, t)
    ensures HasFill(after, t)
  {
    var f :| 0 <= f < |recorded.fills| && recorded.fills[f].transactionID == t;
    assert after.fills[f].transactionID == t;
  }

  lemma RowsOfInvoice(db: Database, after: Database, p: nat, t: nat)
    requires p < |db.payments| && t < |db.transactions| && FillsKept(db, after, t) && after.now == db.now
    requires |after.payments| == |db.payments| && after.payments == db.payments[p := after.payments[p]]
    requires |after.transactions| == |db.transactions|
    requires after.transactions == db.transactions[t := after.transactions[t]]
    requires after.payments[p].merchantID == db.payments[p].merchantID
    requires after.transactions[t].entityID == p && after.transactions[t].merchantID == db.transactions[t].merchantID
    ensures InvoiceRows(db, after, p, t)
  {
  }

  /** What a promotion leaves behind, for any transaction: nothing in the services asks for
      a pending one. */
  function Promoted(db: Database, t: nat, input: Input): Database
    requires db.WellFormed() && t < |db.transactions|
  {
    var p := db.transactions[t].entityID;
    db.(
      fills := RecordFill(db, t, input).fills,
      payments := db.payments[p := db.payments[p].(status := PaymentInProgress)],
      transactions := db.transactions[t := db.transactions[t].(
        status := InProgress, updatedAt := db.now, senderAddress := Some(input.sender),
        factAmount := Some(SumConfirmed(db.fills, t) + input.amount), hashID := Some(input.hash))])
  }

  lemma PromotionEffect(db: Database, t: nat, input: Input, tolerance: Tolerance, combined: int)
    requires db.WellFormed() && t < |db.transactions| && input.Valid()
    requires combined == SumConfirmed(db.fills, t) + input.amount && combined != 0
    requires CrossesExpected(db.transactions[t].amount, combined, tolerance.second) == Some(true)
    ensures Promote(db, t, input, tolerance, combined) == Result(Promoted(db, t, input), Done)
  {
  }

  /** A transfer that covers the invoice to the last unit promotes without asking for a price. */
  lemma ExactTransferPromotes(db: Database, t: nat, input: Input)
    requires db.WellFormed() && t < |db.transactions| && input.Valid()
    requires db.transactions[t].currency.CompatibleTo(input.currency)
    requires SumConfirmed(db.fills, t) + input.amount == db.transactions[t].amount != 0
    ensures ProcessInbound(db, t, input, Tolerance(None, None)) == Result(Promoted(db, t, input), Done)
  {
    PromotionEffect(db, t, input, Tolerance(None, None), db.transactions[t].amount);
  }

  /** Promoting the latest transaction of a payment that has not been credited. */
  lemma PromotedKeepsInv(db: Database, t: nat, input: Input)
    requires Inv(db) && t < |db.transactions|
    requires input.Valid() && input.amount > 0 && NewToLedger(db, t, input)
    requires var p := db.transactions[t].entityID; Latest(db.transactions, p) == Some(t) && NotCredited(db, p)
    ensures Inv(Promoted(db, t, input))
  {
    var p := db.transactions[t].entityID;
    SumNonNegative(db.fills, t, ConfirmedOnly);
    GainIsAmountExactly(db, t, input);
    assert PaymentOk(db, p);
    RecordedKeepsInv(db, Promoted(db, t, input), p, t, input);
  }

  lemma InboundKeepsInv(db: Database, t: nat, input: Input, tolerance: Tolerance)
    requires Inv(db) && Guard(db, Receives(t, input, tolerance))
    ensures Inv(ProcessInbound(db, t, input, tolerance).db)
  {
    if t < |db.transactions| && input.Valid() {
      var combined := SumConfirmed(db.fills, t) + input.amount;
      var crosses := CrossesExpected(db.transactions[t].amount, combined, tolerance.first);
      if crosses == Some(false) {
        PartialKeepsInv(db, t, input);
      } else if crosses == Some(true) {
        PendingIsLatest(db, t);
        UnsuccessfulIsNotCredited(db, db.transactions[t].entityID);
        SumNonNegative(db.fills, t, ConfirmedOnly);
        PromotionEffect(db, t, input, tolerance, combined);
        PromotedKeepsInv(db, t, input);
      }
    }
  }

  /** The recheck only lowers sums, and only those of partial payments. */
  lemma RecheckedSum(db: Database, gone: set<nat>, t: nat)
    requires Inv(db) && t < |db.transactions|
    ensures var before, after := SumConfirmed(db.fills, t), SumConfirmed(RecheckPartialFills(db, gone).fills, t);
      && after <= before
      && (db.payments[db.transactions[t].entityID].status != PaymentPartial ==> after == before)
  {
    var after := RecheckPartialFills(db, gone);
    SumMonotone(after.fills, db.fills, t, ConfirmedOnly);
    if db.payments[db.transactions[t].entityID].status != PaymentPartial {
      SumSame(after.fills, db.fills, t, ConfirmedOnly);
    }
  }

  lemma RecheckedPayment(db: Database, gone: set<nat>, p: nat)
    requires Inv(db) && p < |db.payments|
    ensures PaymentOk(RecheckPartialFills(db, gone), p)
  {
    var after := RecheckPartialFills(db, gone);
    assert PaymentOk(db, p);
    forall t | 0 <= t < |db.transactions| && db.transactions[t].entityID == p
      ensures TransactionOk(after.transactions[t], SumConfirmed(after.fills, t))
    {
      assert TransactionOk(db.transactions[t], SumConfirmed(db.fills, t));
      RecheckedSum(db, gone, t);
    }
    if db.payments[p].status == PaymentPartial {
      var t := Latest(db.transactions, p).value;
      var f :| 0 <= f < |db.fills| && db.fills[f].transactionID == t;
      assert after.fills[f].transactionID == t;
    }
  }

  lemma RecheckKeepsInv(db: Database, gone: set<nat>)
    requires Inv(db)
    ensures Inv(RecheckPartialFills(db, gone))
  {
    forall p | 0 <= p < |db.payments| ensures PaymentOk(RecheckPartialFills(db, gone), p) {
      RecheckedPayment(db, gone, p);
    }
    CreditsSame(db, RecheckPartialFills(db, gone));
  }

  /** Credits look only at the payments, the transactions and the balances. */
  lemma CreditsSame(db: Database, after: Database)
    requires Inv(db)
    requires after.transactions == db.transactions
    requires |after.payments| >= |db.payments|
    requires forall p :: 0 <= p < |db.payments| ==> after.payments[p].status == db.payments[p].status
    requires after.credits == db.credits && after.balances == db.balances
    ensures CreditsOk(after)
    ensures forall t :: 0 <= t < |after.transactions| && after.transactions[t].status == Completed ==>
              Credited(after, t)
  {
    forall i | 0 <= i < |after.credits| ensures CreditOk(after, after.credits[i]) {
      assert CreditOk(db, db.credits[i]);
    }
    forall key ensures BalanceOf(after, key) == CreditTotal(after.credits, key) {
      assert BalanceOf(after, key) == BalanceOf(db, key);
    }
    forall t | 0 <= t < |after.transactions| && after.transactions[t].status == Completed
      ensures Credited(after, t)
    {
      var i :| 0 <= i < |db.credits| && db.credits[i].transactionID == t;
      assert after.credits[i].transactionID == t;
    }
  }

  /** A step that changes one live invoice and its payment, but no fill. */
  lemma StatusStep(db: Database, after: Database, p: nat, t: nat)
    requires Inv(db) && t < |db.transactions| && db.transactions[t].entityID == p
    requires Latest(db.transactions, p) == Some(t)
    requires p < |db.payments| && db.payments[p].status != PaymentSuccess
    requires after.(payments := db.payments, transactions := db.transactions) == db
    requires |after.payments| == |db.payments|
    requires after.payments == db.payments[p := after.payments[p]]
    requires after.payments[p].merchantID == db.payments[p].merchantID
    requires |after.transactions| == |db.transactions|
    requires after.transactions == db.transactions[t := after.transactions[t]]
    requires after.transactions[t].entityID == p && after.transactions[t].merchantID == db.transactions[t].merchantID
    requires after.transactions[t].status != Completed && after.payments[p].status != PaymentPartial
    requires TransactionOk(after.transactions[t], SumConfirmed(db.fills, t))
    requires ExpiryOk(after.payments[p], after.now)
    requires StatusesAgree(after.payments[p].status, Some(after.transactions[t].status))
    ensures Inv(after)
  {
    assert FillsKept(db, after, t);
    UnsuccessfulIsNotCredited(db, p);
    InvoiceStep(db, after, p, t);
  }

  predicate Completes(db: Database, t: nat) {
    && t < |db.transactions| && db.transactions[t].status == InProgress
    && db.transactions[t].factAmount.Some?
    && Gained(db.transactions[t], db.transactions[t].factAmount.value) >= 0
  }

  /** Completing a transaction touches its own payment, whose rows then agree. */
  lemma CompletedPayment(db: Database, t: nat)
    requires Inv(db) && Completes(db, t)
    ensures var p, after := db.transactions[t].entityID, ConfirmIncoming(db, t).db;
      && after.WellFormed() && OnlyTouches(db, after, p) && PaymentOk(after, p)
      && db.payments[p].status == PaymentInProgress && Latest(db.transactions, p) == Some(t)
  {
    var p, after := db.transactions[t].entityID, ConfirmIncoming(db, t).db;
    PendingIsLatest(db, t);
    assert FillsKept(db, after, t);
    InvoiceRowsAgree(db, after, p, t);
  }

  /** Completing a transaction credits what it gained. */
  lemma CompletedCredit(db: Database, t: nat)
    requires Inv(db) && Completes(db, t)
    ensures var tx, after := db.transactions[t], ConfirmIncoming(db, t).db;
            var c := Credit(KeyOf(tx), tx.entityID, t, Gained(tx, tx.factAmount.value));
      && after.credits == db.credits + [c] && CreditOk(after, c)
      && after.balances == db.balances[c.key := BalanceOf(db, c.key) + c.amount]
      && after.fills == db.fills
      && after.transactions == db.transactions[t := tx.(status := Completed, updatedAt := db.now)]
  {
    PendingIsLatest(db, t);
  }

  lemma CompleteKeepsInv(db: Database, t: nat)
    requires Inv(db) && Completes(db, t)
    ensures Inv(ConfirmIncoming(db, t).db)
  {
    var p, after := db.transactions[t].entityID, ConfirmIncoming(db, t).db;
    CompletedPayment(db, t);
    CompletedCredit(db, t);
    UnsuccessfulIsNotCredited(db, p);
    OthersAreFinal(db, p, t);
    CreditStep(db, after, p, after.credits[|db.credits|]);
  }

  lemma OthersAreFinal(db: Database, p: nat, t: nat)
    requires Inv(db) && p < |db.payments| && Latest(db.transactions, p) == Some(t)
    ensures forall u :: 0 <= u < |db.transactions| && db.transactions[u].entityID == p && u != t ==>
              db.transactions[u].status == Cancelled
  {
    assert PaymentOk(db, p);
  }

  lemma ConfirmKeepsInv(db: Database, t: nat)
    requires Inv(db) && t < |db.transactions|
    requires db.transactions[t].status.IsInProgress() && db.transactions[t].factAmount.Some?
    ensures Inv(ConfirmIncoming(db, t).db)
  {
    var tx := db.transactions[t];
    PendingIsLatest(db, t);
    if tx.status == InProgressInvalid {
      StatusStep(db, ConfirmIncoming(db, t).db, tx.entityID, t);
    } else if Gained(tx, tx.factAmount.value) >= 0 {
      CompleteKeepsInv(db, t);
    }
  }

  lemma CheckKeepsInv(db: Database, t: nat, receipt: Receipt)
    requires Inv(db)
    ensures Inv(CheckIncoming(db, t, receipt).db)
  {
    var after := CheckIncoming(db, t, receipt).db;
    if after != db {
      PendingIsLatest(db, t);
      if after == CancelIncoming(db, t) {
        StatusStep(db, after, db.transactions[t].entityID, t);
      } else {
        ConfirmKeepsInv(db, t);
      }
    }
  }

  /** The first fill of an invoice that has received something names a hash and a sender. */
  lemma FirstFillIsUsable(db: Database, t: nat)
    requires Inv(db) && SumConfirmed(db.fills, t) != 0
    ensures FirstFill(db.fills, t).Some?
    ensures var f := db.fills[FirstFill(db.fills, t).value]; f.hash != "" && f.sender != ""
  {
    if FirstFill(db.fills, t).None? {
      SumOfNothing(db.fills, t, ConfirmedOnly);
    } else {
      assert FillOk(db.fills[FirstFill(db.fills, t).value], db.now);
    }
  }

  lemma UnderpaidKeepsInv(db: Database, p: nat, t: nat)
    requires Inv(db) && p < |db.payments| && db.payments[p].status == PaymentPartial
    requires Latest(db.transactions, p) == Some(t) && SumConfirmed(db.fills, t) != 0
    ensures Inv(MarkUnderpaid(db, p, t))
  {
    assert PaymentOk(db, p);
    FirstFillIsUsable(db, t);
    SumNonNegative(db.fills, t, ConfirmedOnly);
    StatusStep(db, MarkUnderpaid(db, p, t), p, t);
  }

  lemma CancelAndFailKeepsInv(db: Database, p: nat)
    requires Inv(db) && p < |db.payments|
    requires var status := db.payments[p].status;
      status == PaymentPending || status == PaymentLocked || status == PaymentPartial
    ensures Inv(CancelAndFail(db, p, Latest(db.transactions, p)))
  {
    var latest := Latest(db.transactions, p);
    var after := CancelAndFail(db, p, latest);
    assert PaymentOk(db, p);
    if latest.Some? {
      StatusStep(db, after, p, latest.value);
    } else {
      assert OnlyTouches(db, after, p);
      assert PaymentOk(after, p);
      UnsuccessfulIsNotCredited(db, p);
      LocalStep(db, after, p);
    }
  }

  lemma ExpireKeepsInv(db: Database, p: nat)
    requires Inv(db)
    ensures Inv(Expire(db, p).db)
  {
    var after := Expire(db, p).db;
    if after != db {
      var latest := Latest(db.transactions, p);
      if db.payments[p].status == PaymentPartial && latest.Some? && SumConfirmed(db.fills, latest.value) != 0 {
        UnderpaidKeepsInv(db, p, latest.value);
      } else {
        CancelAndFailKeepsInv(db, p);
      }
    }
  }

  lemma CreatePaymentKeepsInv(db: Database, kind: PaymentKind, merchantID: int, price: real)
    requires Inv(db)
    ensures Inv(CreatePayment(db, kind, merchantID, price))
  {
    var after := CreatePayment(db, kind, merchantID, price);
    forall p | 0 <= p < |after.payments| ensures PaymentOk(after, p) {
      if p < |db.payments| {
        assert PaymentOk(db, p);
        KeepsFill(db, after, p);
      }
    }
    CreditsSame(db, after);
  }

  lemma KeepsFill(db: Database, after: Database, p: nat)
    requires p < |db.payments| && PaymentOk(db, p)
    requires after.transactions == db.transactions && after.fills == db.fills
    ensures db.payments[p].status == PaymentPartial ==> HasFill(after, Latest(after.transactions, p).value)
  {
  }

  /** Changing fields of payment p that the invariant does not look at, or time. */
  lemma QuietStep(db: Database, after: Database)
    requires Inv(db) && after.transactions == db.transactions && after.fills == db.fills
    requires |after.payments| == |db.payments|
    requires forall p :: 0 <= p < |db.payments| ==>
               after.payments[p].(customerID := db.payments[p].customerID) == db.payments[p]
    requires after.credits == db.credits && after.balances == db.balances && after.now >= db.now
    ensures Inv(after)
  {
    forall p | 0 <= p < |after.payments| ensures PaymentOk(after, p) {
      assert PaymentOk(db, p);
      KeepsFill(db, after, p);
    }
    CreditsSame(db, after);
  }

  /** Appending a fresh pending invoice to an editable payment whose invoices are all canceled. */
  lemma CreateIncomingKeepsInv(db: Database, p: nat, currency: Currency, quote: Option<Quote>)
    requires Inv(db) && p < |db.payments| && db.payments[p].status == PaymentPending
    requires Latest(db.transactions, p).Some? ==>
               db.transactions[Latest(db.transactions, p).value].status == Cancelled
    ensures Inv(CreateIncoming(db, p, currency, quote).db)
  {
    var after := CreateIncoming(db, p, currency, quote).db;
    if after != db {
      var t := |db.transactions|;
      assert PaymentOk(db, p);
      LatestAppend(db.transactions, after.transactions[t], p);
      SumOfNothing(db.fills, t, ConfirmedOnly);
      assert OnlyTouches(db, after, p);
      UnsuccessfulIsNotCredited(db, p);
      LocalStep(db, after, p);
    }
  }

  lemma SetMethodKeepsInv(db: Database, p: nat, currency: Currency, quote: Option<Quote>)
    requires Inv(db)
    ensures Inv(SetPaymentMethod(db, p, currency, quote).db)
  {
    var after := SetPaymentMethod(db, p, currency, quote).db;
    if after != db {
      assert PaymentOk(db, p);
      var latest := Latest(db.transactions, p);
      if latest.None? || db.transactions[latest.value].status == Cancelled {
        CreateIncomingKeepsInv(db, p, currency, quote);
      } else {
        var canceled := SetTransactionStatus(db, latest.value, Cancelled);
        StatusStep(db, canceled, p, latest.value);
        LatestFrame(db.transactions, canceled.transactions, p);
        CreateIncomingKeepsInv(canceled, p, currency, quote);
      }
    }
  }

  lemma LockKeepsInv(db: Database, p: nat)
    requires Inv(db)
    ensures Inv(LockPaymentOptions(db, p).db)
  {
    var after := LockPaymentOptions(db, p).db;
    if after != db {
      assert PaymentOk(db, p);
      var t := Latest(db.transactions, p).value;
      assert after.transactions == db.transactions[t := after.transactions[t]];
      StatusStep(db, after, p, t);
    }
  }

  /** What resolving an underpaid payment writes: the status, and one credit of the fact amount. */
  lemma ResolveEffect(db: Database, p: nat, t: nat)
    requires db.WellFormed() && p < |db.payments| && db.payments[p].status == PaymentUnderpaid
    requires Latest(db.transactions, p) == Some(t)
    requires db.transactions[t].factAmount.Some? && db.transactions[t].factAmount.value > 0
    ensures var after, tx := Resolve(db, db.payments[p].merchantID, p).db, db.transactions[t];
            var c := Credit(KeyOf(tx), p, t, tx.factAmount.value);
      && after.WellFormed()
      && after == db.(
           payments := db.payments[p := db.payments[p].(status := PaymentSuccess)],
           balances := db.balances[c.key := BalanceOf(db, c.key) + c.amount],
           credits := db.credits + [c])
  {
  }

  /** A payment whose only live transaction is final may be credited as a whole. */
  lemma AcceptedUnderpaymentKeepsInv(db: Database, after: Database, p: nat, t: nat, c: Credit)
    requires Inv(db) && p < |db.payments| && db.payments[p].status == PaymentUnderpaid
    requires Latest(db.transactions, p) == Some(t) && db.transactions[t].status == CompletedInvalid
    requires db.transactions[t].factAmount.Some?
    requires c == Credit(KeyOf(db.transactions[t]), p, t, db.transactions[t].factAmount.value)
    requires after == db.(
           payments := db.payments[p := db.payments[p].(status := PaymentSuccess)],
           balances := db.balances[c.key := BalanceOf(db, c.key) + c.amount],
           credits := db.credits + [c])
    ensures Inv(after)
  {
    assert PaymentOk(db, p);
    assert FillsKept(db, after, t);
    InvoiceRowsAgree(db, after, p, t);
    UnsuccessfulIsNotCredited(db, p);
    OthersAreFinal(db, p, t);
    CreditStep(db, after, p, c);
  }

  lemma ResolveUnderpaidKeepsInv(db: Database, p: nat)
    requires Inv(db) && p < |db.payments| && Settled(db, p)
    requires db.payments[p].status == PaymentUnderpaid
    ensures Inv(Resolve(db, db.payments[p].merchantID, p).db)
  {
    assert PaymentOk(db, p);
    var t := Latest(db.transactions, p).value;
    assert TransactionOk(db.transactions[t], SumConfirmed(db.fills, t));
    ResolveEffect(db, p, t);
    var tx := db.transactions[t];
    AcceptedUnderpaymentKeepsInv(db, Resolve(db, db.payments[p].merchantID, p).db, p, t,
                                 Credit(KeyOf(tx), p, t, tx.factAmount.value));
  }

  lemma ResolveKeepsInv(db: Database, merchantID: int, p: nat)
    requires Inv(db) && Settled(db, p)
    ensures Inv(Resolve(db, merchantID, p).db)
  {
    var after := Resolve(db, merchantID, p).db;
    if after != db {
      if db.payments[p].status == PaymentUnderpaid {
        ResolveUnderpaidKeepsInv(db, p);
      } else {
        assert PaymentOk(db, p);
        assert OnlyTouches(db, after, p);
        assert PaymentOk(after, p);
        UnsuccessfulIsNotCredited(db, p);
        LocalStep(db, after, p);
      }
    }
  }

  lemma DeclineKeepsInv(db: Database, merchantID: int, p: nat)
    requires Inv(db) && Settled(db, p)
    ensures Inv(Decline(db, merchantID, p).db)
  {
    var after := Decline(db, merchantID, p).db;
    if after != db {
      assert PaymentOk(db, p);
      StatusStep(db, after, p, Latest(db.transactions, p).value);
    }
  }

  /** The database in which a re-locked transfer is processed: the stale lock is canceled
      and the new one is pending for exactly what arrived. */
  function Relocked(db: Database, inv: nat, u: Unmatched): Database
    requires inv < |db.transactions| && u.currency.Some? && u.amount.Some?
  {
    SetTransactionStatus(db.(transactions := db.transactions + [Relock(db, inv, u)]), inv, Cancelled)
  }

  /** The new lock has no fill yet, so the transfer is recorded as a new row. */
  lemma RelockedLedger(db: Database, t: nat, input: Input)
    requires Inv(db) && t == |db.transactions|
    requires input.Valid() && input.amount > 0
    ensures SumConfirmed(db.fills, t) == 0
    ensures var row := FillRow(db, t, input);
      && Upsert(db.fills, row) == db.fills + [row]
      && (forall f, g :: 0 <= f < g < |db.fills| + 1 ==> !SameKey((db.fills + [row])[f], (db.fills + [row])[g]))
      && (forall v ::
            SumConfirmed(db.fills + [row], v) == SumConfirmed(db.fills, v) + if v == t then input.amount else 0)
  {
    SumOfNothing(db.fills, t, ConfirmedOnly);
    var row := FillRow(db, t, input);
    assert FindFill(db.fills, row).None?;
    UpsertKeepsKeys(db.fills, row);
    forall v
      ensures SumConfirmed(db.fills + [row], v) == SumConfirmed(db.fills, v) + if v == t then input.amount else 0
    {
      SumAppend(db.fills, row, v, ConfirmedOnly);
    }
  }

  /** What a re-lock leaves behind, row by row. */
  function Accepted(db: Database, inv: nat, u: Unmatched): Database
    requires db.WellFormed() && inv < |db.transactions| && u.currency.Some? && u.amount.Some?
  {
    var t, p, input := |db.transactions|, db.transactions[inv].entityID, CrossCurrencyInput(u);
    var row := Relock(db, inv, u).(
      status := InProgress, updatedAt := db.now, senderAddress := Some(input.sender),
      factAmount := u.amount, hashID := Some(u.hash));
    var stale := db.transactions[inv].(status := Cancelled, updatedAt := db.now);
    db.(
      transactions := db.transactions[inv := stale] + [row],
      fills := db.fills + [FillRow(db, t, input)],
      payments := db.payments[p := db.payments[p].(status := PaymentInProgress)])
  }

  /** Both outcomes of the cancel, as they reach the processing of the transfer. */
  lemma RelockedPromotes(db: Database, relocked: Database, inv: nat, u: Unmatched)
    requires Inv(db) && inv < |db.transactions| && IsOpenInvoice(db.transactions[inv], u.collector)
    requires u.currency.Some? && u.amount.Some? && u.amount.value > 0
    requires Guard(db, Attributes(u, true))
    requires relocked.WellFormed() && relocked.fills == db.fills
    requires |relocked.transactions| == |db.transactions| + 1
    requires relocked.transactions[|db.transactions|] == Relock(db, inv, u)
    ensures var t, input := |db.transactions|, CrossCurrencyInput(u);
      && ProcessInbound(relocked, t, input, Tolerance(None, None)) == Result(Promoted(relocked, t, input), Done)
      && SumConfirmed(relocked.fills, t) == 0
      && RecordFill(relocked, t, input).fills == db.fills + [FillRow(relocked, t, input)]
  {
    var t, input := |db.transactions|, CrossCurrencyInput(u);
    SumOfNothing(db.fills, t, ConfirmedOnly);
    ExactTransferPromotes(relocked, t, input);
    assert FindFill(db.fills, FillRow(relocked, t, input)).None?;
  }

  /** Promoting the new lock gives the rows of `Accepted`, but for the stale lock. */
  lemma PromotedIsAccepted(db: Database, relocked: Database, inv: nat, u: Unmatched)
    requires db.WellFormed() && inv < |db.transactions| && u.currency.Some? && u.amount.Some?
    requires relocked.WellFormed() && relocked.(transactions := db.transactions) == db
    requires |relocked.transactions| == |db.transactions| + 1
    requires relocked.transactions[|db.transactions|] == Relock(db, inv, u)
    requires forall v :: 0 <= v < |db.transactions| && v != inv ==> relocked.transactions[v] == db.transactions[v]
    requires SumConfirmed(relocked.fills, |db.transactions|) == 0
    requires RecordFill(relocked, |db.transactions|, CrossCurrencyInput(u)).fills
          == db.fills + [FillRow(relocked, |db.transactions|, CrossCurrencyInput(u))]
    ensures Promoted(relocked, |db.transactions|, CrossCurrencyInput(u))
         == Accepted(db, inv, u).(transactions := Accepted(db, inv, u).transactions[inv := relocked.transactions[inv]])
  {
    var promoted := Promoted(relocked, |db.transactions|, CrossCurrencyInput(u));
    assert promoted.transactions == Accepted(db, inv, u).transactions[inv := relocked.transactions[inv]];
  }

  /** A re-lock completes in the same call and never asks for a price: the amount of the
      new lock is what arrived. */
  lemma AutoAcceptEffect(db: Database, inv: nat, u: Unmatched)
    requires Inv(db) && inv < |db.transactions| && IsOpenInvoice(db.transactions[inv], u.collector)
    requires u.currency.Some? && u.amount.Some? && u.amount.value > 0
    requires Guard(db, Attributes(u, true))
    ensures AutoAccept(db, inv, u, true) == Result(Accepted(db, inv, u), Done)
  {
    PendingIsLatest(db, inv);
    var relocked := Relocked(db, inv, u);
    RelockedPromotes(db, relocked, inv, u);
    PromotedIsAccepted(db, relocked, inv, u);
    assert Accepted(db, inv, u).transactions[inv := relocked.transactions[inv]] == Accepted(db, inv, u).transactions;
  }

  lemma AcceptedTables(db: Database, inv: nat, u: Unmatched)
    requires Inv(db) && inv < |db.transactions| && IsOpenInvoice(db.transactions[inv], u.collector)
    requires u.currency.Some? && u.amount.Some? && u.amount.value > 0
    requires Guard(db, Attributes(u, true))
    ensures Accepted(db, inv, u).WellFormed()
    ensures forall f :: 0 <= f < |Accepted(db, inv, u).fills| ==> FillOk(Accepted(db, inv, u).fills[f], db.now)
  {
    RelockedLedger(db, |db.transactions|, CrossCurrencyInput(u));
  }

  lemma AcceptedLatest(db: Database, inv: nat, u: Unmatched)
    requires db.WellFormed() && inv < |db.transactions| && u.currency.Some? && u.amount.Some?
    ensures Latest(Accepted(db, inv, u).transactions, db.transactions[inv].entityID) == Some(|db.transactions|)
  {
    var after := Accepted(db, inv, u);
    var t := |db.transactions|;
    assert after.transactions == after.transactions[..t] + [after.transactions[t]];
    LatestAppend(after.transactions[..t], after.transactions[t], db.transactions[inv].entityID);
  }

  lemma AcceptedTouches(db: Database, inv: nat, u: Unmatched)
    requires Inv(db) && inv < |db.transactions| && IsOpenInvoice(db.transactions[inv], u.collector)
    requires u.currency.Some? && u.amount.Some? && u.amount.value > 0
    requires Guard(db, Attributes(u, true))
    ensures OnlyTouches(db, Accepted(db, inv, u), db.transactions[inv].entityID)
  {
    RelockedLedger(db, |db.transactions|, CrossCurrencyInput(u));
  }

  /** The older invoices of the payment are canceled, and none of them got the transfer. */
  lemma AcceptedOlder(db: Database, inv: nat, u: Unmatched, t: nat)
    requires Inv(db) && inv < |db.transactions| && IsOpenInvoice(db.transactions[inv], u.collector)
    requires u.currency.Some? && u.amount.Some? && u.amount.value > 0
    requires Guard(db, Attributes(u, true))
    requires t < |db.transactions| && db.transactions[t].entityID == db.transactions[inv].entityID
    ensures var after := Accepted(db, inv, u);
      && TransactionOk(after.transactions[t], SumConfirmed(after.fills, t))
      && after.transactions[t].status == Cancelled
  {
    PendingIsLatest(db, inv);
    assert TransactionOk(db.transactions[t], SumConfirmed(db.fills, t));
    RelockedLedger(db, |db.transactions|, CrossCurrencyInput(u));
  }

  /** The new invoice has received exactly its amount. */
  lemma AcceptedNewest(db: Database, inv: nat, u: Unmatched)
    requires Inv(db) && inv < |db.transactions| && IsOpenInvoice(db.transactions[inv], u.collector)
    requires u.currency.Some? && u.amount.Some? && u.amount.value > 0
    requires Guard(db, Attributes(u, true))
    ensures var t, after := |db.transactions|, Accepted(db, inv, u);
      TransactionOk(after.transactions[t], SumConfirmed(after.fills, t))
  {
    PendingIsLatest(db, inv);
    RelockedLedger(db, |db.transactions|, CrossCurrencyInput(u));
  }

  lemma AcceptedPayment(db: Database, inv: nat, u: Unmatched)
    requires Inv(db) && inv < |db.transactions| && IsOpenInvoice(db.transactions[inv], u.collector)
    requires u.currency.Some? && u.amount.Some? && u.amount.value > 0
    requires Guard(db, Attributes(u, true))
    ensures PaymentOk(Accepted(db, inv, u), db.transactions[inv].entityID)
  {
    var after, p := Accepted(db, inv, u), db.transactions[inv].entityID;
    PendingIsLatest(db, inv);
    AcceptedLatest(db, inv, u);
    AcceptedNewest(db, inv, u);
    forall t | 0 <= t < |db.transactions| && db.transactions[t].entityID == p
      ensures TransactionOk(after.transactions[t], SumConfirmed(after.fills, t))
           && after.transactions[t].status == Cancelled
    {
      AcceptedOlder(db, inv, u, t);
    }
  }

  /** A re-lock leaves its payment in progress with one live transaction, the new one. */
  lemma AcceptedKeepsInv(db: Database, inv: nat, u: Unmatched)
    requires Inv(db) && inv < |db.transactions| && IsOpenInvoice(db.transactions[inv], u.collector)
    requires u.currency.Some? && u.amount.Some? && u.amount.value > 0
    requires Guard(db, Attributes(u, true))
    ensures Inv(Accepted(db, inv, u))
    ensures Latest(Accepted(db, inv, u).transactions, db.transactions[inv].entityID) == Some(|db.transactions|)
  {
    var p := db.transactions[inv].entityID;
    assert PaymentOk(db, p);
    AcceptedTables(db, inv, u);
    AcceptedLatest(db, inv, u);
    AcceptedPayment(db, inv, u);
    AcceptedTouches(db, inv, u);
    UnsuccessfulIsNotCredited(db, p);
    LocalStep(db, Accepted(db, inv, u), p);
  }

  lemma AttributeKeepsInv(db: Database, u: Unmatched, cancelSucceeds: bool)
    requires Inv(db) && Guard(db, Attributes(u, cancelSucceeds))
    ensures Inv(ResolveUnmatched(db, u, cancelSucceeds).db)
  {
    match Attributed(db, u)
    case None =>
    case Some(inv) =>
      PendingIsLatest(db, inv);
      AutoAcceptEffect(db, inv, u);
      AcceptedKeepsInv(db, inv, u);
  }

  lemma StepKeepsInv(db: Database, e: Event)
    requires Inv(db) && Guard(db, e)
    ensures Inv(Step(db, e))
  {
    match e
    case CreatesPayment(kind, merchantID, price) => CreatePaymentKeepsInv(db, kind, merchantID, price);
    case AssignsCustomer(_, _) => QuietStep(db, Step(db, e));
    case SetsMethod(p, currency, quote) => SetMethodKeepsInv(db, p, currency, quote);
    case Locks(p) => LockKeepsInv(db, p);
    case Receives(t, input, tolerance) => InboundKeepsInv(db, t, input, tolerance);
    case Rechecks(gone) => RecheckKeepsInv(db, gone);
    case Checks(t, receipt) => CheckKeepsInv(db, t, receipt);
    case Expires(p) => ExpireKeepsInv(db, p);
    case Resolves(merchantID, p) => ResolveKeepsInv(db, merchantID, p);
    case Declines(merchantID, p) => DeclineKeepsInv(db, merchantID, p);
    case Attributes(u, cancelSucceeds) => AttributeKeepsInv(db, u, cancelSucceeds);
    case Waits(_) => QuietStep(db, Step(db, e));
  }
}
