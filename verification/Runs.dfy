/** Promises over whole runs of the payment flow. */
module Runs {
  import opened Domain
  import opened Ledger
  import opened Steps
  import opened Protocol
  import opened Invariant
  import opened Preservation

  lemma InboundWellFormed(db: Database, t: nat, input: Input, tolerance: Tolerance)
    requires db.WellFormed()
    ensures ProcessInbound(db, t, input, tolerance).db.WellFormed()
  {
    if t < |db.transactions| {
      UpsertKeepsKeys(db.fills, FillRow(db, t, input));
      assert RecordFill(db, t, input).WellFormed();
    }
  }

  lemma AttributionWellFormed(db: Database, u: Unmatched, cancelSucceeds: bool)
    requires db.WellFormed()
    ensures ResolveUnmatched(db, u, cancelSucceeds).db.WellFormed()
  {
    match Attributed(db, u)
    case None =>
    case Some(inv) =>
      var created := db.(transactions := db.transactions + [Relock(db, inv, u)]);
      var relocked := if cancelSucceeds then SetTransactionStatus(created, inv, Cancelled) else created;
      assert relocked.WellFormed();
      InboundWellFormed(relocked, |db.transactions|, CrossCurrencyInput(u), Tolerance(None, None));
  }

  /** A step that rewrites one payment row and one transaction row keeps the references. */
  lemma RowsWellFormed(db: Database, after: Database)
    requires db.WellFormed() && after.fills == db.fills
    requires |after.payments| == |db.payments| && |after.transactions| == |db.transactions|
    requires forall p :: 0 <= p < |db.payments| ==> after.payments[p].merchantID == db.payments[p].merchantID
    requires forall t | 0 <= t < |db.transactions| ::
               && after.transactions[t].entityID == db.transactions[t].entityID
               && after.transactions[t].merchantID == db.transactions[t].merchantID
    ensures after.WellFormed()
  {
  }

  lemma CheckWellFormed(db: Database, t: nat, receipt: Receipt)
    requires db.WellFormed()
    ensures CheckIncoming(db, t, receipt).db.WellFormed()
  {
    var after := CheckIncoming(db, t, receipt).db;
    if after != db {
      if after == CancelIncoming(db, t) {
        RowsWellFormed(db, CancelIncoming(db, t));
      } else {
        RowsWellFormed(db, ConfirmIncoming(db, t).db);
      }
    }
  }

  lemma ExpireWellFormed(db: Database, p: nat)
    requires db.WellFormed()
    ensures Expire(db, p).db.WellFormed()
  {
    if p < |db.payments| {
      var latest := Latest(db.transactions, p);
      RowsWellFormed(db, CancelAndFail(db, p, latest));
      if latest.Some? {
        RowsWellFormed(db, MarkUnderpaid(db, p, latest.value));
      }
    }
  }

  lemma SetMethodWellFormed(db: Database, p: nat, currency: Currency, quote: Option<Quote>)
    requires db.WellFormed()
    ensures SetPaymentMethod(db, p, currency, quote).db.WellFormed()
  {
  }

  /** Every call, guarded or not, keeps the references and the unique key intact. */
  lemma StepWellFormed(db: Database, e: Event)
    requires db.WellFormed()
    ensures Step(db, e).WellFormed()
  {
    match e
    case Receives(t, input, tolerance) => InboundWellFormed(db, t, input, tolerance);
    case Attributes(u, cancelSucceeds) => AttributionWellFormed(db, u, cancelSucceeds);
    case Checks(t, receipt) => CheckWellFormed(db, t, receipt);
    case Expires(p) => ExpireWellFormed(db, p);
    case Resolves(merchantID, p) => RowsWellFormed(db, Resolve(db, merchantID, p).db);
    case Declines(merchantID, p) => RowsWellFormed(db, Decline(db, merchantID, p).db);
    case Locks(p) => RowsWellFormed(db, LockPaymentOptions(db, p).db);
    case SetsMethod(p, currency, quote) => SetMethodWellFormed(db, p, currency, quote);
    case AssignsCustomer(p, customerID) => RowsWellFormed(db, AssignCustomer(db, p, customerID));
    case _ =>
  }

  function Run(db: Database, events: seq<Event>): (r: Database)
    requires db.WellFormed()
    ensures r.WellFormed()
    decreases |events|
  {
    if |events| == 0 then db
    else
      StepWellFormed(db, events[0]);
      Run(Step(db, events[0]), events[1..])
  }

  predicate Guarded(db: Database, events: seq<Event>)
    requires db.WellFormed()
    decreases |events|
  {
    |events| > 0 ==>
      && Guard(db, events[0])
      && (StepWellFormed(db, events[0]); Guarded(Step(db, events[0]), events[1..]))
  }

  /** Runs compose. */
  lemma {:induction false} RunAppend(db: Database, first: seq<Event>, second: seq<Event>)
    requires db.WellFormed()
    ensures Run(db, first + second) == Run(Run(db, first), second)
    ensures Guarded(db, first + second) <==> Guarded(db, first) && Guarded(Run(db, first), second)
    decreases |first|
  {
    if first == [] {
      assert first + second == second;
    } else {
      StepWellFormed(db, first[0]);
      assert (first + second)[1..] == first[1..] + second;
      RunAppend(Step(db, first[0]), first[1..], second);
    }
  }

  lemma EmptyIsOk()
    ensures Inv(EMPTY)
  {
  }

  lemma {:induction false} RunKeepsInv(db: Database, events: seq<Event>)
    requires Inv(db) && Guarded(db, events)
    ensures Inv(Run(db, events))
    decreases |events|
  {
    if |events| > 0 {
      StepKeepsInv(db, events[0]);
      RunKeepsInv(Step(db, events[0]), events[1..]);
    }
  }

  // ---------------------------------------------------------------- what never goes back

  function Rank(status: PaymentStatus): nat {
    match status
    case PaymentPending => 5
    case PaymentLocked => 4
    case PaymentPartial => 3
    case PaymentInProgress => 2
    case PaymentUnderpaid => 2
    case PaymentFailed => 1
    case PaymentSuccess => 0
  }

  /** A payment keeps its terms, descends in rank or keeps its status, and never loses time. */
  predicate PaymentEvolves(before: Payment, after: Payment) {
    && after.kind == before.kind && after.merchantID == before.merchantID
    && after.createdAt == before.createdAt && after.price == before.price
    && after.originalExpiresAt == before.originalExpiresAt
    && (after.status == before.status || Rank(after.status) < Rank(before.status))
    && (before.expiresAt.Some? ==> after.expiresAt.Some? && after.expiresAt.value >= before.expiresAt.value)
  }

  /** A transaction keeps its terms, what it received once that is recorded, and its status
      once that is final. */
  predicate TransactionEvolves(before: Transaction, after: Transaction) {
    && after.entityID == before.entityID && after.merchantID == before.merchantID
    && after.amount == before.amount && after.currency == before.currency && after.recipient == before.recipient
    && (before.factAmount.Some? ==>
          && after.factAmount == before.factAmount && after.hashID == before.hashID
          && after.senderAddress == before.senderAddress)
    && (before.status.IsFinalized() ==> after == before)
  }

  /** The fills of transaction t are the same rows in both ledgers. */
  predicate LedgerFrozen(before: seq<Fill>, after: seq<Fill>, t: nat) {
    && |before| <= |after|
    && (forall f :: 0 <= f < |before| && before[f].transactionID == t ==> after[f] == before[f])
    && (forall f :: |before| <= f < |after| ==> after[f].transactionID != t)
  }

  predicate FillEvolves(before: Fill, after: Fill) {
    SameKey(before, after) && after.amount == before.amount
  }

  ghost predicate Evolves(db: Database, after: Database) {
    && |db.payments| <= |after.payments| && |db.transactions| <= |after.transactions|
    && |db.fills| <= |after.fills| && db.now <= after.now
    && (forall p :: 0 <= p < |db.payments| ==> PaymentEvolves(db.payments[p], after.payments[p]))
    && (forall t :: 0 <= t < |db.transactions| ==> TransactionEvolves(db.transactions[t], after.transactions[t]))
    && (forall t :: 0 <= t < |db.transactions| && db.transactions[t].factAmount.Some? ==>
          LedgerFrozen(db.fills, after.fills, t))
    && (forall f :: 0 <= f < |db.fills| ==> FillEvolves(db.fills[f], after.fills[f]))
    && db.credits <= after.credits
  }

  lemma EvolvesReflexive(db: Database)
    ensures Evolves(db, db)
  {
  }

  lemma {:induction false} EvolvesTransitive(a: Database, b: Database, c: Database)
    requires Evolves(a, b) && Evolves(b, c)
    ensures Evolves(a, c)
  {
    forall p | 0 <= p < |a.payments| ensures PaymentEvolves(a.payments[p], c.payments[p]) {
      assert PaymentEvolves(a.payments[p], b.payments[p]) && PaymentEvolves(b.payments[p], c.payments[p]);
    }
    forall t | 0 <= t < |a.transactions| ensures TransactionEvolves(a.transactions[t], c.transactions[t]) {
      assert TransactionEvolves(a.transactions[t], b.transactions[t]);
      assert TransactionEvolves(b.transactions[t], c.transactions[t]);
    }
    forall t | 0 <= t < |a.transactions| && a.transactions[t].factAmount.Some?
      ensures LedgerFrozen(a.fills, c.fills, t)
    {
      assert TransactionEvolves(a.transactions[t], b.transactions[t]);
      assert LedgerFrozen(a.fills, b.fills, t) && LedgerFrozen(b.fills, c.fills, t);
    }
    forall f | 0 <= f < |a.fills| ensures FillEvolves(a.fills[f], c.fills[f]) {
      assert FillEvolves(a.fills[f], b.fills[f]) && FillEvolves(b.fills[f], c.fills[f]);
    }
  }

  /** The extension asks for more time than is left, and its cap is a day away. */
  lemma ExtensionNeverShortens(db: Database, p: nat)
    requires Inv(db) && p < |db.payments|
    ensures var expiry := ExtendedExpiry(db.payments[p], db.now + PARTIAL_EXTENSION_PER_FILL);
      && (db.payments[p].expiresAt.Some? ==> db.payments[p].expiresAt.value <= expiry)
      && (db.payments[p].originalExpiresAt.Some? ==>
            expiry <= db.payments[p].originalExpiresAt.value + EXTENSION_CAP)
  {
    assert PaymentOk(db, p);
  }

  /** Recording a fill of a pending invoice leaves the ledgers of all others frozen. */
  lemma RecordFillEvolves(db: Database, t: nat, input: Input)
    ensures var after := RecordFill(db, t, input).fills;
      && |db.fills| <= |after|
      && (forall u :: u != t ==> LedgerFrozen(db.fills, after, u))
      && (forall f :: 0 <= f < |db.fills| ==> FillEvolves(db.fills[f], after[f]))
  {
  }

  /** A step that rewrites payment p and transaction t, and leaves the other rows alone. */
  lemma RowsEvolve(db: Database, after: Database, p: nat, t: nat)
    requires p < |db.payments| && t < |db.transactions|
    requires |after.payments| == |db.payments| && after.payments == db.payments[p := after.payments[p]]
    requires |after.transactions| == |db.transactions|
    requires after.transactions == db.transactions[t := after.transactions[t]]
    requires PaymentEvolves(db.payments[p], after.payments[p])
    requires TransactionEvolves(db.transactions[t], after.transactions[t])
    requires |db.fills| <= |after.fills| && after.now == db.now && db.credits <= after.credits
    requires forall u :: u != t || db.transactions[t].factAmount.Some? ==> LedgerFrozen(db.fills, after.fills, u)
    requires forall f :: 0 <= f < |db.fills| ==> FillEvolves(db.fills[f], after.fills[f])
    ensures Evolves(db, after)
  {
  }

  lemma PartialEvolves(db: Database, t: nat, input: Input)
    requires Inv(db) && t < |db.transactions| && db.transactions[t].status == Pending
    ensures Evolves(db, MarkPartial(RecordFill(db, t, input), db.transactions[t].entityID))
  {
    var p := db.transactions[t].entityID;
    PendingIsLatest(db, t);
    RecordFillEvolves(db, t, input);
    ExtensionNeverShortens(db, p);
    RowsEvolve(db, MarkPartial(RecordFill(db, t, input), p), p, t);
  }

  lemma PromotedEvolves(db: Database, t: nat, input: Input)
    requires Inv(db) && t < |db.transactions| && db.transactions[t].status == Pending
    ensures Evolves(db, Promoted(db, t, input))
  {
    PendingIsLatest(db, t);
    RecordFillEvolves(db, t, input);
    RowsEvolve(db, Promoted(db, t, input), db.transactions[t].entityID, t);
  }

  lemma InboundEvolves(db: Database, t: nat, input: Input, tolerance: Tolerance)
    requires Inv(db) && Guard(db, Receives(t, input, tolerance))
    ensures Evolves(db, ProcessInbound(db, t, input, tolerance).db)
  {
    var after := ProcessInbound(db, t, input, tolerance).db;
    if after == db {
      EvolvesReflexive(db);
    } else {
      var combined := SumConfirmed(db.fills, t) + input.amount;
      if CrossesExpected(db.transactions[t].amount, combined, tolerance.first) == Some(true) {
        SumNonNegative(db.fills, t, ConfirmedOnly);
        PromotionEffect(db, t, input, tolerance, combined);
        PromotedEvolves(db, t, input);
      } else {
        PartialEvolves(db, t, input);
      }
    }
  }

  lemma RecheckEvolves(db: Database, gone: set<nat>)
    requires Inv(db)
    ensures Evolves(db, RecheckPartialFills(db, gone))
  {
    var after := RecheckPartialFills(db, gone);
    forall t | 0 <= t < |db.transactions| && db.transactions[t].factAmount.Some?
      ensures LedgerFrozen(db.fills, after.fills, t)
    {
      var p := db.transactions[t].entityID;
      assert PaymentOk(db, p);
      assert TransactionOk(db.transactions[t], SumConfirmed(db.fills, t));
      assert db.payments[p].status != PaymentPartial;
    }
  }

  lemma CancelEvolves(db: Database, t: nat)
    requires Inv(db) && t < |db.transactions| && db.transactions[t].status.IsInProgress()
    ensures Evolves(db, CancelIncoming(db, t))
  {
    PendingIsLatest(db, t);
    RowsEvolve(db, CancelIncoming(db, t), db.transactions[t].entityID, t);
  }

  lemma ConfirmEvolves(db: Database, t: nat)
    requires Inv(db) && t < |db.transactions| && db.transactions[t].status.IsInProgress()
    requires db.transactions[t].factAmount.Some?
    ensures Evolves(db, ConfirmIncoming(db, t).db)
  {
    PendingIsLatest(db, t);
    RowsEvolve(db, ConfirmIncoming(db, t).db, db.transactions[t].entityID, t);
  }

  lemma CheckEvolves(db: Database, t: nat, receipt: Receipt)
    requires Inv(db)
    ensures Evolves(db, CheckIncoming(db, t, receipt).db)
  {
    var after := CheckIncoming(db, t, receipt).db;
    if after != db {
      if after == CancelIncoming(db, t) {
        CancelEvolves(db, t);
      } else {
        ConfirmEvolves(db, t);
      }
    }
  }

  lemma UnderpaidEvolves(db: Database, p: nat, t: nat)
    requires Inv(db) && p < |db.payments| && db.payments[p].status == PaymentPartial
    requires Latest(db.transactions, p) == Some(t)
    ensures Evolves(db, MarkUnderpaid(db, p, t))
  {
    assert PaymentOk(db, p);
    RowsEvolve(db, MarkUnderpaid(db, p, t), p, t);
  }

  lemma CancelAndFailEvolves(db: Database, p: nat)
    requires Inv(db) && p < |db.payments|
    requires var status := db.payments[p].status;
      status == PaymentPending || status == PaymentLocked || status == PaymentPartial
    ensures Evolves(db, CancelAndFail(db, p, Latest(db.transactions, p)))
  {
    assert PaymentOk(db, p);
    var latest := Latest(db.transactions, p);
    var after := CancelAndFail(db, p, latest);
    if latest.Some? {
      assert TransactionOk(db.transactions[latest.value], SumConfirmed(db.fills, latest.value));
      assert after.transactions == db.transactions[latest.value := after.transactions[latest.value]];
      RowsEvolve(db, after, p, latest.value);
    } else {
      DecisionEvolves(db, after, p);
    }
  }

  lemma ExpireEvolves(db: Database, p: nat)
    requires Inv(db)
    ensures Evolves(db, Expire(db, p).db)
  {
    var after := Expire(db, p).db;
    if after == db {
      EvolvesReflexive(db);
    } else {
      var latest := Latest(db.transactions, p);
      if db.payments[p].status == PaymentPartial && latest.Some? && SumConfirmed(db.fills, latest.value) != 0 {
        UnderpaidEvolves(db, p, latest.value);
      } else {
        CancelAndFailEvolves(db, p);
      }
    }
  }

  /** Appending an invoice changes no row. */
  lemma CreateIncomingEvolves(db: Database, p: nat, currency: Currency, quote: Option<Quote>)
    requires p < |db.payments|
    ensures Evolves(db, CreateIncoming(db, p, currency, quote).db)
  {
  }

  lemma SetMethodEvolves(db: Database, p: nat, currency: Currency, quote: Option<Quote>)
    requires Inv(db)
    ensures Evolves(db, SetPaymentMethod(db, p, currency, quote).db)
  {
    var after := SetPaymentMethod(db, p, currency, quote).db;
    if after == db {
      EvolvesReflexive(db);
    } else {
      assert PaymentOk(db, p);
      var latest := Latest(db.transactions, p);
      if latest.None? || db.transactions[latest.value].status == Cancelled {
        CreateIncomingEvolves(db, p, currency, quote);
      } else {
        var canceled := SetTransactionStatus(db, latest.value, Cancelled);
        RowsEvolve(db, canceled, p, latest.value);
        CreateIncomingEvolves(canceled, p, currency, quote);
        EvolvesTransitive(db, canceled, after);
      }
    }
  }

  lemma AcceptedEvolves(db: Database, inv: nat, u: Unmatched)
    requires db.WellFormed() && inv < |db.transactions| && db.transactions[inv].status == Pending
    requires db.transactions[inv].factAmount.None? && u.currency.Some? && u.amount.Some?
    requires Rank(db.payments[db.transactions[inv].entityID].status) > Rank(PaymentInProgress)
    ensures Evolves(db, Accepted(db, inv, u))
  {
  }

  lemma AttributeEvolves(db: Database, u: Unmatched)
    requires Inv(db) && Guard(db, Attributes(u, true))
    ensures Evolves(db, ResolveUnmatched(db, u, true).db)
  {
    match Attributed(db, u)
    case None => EvolvesReflexive(db);
    case Some(inv) =>
      PendingIsLatest(db, inv);
      AutoAcceptEffect(db, inv, u);
      AcceptedEvolves(db, inv, u);
  }

  /** Locking, resolving and declining rewrite the row of one payment. */
  lemma DecisionEvolves(db: Database, after: Database, p: nat)
    requires Inv(db) && p < |db.payments|
    requires |after.payments| == |db.payments| && after.payments == db.payments[p := after.payments[p]]
    requires PaymentEvolves(db.payments[p], after.payments[p])
    requires after.transactions == db.transactions && after.fills == db.fills && after.now == db.now
    requires db.credits <= after.credits
    ensures Evolves(db, after)
  {
  }

  lemma ResolveEvolves(db: Database, merchantID: int, p: nat)
    requires Inv(db)
    ensures Evolves(db, Resolve(db, merchantID, p).db)
  {
    if p < |db.payments| {
      DecisionEvolves(db, Resolve(db, merchantID, p).db, p);
    }
  }

  lemma LockEvolves(db: Database, p: nat)
    requires Inv(db)
    ensures Evolves(db, LockPaymentOptions(db, p).db)
  {
    if p < |db.payments| {
      assert PaymentOk(db, p);
      DecisionEvolves(db, LockPaymentOptions(db, p).db, p);
    }
  }

  lemma DeclineEvolves(db: Database, merchantID: int, p: nat)
    requires Inv(db)
    ensures Evolves(db, Decline(db, merchantID, p).db)
  {
    if p < |db.payments| {
      DecisionEvolves(db, Decline(db, merchantID, p).db, p);
    }
  }

  lemma StepEvolves(db: Database, e: Event)
    requires Inv(db) && Guard(db, e)
    ensures Evolves(db, Step(db, e))
  {
    match e
    case SetsMethod(p, currency, quote) => SetMethodEvolves(db, p, currency, quote);
    case Receives(t, input, tolerance) => InboundEvolves(db, t, input, tolerance);
    case Rechecks(gone) => RecheckEvolves(db, gone);
    case Checks(t, receipt) => CheckEvolves(db, t, receipt);
    case Expires(p) => ExpireEvolves(db, p);
    case Attributes(u, cancelSucceeds) => AttributeEvolves(db, u);
    case Locks(p) => LockEvolves(db, p);
    case Resolves(merchantID, p) => ResolveEvolves(db, merchantID, p);
    case Declines(merchantID, p) => DeclineEvolves(db, merchantID, p);
    case _ =>
  }

  lemma {:induction false} RunEvolves(db: Database, events: seq<Event>)
    requires Inv(db) && Guarded(db, events)
    ensures Evolves(db, Run(db, events))
    decreases |events|
  {
    if |events| > 0 {
      var next := Step(db, events[0]);
      StepKeepsInv(db, events[0]);
      StepEvolves(db, events[0]);
      RunEvolves(next, events[1..]);
      EvolvesTransitive(db, next, Run(db, events));
    }
  }
}
