/** What every guarded step of the payment flow keeps true of the database. */
module Invariant {
  import opened Domain
  import opened Ledger
  import opened Steps

  /** An invoice against what has been confirmed for it: nothing is finalized while it is
      pending, the pending sum is short of the amount, and a recorded fact amount is the sum. */
  predicate TransactionOk(tx: Transaction, confirmed: int) {
    && tx.amount > 0 && tx.serviceFee >= 0 && tx.recipient != ""
    && (tx.factAmount.Some? ==> tx.factAmount.value == confirmed && confirmed > 0)
    && (tx.status == Pending ==>
          tx.hashID.None? && tx.senderAddress.None? && tx.factAmount.None? && confirmed < tx.amount)
    && (tx.status == Cancelled ==> tx.factAmount.None?)
    && (tx.status.IsInProgress() || tx.status == Completed || tx.status == CompletedInvalid ==>
          tx.hashID.Some? && tx.senderAddress.Some? && tx.factAmount.Some?)
    && (tx.status == InProgressInvalid || tx.status == CompletedInvalid ==> confirmed < tx.amount)
    && (tx.status == CompletedInvalid ==> tx.serviceFee == 0)
  }

  /** Which status the latest transaction of a payment can have. */
  predicate StatusesAgree(payment: PaymentStatus, latest: Option<TransactionStatus>) {
    match payment
    case PaymentPending => latest.None? || latest.value == Pending || latest.value == Cancelled
    case PaymentLocked => latest.Some? && (latest.value == Pending || latest.value == Cancelled)
    case PaymentPartial => latest.Some? && latest.value == Pending
    case PaymentInProgress => latest.Some? && latest.value == InProgress
    case PaymentUnderpaid => latest.Some? && (latest.value == InProgressInvalid || latest.value == CompletedInvalid)
    case PaymentSuccess => latest.None? || latest.value.IsFinalized()
    case PaymentFailed => latest.None? || (latest.value.IsFinalized() && latest.value != Completed)
  }

  /** The expiry is at most half an hour ahead, and at most a day past the recorded original. */
  predicate ExpiryOk(row: Payment, now: int) {
    && (row.status == PaymentPending ==> row.expiresAt.None? && row.originalExpiresAt.None?)
    && (row.expiresAt.Some? ==> row.expiresAt.value <= now + PARTIAL_EXTENSION_PER_FILL)
    && (row.originalExpiresAt.Some? ==>
          row.expiresAt.Some? && row.expiresAt.value <= row.originalExpiresAt.value + EXTENSION_CAP)
    && (row.status == PaymentLocked || row.status == PaymentPartial ==> row.expiresAt.Some?)
  }

  predicate FillOk(f: Fill, now: int) {
    && f.status != Observed && f.amount > 0 && f.confirmations == 1
    && f.sender != "" && f.hash != "" && f.observedAt <= now
  }

  function LatestStatus(db: Database, p: nat): Option<TransactionStatus> {
    var latest := Latest(db.transactions, p);
    if latest.None? then None else Some(db.transactions[latest.value].status)
  }

  predicate HasFill(db: Database, t: nat) {
    exists f :: 0 <= f < |db.fills| && db.fills[f].transactionID == t
  }

  /** Everything about payment p and the transactions that point at it. */
  ghost predicate PaymentOk(db: Database, p: nat)
    requires p < |db.payments|
  {
    && ExpiryOk(db.payments[p], db.now)
    && StatusesAgree(db.payments[p].status, LatestStatus(db, p))
    && (db.payments[p].status == PaymentPartial ==> HasFill(db, Latest(db.transactions, p).value))
    && (forall t :: 0 <= t < |db.transactions| && db.transactions[t].entityID == p ==>
          && TransactionOk(db.transactions[t], SumConfirmed(db.fills, t))
          && (Latest(db.transactions, p) == Some(t) || db.transactions[t].status == Cancelled))
  }

  function CreditTotal(credits: seq<Credit>, key: BalanceKey): int {
    if |credits| == 0 then 0
    else CreditTotal(credits[..|credits| - 1], key)
         + if credits[|credits| - 1].key == key then credits[|credits| - 1].amount else 0
  }

  /** A credit belongs to a successful payment, and is worth what its transaction gained:
      capped and minus the fee when it completed, all of it when the merchant accepted it. */
  predicate CreditOk(db: Database, c: Credit) {
    && c.transactionID < |db.transactions| && c.paymentID < |db.payments|
    && var tx := db.transactions[c.transactionID];
    && tx.entityID == c.paymentID
    && db.payments[c.paymentID].status == PaymentSuccess
    && c.key == KeyOf(tx)
    && tx.factAmount.Some? && c.amount >= 0
    && (|| (tx.status == Completed && c.amount == Gained(tx, tx.factAmount.value))
        || (tx.status == CompletedInvalid && c.amount == tx.factAmount.value))
  }

  ghost predicate CreditsOk(db: Database) {
    && (forall i :: 0 <= i < |db.credits| ==> CreditOk(db, db.credits[i]))
    && (forall i, j :: 0 <= i < j < |db.credits| ==> db.credits[i].paymentID != db.credits[j].paymentID)
    && (forall key :: BalanceOf(db, key) == CreditTotal(db.credits, key))
  }

  predicate NotCredited(db: Database, p: nat) {
    forall i :: 0 <= i < |db.credits| ==> db.credits[i].paymentID != p
  }

  predicate Credited(db: Database, t: nat) {
    exists i :: 0 <= i < |db.credits| && db.credits[i].transactionID == t
  }

  ghost predicate Inv(db: Database) {
    && db.WellFormed()
    && (forall p :: 0 <= p < |db.payments| ==> PaymentOk(db, p))
    && (forall f :: 0 <= f < |db.fills| ==> FillOk(db.fills[f], db.now))
    && CreditsOk(db)
    && (forall t :: 0 <= t < |db.transactions| && db.transactions[t].status == Completed ==> Credited(db, t))
  }

  const EMPTY := Database([], [], [], map[], [], 0)

  // ---------------------------------------------------------------- framing

  /** The step from db to after concerns payment p alone. */
  ghost predicate OnlyTouches(db: Database, after: Database, p: nat) {
    && |after.payments| == |db.payments|
    && (forall q :: 0 <= q < |db.payments| && q != p ==> after.payments[q] == db.payments[q])
    && |db.transactions| <= |after.transactions|
    && (forall t :: 0 <= t < |db.transactions| ==>
          && after.transactions[t].entityID == db.transactions[t].entityID
          && (db.transactions[t].entityID != p ==> after.transactions[t] == db.transactions[t]))
    && (forall t :: |db.transactions| <= t < |after.transactions| ==> after.transactions[t].entityID == p)
    && (forall t :: 0 <= t < |db.transactions| && db.transactions[t].entityID != p ==>
          SumConfirmed(after.fills, t) == SumConfirmed(db.fills, t))
    && |db.fills| <= |after.fills|
    && (forall f :: 0 <= f < |db.fills| ==> after.fills[f].transactionID == db.fills[f].transactionID)
    && after.now == db.now
  }

  lemma LatestOfOthers(db: Database, after: Database, p: nat, q: nat)
    requires OnlyTouches(db, after, p) && q != p
    ensures Latest(after.transactions, q) == Latest(db.transactions, q)
  {
    var a, b := Latest(db.transactions, q), Latest(after.transactions, q);
    if a.Some? {
      assert after.transactions[a.value].entityID == q;
    }
    if b.Some? {
      assert b.value < |db.transactions|;
    }
  }

  lemma OthersOk(db: Database, after: Database, p: nat, q: nat)
    requires OnlyTouches(db, after, p) && q != p && q < |db.payments| && PaymentOk(db, q)
    ensures PaymentOk(after, q)
  {
    LatestOfOthers(db, after, p, q);
    if db.payments[q].status == PaymentPartial {
      var t := Latest(db.transactions, q).value;
      var f :| 0 <= f < |db.fills| && db.fills[f].transactionID == t;
      assert after.fills[f].transactionID == t;
    }
  }

  lemma UnsuccessfulIsNotCredited(db: Database, p: nat)
    requires CreditsOk(db) && p < |db.payments| && db.payments[p].status != PaymentSuccess
    ensures NotCredited(db, p)
  {
    forall i | 0 <= i < |db.credits| ensures db.credits[i].paymentID != p {
      assert CreditOk(db, db.credits[i]);
    }
  }

  /** Steps that credit nothing and leave credited payments alone keep the credits in order. */
  lemma CreditsFrame(db: Database, after: Database, p: nat)
    requires CreditsOk(db) && OnlyTouches(db, after, p)
    requires p < |db.payments| && NotCredited(db, p)
    requires after.credits == db.credits && after.balances == db.balances
    ensures CreditsOk(after)
  {
    forall i | 0 <= i < |after.credits| ensures CreditOk(after, after.credits[i]) {
      assert CreditOk(db, db.credits[i]);
    }
    forall key ensures BalanceOf(after, key) == CreditTotal(after.credits, key) {
      assert BalanceOf(after, key) == BalanceOf(db, key);
    }
  }

  /** A local step that credits nothing and completes nothing keeps the invariant, once it
      does so for its own payment and fills. */
  lemma LocalStep(db: Database, after: Database, p: nat)
    requires Inv(db) && OnlyTouches(db, after, p) && p < |db.payments|
    requires NotCredited(db, p)
    requires after.WellFormed() && PaymentOk(after, p)
    requires forall f :: 0 <= f < |after.fills| ==> FillOk(after.fills[f], after.now)
    requires after.credits == db.credits && after.balances == db.balances
    requires forall t :: 0 <= t < |after.transactions| && after.transactions[t].entityID == p ==>
               after.transactions[t].status != Completed
    ensures Inv(after)
  {
    forall q | 0 <= q < |after.payments| ensures PaymentOk(after, q) {
      if q != p {
        OthersOk(db, after, p, q);
      }
    }
    CreditsFrame(db, after, p);
    forall t | 0 <= t < |after.transactions| && after.transactions[t].status == Completed
      ensures Credited(after, t)
    {
      assert db.transactions[t].status == Completed;
      var i :| 0 <= i < |db.credits| && db.credits[i].transactionID == t;
      assert after.credits[i].transactionID == t;
    }
  }

  lemma CreditTotalAppend(credits: seq<Credit>, c: Credit, key: BalanceKey)
    ensures CreditTotal(credits + [c], key) == CreditTotal(credits, key) + if c.key == key then c.amount else 0
  {
    assert (credits + [c])[..|credits|] == credits;
  }

  /** Appending the first credit of a payment that has just become successful. */
  lemma CreditsExtend(db: Database, after: Database, p: nat, c: Credit)
    requires CreditsOk(db) && OnlyTouches(db, after, p) && p < |db.payments|
    requires NotCredited(db, p)
    requires c.paymentID == p && CreditOk(after, c) && after.credits == db.credits + [c]
    requires after.balances == db.balances[c.key := BalanceOf(db, c.key) + c.amount]
    ensures CreditsOk(after)
  {
    forall i | 0 <= i < |db.credits|
      ensures db.credits[i].paymentID != p && CreditOk(after, db.credits[i])
    {
      assert CreditOk(db, db.credits[i]);
    }
    forall key ensures BalanceOf(after, key) == CreditTotal(after.credits, key) {
      CreditTotalAppend(db.credits, c, key);
      assert BalanceOf(db, key) == CreditTotal(db.credits, key);
    }
  }

  /** A local step that credits its own payment, which has just become successful. */
  lemma CreditStep(db: Database, after: Database, p: nat, c: Credit)
    requires Inv(db) && OnlyTouches(db, after, p) && p < |db.payments|
    requires NotCredited(db, p)
    requires after.WellFormed() && PaymentOk(after, p)
    requires after.fills == db.fills
    requires c.paymentID == p && CreditOk(after, c) && after.credits == db.credits + [c]
    requires after.balances == db.balances[c.key := BalanceOf(db, c.key) + c.amount]
    requires forall t | 0 <= t < |after.transactions| && after.transactions[t].entityID == p ::
               after.transactions[t].status == Completed ==> t == c.transactionID
    ensures Inv(after)
  {
    CreditsExtend(db, after, p, c);
    forall q | 0 <= q < |after.payments| ensures PaymentOk(after, q) {
      if q != p {
        OthersOk(db, after, p, q);
      }
    }
    forall t | 0 <= t < |after.transactions| && after.transactions[t].status == Completed
      ensures Credited(after, t)
    {
      if t == c.transactionID {
        assert after.credits[|db.credits|].transactionID == t;
      } else {
        assert db.transactions[t].status == Completed;
        var i :| 0 <= i < |db.credits| && db.credits[i].transactionID == t;
        assert after.credits[i].transactionID == t;
      }
    }
  }
}
