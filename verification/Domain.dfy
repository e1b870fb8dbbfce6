/** The rows that the payment flow reads and writes, and the statuses they move through.

    A table is the sequence of its rows in insertion order, and the id of a row is
    its index: rows are never deleted, so `order by id desc limit 1` is the last
    index that matches. Amounts are raw integers in the smallest unit of their
    currency. Times and durations are whole seconds. */
module Domain {

  datatype Option<+T> = None | Some(value: T)

  function LowerChar(c: char): char {
    if 'A' <= c <= 'Z' then (c as int + 32) as char else c
  }

  /** Lower case, of ASCII letters. */
  function Lower(s: string): string {
    seq(|s|, i requires 0 <= i < |s| => LowerChar(s[i]))
  }

  const MINUTE := 60
  const HOUR := 60 * MINUTE

  /** How long a locked payment waits for the customer. */
  const EXPIRATION_PERIOD_FOR_LOCKED := 20 * MINUTE
  /** How long a payment that was never locked waits. */
  const EXPIRATION_PERIOD_FOR_NOT_LOCKED := HOUR
  /** What every recorded partial fill asks for. */
  const PARTIAL_EXTENSION_PER_FILL := 30 * MINUTE
  /** The cap on those extensions, counted from the original expiry. */
  const EXTENSION_CAP := 24 * HOUR
  /** Extra time an expired payment with a pending transaction gets. */
  const GRACE_PERIOD := 30 * MINUTE
  /** Minimum age of a fill before the recheck may flag it. */
  const REORG_GRACE_PERIOD := 30 * MINUTE
  /** Ceiling on the time a transaction may stay in progress. */
  const IN_PROGRESS_TIMEOUT := 24 * HOUR

  datatype PaymentKind = TypePayment | TypeWithdrawal

  datatype PaymentStatus =
    | PaymentPending
    | PaymentLocked
    | PaymentPartial
    | PaymentInProgress
    | PaymentUnderpaid
    | PaymentSuccess
    | PaymentFailed

  datatype TransactionStatus =
    | Pending
    | InProgress
    | InProgressInvalid
    | Completed
    | CompletedInvalid
    | Cancelled
    | Failed
  {
    predicate IsFinalized() {
      Completed? || CompletedInvalid? || Cancelled? || Failed?
    }

    predicate IsInProgress() {
      InProgress? || InProgressInvalid?
    }
  }

  datatype FillStatus = Observed | Confirmed | Reorged

  datatype Currency = Currency(ticker: string, networkID: string, decimals: nat) {
    /** Money of two currencies can be added, subtracted and compared. */
    predicate CompatibleTo(other: Currency) {
      ticker == other.ticker && decimals == other.decimals
    }
  }

  datatype Payment = Payment(
    kind: PaymentKind,
    status: PaymentStatus,
    merchantID: int,
    createdAt: int,
    expiresAt: Option<int>,
    originalExpiresAt: Option<int>,
    customerID: Option<int>,
    price: real
  ) {
    predicate IsEditable() {
      status == PaymentPending
    }
  }

  /** An incoming transaction: the invoice that a payment is locked to. */
  datatype Transaction = Transaction(
    merchantID: int,
    entityID: nat,
    status: TransactionStatus,
    currency: Currency,
    recipient: string,
    amount: int,
    serviceFee: int,
    factAmount: Option<int>,
    hashID: Option<string>,
    senderAddress: Option<string>,
    updatedAt: int
  )

  /** One on-chain transfer that contributed to an invoice. */
  datatype Fill = Fill(
    transactionID: nat,
    networkID: string,
    hash: string,
    logIndex: int,
    amount: int,
    sender: string,
    confirmations: int,
    status: FillStatus,
    observedAt: int
  )

  datatype BalanceKey = BalanceKey(merchantID: int, ticker: string, networkID: string)

  /** A line of the balance audit log: one increment of a merchant balance. */
  datatype Credit = Credit(key: BalanceKey, paymentID: nat, transactionID: nat, amount: int)

  datatype Database = Database(
    payments: seq<Payment>,
    transactions: seq<Transaction>,
    fills: seq<Fill>,
    balances: map<BalanceKey, int>,
    credits: seq<Credit>,
    now: int
  ) {
    /** Referential integrity of the tables, and the unique key of the fills. */
    ghost predicate WellFormed() {
      && (forall t :: 0 <= t < |transactions| ==>
            && transactions[t].entityID < |payments|
            && transactions[t].merchantID == payments[transactions[t].entityID].merchantID)
      && (forall f :: 0 <= f < |fills| ==> fills[f].transactionID < |transactions|)
      && (forall f, g :: 0 <= f < g < |fills| ==> !SameKey(fills[f], fills[g]))
    }
  }

  /** The upsert key of transaction_fills. */
  predicate SameKey(a: Fill, b: Fill) {
    && a.transactionID == b.transactionID
    && a.networkID == b.networkID
    && a.hash == b.hash
    && a.logIndex == b.logIndex
  }

  /** The latest transaction of a payment: the greatest id that points at it. */
  function Latest(txs: seq<Transaction>, p: nat): (r: Option<nat>)
    ensures r.None? ==> forall t :: 0 <= t < |txs| ==> txs[t].entityID != p
    ensures r.Some? ==>
              && r.value < |txs| && txs[r.value].entityID == p
              && forall t :: r.value < t < |txs| ==> txs[t].entityID != p
  {
    if |txs| == 0 then None
    else if txs[|txs| - 1].entityID == p then Some(|txs| - 1)
    else Latest(txs[..|txs| - 1], p)
  }

  /** Only the entity ids decide which transaction is the latest. */
  lemma LatestFrame(before: seq<Transaction>, after: seq<Transaction>, p: nat)
    requires |before| == |after|
    requires forall t :: 0 <= t < |before| ==> before[t].entityID == after[t].entityID
    ensures Latest(before, p) == Latest(after, p)
  {
  }

  /** A new transaction is the latest of its own payment and of no other. */
  lemma LatestAppend(txs: seq<Transaction>, tx: Transaction, p: nat)
    ensures Latest(txs + [tx], p) == if tx.entityID == p then Some(|txs|) else Latest(txs, p)
  {
    assert (txs + [tx])[..|txs|] == txs;
  }
}
