/** The services of the payment flow as functions on the database: what one call
    leaves behind. Each call is one atomic step, and every database write succeeds. */
module Steps {
  import opened Domain
  import opened Ledger
  import Attribution

  datatype Error =
    | NotFound
    | InvalidInput
    | IncompatibleMoney
    | PriceUnavailable
    | EmptyFactAmount
    | NegativeFactAmount
    | NegativeMoney
    | EmptyHash
    | EmptySender
    | EmptyRecipient
    | ReceiptUnavailable
    | InvalidType
    | InvalidStatus
    | OptionsMissing
    | AmountIsZero
    | NoWallet

  datatype Outcome = Done | Refused(error: Error)

  datatype Result = Result(db: Database, outcome: Outcome)

  /** A detected on-chain transfer. */
  datatype Input = Input(currency: Currency, amount: int, sender: string, hash: string, networkID: string) {
    predicate Valid() {
      currency.ticker != "" && sender != "" && hash != "" && networkID != ""
    }
  }

  /** What $0.10 is worth in the invoice currency, for each of the two times an inbound
      transfer may ask; None when the price feed fails. */
  datatype Tolerance = Tolerance(first: Option<nat>, second: Option<nat>)

  /** What the chain says about a transaction hash. */
  datatype Receipt = FetchFailed | Receipt(isConfirmed: bool, success: bool)

  /** The terms of a new invoice; how they are computed is the subject of module Money. */
  datatype Quote = Quote(amount: nat, serviceFee: nat, recipient: string)

  /** A transfer to a collector contract that matched no invoice of its own currency.
      `currency`, `amount` and `fiatValue` are None when they cannot be resolved. */
  datatype Unmatched = Unmatched(
    collector: string,
    currency: Option<Currency>,
    amount: Option<int>,
    hash: string,
    sender: string,
    fiatValue: Option<real>
  )

  // ---------------------------------------------------------------- row updates

  function SetPaymentStatus(db: Database, p: nat, status: PaymentStatus): Database
    requires p < |db.payments|
  {
    var row := db.payments[p].(status := status);
    var row := if status == PaymentLocked
               then row.(expiresAt := Some(db.now + EXPIRATION_PERIOD_FOR_LOCKED)) else row;
    db.(payments := db.payments[p := row])
  }

  /** LEAST(requested, COALESCE(original_expires_at, expires_at) + 24h); LEAST skips NULL. */
  function ExtendedExpiry(row: Payment, requested: int): int {
    var base := if row.originalExpiresAt.Some? then row.originalExpiresAt else row.expiresAt;
    if base.None? || requested <= base.value + EXTENSION_CAP then requested
    else base.value + EXTENSION_CAP
  }

  function MarkPartial(db: Database, p: nat): Database
    requires p < |db.payments|
  {
    var row := db.payments[p];
    var expiry := ExtendedExpiry(row, db.now + PARTIAL_EXTENSION_PER_FILL);
    db.(payments := db.payments[p := row.(status := PaymentPartial, expiresAt := Some(expiry))])
  }

  function SetTransactionStatus(db: Database, t: nat, status: TransactionStatus): Database
    requires t < |db.transactions|
  {
    db.(transactions := db.transactions[t := db.transactions[t].(status := status, updatedAt := db.now)])
  }

  /** transactions.Receive: records what arrived, when it validates. */
  function Receive(db: Database, t: nat, status: TransactionStatus, sender: string, hash: string, fact: int)
    : (r: Option<Database>)
    requires t < |db.transactions|
  {
    if sender == "" || hash == "" || fact == 0 then None
    else
      var row := db.transactions[t].(
        status := status, updatedAt := db.now, senderAddress := Some(sender),
        factAmount := Some(fact), hashID := Some(hash));
      Some(db.(transactions := db.transactions[t := row]))
  }

  function KeyOf(tx: Transaction): BalanceKey {
    BalanceKey(tx.merchantID, tx.currency.ticker, tx.currency.networkID)
  }

  function BalanceOf(db: Database, key: BalanceKey): int {
    if key in db.balances then db.balances[key] else 0
  }

  /** Increments the merchant balance behind transaction t and writes the audit line. */
  function CreditMerchant(db: Database, t: nat, amount: int): Database
    requires t < |db.transactions|
  {
    var tx := db.transactions[t];
    db.(
      balances := db.balances[KeyOf(tx) := BalanceOf(db, KeyOf(tx)) + amount],
      credits := db.credits + [Credit(KeyOf(tx), tx.entityID, t, amount)]
    )
  }

  // ---------------------------------------------------------------- inbound transfers

  function FillRow(db: Database, t: nat, input: Input): Fill {
    Fill(t, input.networkID, input.hash, 0, input.amount, input.sender, 1, Confirmed, db.now)
  }

  function RecordFill(db: Database, t: nat, input: Input): Database {
    db.(fills := Upsert(db.fills, FillRow(db, t, input)))
  }

  /** Some(true) when `received` covers the invoice, within the tolerance; None when the
      price is needed and missing. */
  function CrossesExpected(amount: int, received: int, tolerance: Option<nat>): Option<bool> {
    if received >= amount then Some(true)
    else match tolerance
         case None => None
         case Some(tenCents) => Some(received + tenCents >= amount)
  }

  function ProcessInbound(db: Database, t: nat, input: Input, tolerance: Tolerance): (r: Result)
    requires db.WellFormed()
  {
    if t >= |db.transactions| then Result(db, Refused(NotFound))
    else if !input.Valid() then Result(db, Refused(InvalidInput))
    else
      var tx := db.transactions[t];
      if !tx.currency.CompatibleTo(input.currency) then Result(db, Refused(IncompatibleMoney))
      else
        var combined := SumConfirmed(db.fills, t) + input.amount;
        match CrossesExpected(tx.amount, combined, tolerance.first)
        case None => Result(db, Refused(PriceUnavailable))
        case Some(crosses) =>
          if crosses then Promote(db, t, input, tolerance, combined)
          else Result(MarkPartial(RecordFill(db, t, input), tx.entityID), Done)
  }

  function Promote(db: Database, t: nat, input: Input, tolerance: Tolerance, combined: int): (r: Result)
    requires db.WellFormed() && t < |db.transactions|
  {
    match CrossesExpected(db.transactions[t].amount, combined, tolerance.second)
    case None => Result(db, Refused(PriceUnavailable))
    case Some(crosses) =>
      var status := if crosses then InProgress else InProgressInvalid;
      var recorded := RecordFill(db, t, input);
      match Receive(recorded, t, status, input.sender, input.hash, combined)
      case None => Result(recorded, Refused(EmptyFactAmount))
      case Some(received) =>
        if !crosses then Result(received, Done)
        else Result(SetPaymentStatus(received, db.transactions[t].entityID, PaymentInProgress), Done)
  }

  /** AdminReconcileFill: no test that the transaction is pending, none that the hash is new. */
  function Reconcile(db: Database, p: nat, hash: string, amount: int, sender: string, tolerance: Tolerance): (r: Result)
    requires db.WellFormed()
  {
    var latest := Latest(db.transactions, p);
    if latest.None? then Result(db, Refused(NotFound))
    else
      var currency := db.transactions[latest.value].currency;
      var author := if sender == "" then "admin-reconcile" else sender;
      ProcessInbound(db, latest.value, Input(currency, amount, author, hash, currency.networkID), tolerance)
  }

  // ---------------------------------------------------------------- reorg recheck

  /** Whether the recheck flips this fill: its payment is partial, it is confirmed and old
      enough, and its receipt no longer confirms. */
  predicate Flagged(db: Database, f: nat, gone: set<nat>)
    requires db.WellFormed() && f < |db.fills|
  {
    var fill := db.fills[f];
    && db.payments[db.transactions[fill.transactionID].entityID].status == PaymentPartial
    && fill.status == Confirmed
    && db.now - fill.observedAt >= REORG_GRACE_PERIOD
    && f in gone
  }

  /** `gone` holds the ids of the fills whose receipt is missing or unconfirmed. */
  function RecheckPartialFills(db: Database, gone: set<nat>): Database
    requires db.WellFormed()
  {
    db.(fills := seq(|db.fills|, f requires 0 <= f < |db.fills| =>
          if Flagged(db, f, gone) then db.fills[f].(status := Reorged) else db.fills[f]))
  }

  // ---------------------------------------------------------------- receipt check

  function CancelIncoming(db: Database, t: nat): Database
    requires db.WellFormed() && t < |db.transactions|
  {
    SetPaymentStatus(SetTransactionStatus(db, t, Failed), db.transactions[t].entityID, PaymentFailed)
  }

  /** What a completed transaction adds to the merchant balance: the received amount,
      at most the invoice amount, minus the service fee. */
  function Gained(tx: Transaction, fact: int): int {
    (if fact > tx.amount then tx.amount else fact) - tx.serviceFee
  }

  function ConfirmIncoming(db: Database, t: nat): (r: Result)
    requires db.WellFormed() && t < |db.transactions|
    requires db.transactions[t].factAmount.Some?
  {
    var tx := db.transactions[t];
    var fact := tx.factAmount.value;
    if fact == 0 then Result(db, Refused(EmptyFactAmount))
    else if fact < 0 then Result(db, Refused(NegativeFactAmount))
    else if tx.status == InProgressInvalid then
      var row := tx.(status := CompletedInvalid, updatedAt := db.now, serviceFee := 0);
      Result(SetPaymentStatus(db.(transactions := db.transactions[t := row]), tx.entityID, PaymentUnderpaid), Done)
    else if Gained(tx, fact) < 0 then Result(db, Refused(NegativeMoney))
    else
      var row := tx.(status := Completed, updatedAt := db.now);
      var credited := CreditMerchant(db.(transactions := db.transactions[t := row]), t, Gained(tx, fact));
      Result(SetPaymentStatus(credited, tx.entityID, PaymentSuccess), Done)
  }

  function CheckIncoming(db: Database, t: nat, receipt: Receipt): (r: Result)
    requires db.WellFormed()
  {
    if t >= |db.transactions| then Result(db, Refused(NotFound))
    else
      var tx := db.transactions[t];
      if tx.hashID.None? then Result(db, Refused(EmptyHash))
      else if tx.senderAddress.None? then Result(db, Refused(EmptySender))
      else if tx.recipient == "" then Result(db, Refused(EmptyRecipient))
      else if !tx.status.IsInProgress() then Result(db, Done)
      else
        var timedOut := db.now - tx.updatedAt > IN_PROGRESS_TIMEOUT;
        if receipt.FetchFailed? then
          if timedOut then Result(CancelIncoming(db, t), Done)
          else Result(db, Refused(ReceiptUnavailable))
        else if !receipt.isConfirmed then
          if timedOut then Result(CancelIncoming(db, t), Done) else Result(db, Done)
        else if !receipt.success then Result(CancelIncoming(db, t), Done)
        else if tx.factAmount.None? then Result(db, Refused(EmptyFactAmount))
        else ConfirmIncoming(db, t)
  }

  // ---------------------------------------------------------------- expiry

  /** Cancels the transaction, if there is a live one, and fails the payment. */
  function CancelAndFail(db: Database, p: nat, t: Option<nat>): Database
    requires p < |db.payments| && (t.Some? ==> t.value < |db.transactions|)
  {
    var canceled :=
      if t.Some? && db.transactions[t.value].status != Cancelled
      then SetTransactionStatus(db, t.value, Cancelled) else db;
    SetPaymentStatus(canceled, p, PaymentFailed)
  }

  predicate InGracePeriod(db: Database, p: nat, t: Option<nat>)
    requires p < |db.payments| && (t.Some? ==> t.value < |db.transactions|)
  {
    var pt := db.payments[p];
    && t.Some? && db.transactions[t.value].status == Pending
    && (pt.status == PaymentLocked || pt.status == PaymentPartial)
    && pt.expiresAt.Some? && db.now - pt.expiresAt.value < GRACE_PERIOD
  }

  /** The transaction of an expired partial payment keeps what did arrive, under the hash
      and sender of its first fill. A refusal of Receive is only logged. */
  function MarkUnderpaid(db: Database, p: nat, t: nat): Database
    requires p < |db.payments| && t < |db.transactions|
  {
    var first := FirstFill(db.fills, t);
    var sender := if first.Some? then db.fills[first.value].sender else "";
    var hash := if first.Some? then db.fills[first.value].hash else "";
    var received := Receive(db, t, InProgressInvalid, sender, hash, SumConfirmed(db.fills, t));
    SetPaymentStatus(if received.Some? then received.value else db, p, PaymentUnderpaid)
  }

  function Expire(db: Database, p: nat): (r: Result)
    requires db.WellFormed()
  {
    if p >= |db.payments| then Result(db, Refused(NotFound))
    else
      var pt := db.payments[p];
      var latest := Latest(db.transactions, p);
      if pt.kind != TypePayment then Result(db, Refused(InvalidType))
      else if pt.status != PaymentPending && pt.status != PaymentLocked && pt.status != PaymentPartial
      then Result(db, Refused(InvalidStatus))
      else if InGracePeriod(db, p, latest) then Result(db, Done)
      else if pt.status == PaymentPartial && latest.Some? && SumConfirmed(db.fills, latest.value) != 0
      then Result(MarkUnderpaid(db, p, latest.value), Done)
      else Result(CancelAndFail(db, p, latest), Done)
  }

  // ---------------------------------------------------------------- setting a payment up

  function CreatePayment(db: Database, kind: PaymentKind, merchantID: int, price: real): Database {
    db.(payments := db.payments + [
          Payment(kind, PaymentPending, merchantID, db.now, None, None, None, price)])
  }

  function AssignCustomer(db: Database, p: nat, customerID: int): Database {
    if p >= |db.payments| then db
    else db.(payments := db.payments[p := db.payments[p].(customerID := Some(customerID))])
  }

  /** createIncomingTransaction; None when no quote can be made. */
  function CreateIncoming(db: Database, p: nat, currency: Currency, quote: Option<Quote>): (r: Result)
    requires p < |db.payments|
  {
    match quote
    case None => Result(db, Refused(NoWallet))
    case Some(q) =>
      if q.amount == 0 then Result(db, Refused(AmountIsZero))
      else if q.recipient == "" then Result(db, Refused(EmptyRecipient))
      else
        var tx := Transaction(db.payments[p].merchantID, p, Pending, currency, q.recipient,
                              q.amount, q.serviceFee, None, None, None, db.now);
        Result(db.(transactions := db.transactions + [tx]), Done)
  }

  function SetPaymentMethod(db: Database, p: nat, currency: Currency, quote: Option<Quote>): (r: Result) {
    if p >= |db.payments| then Result(db, Refused(NotFound))
    else if !db.payments[p].IsEditable() then Result(db, Refused(InvalidStatus))
    else
      var latest := Latest(db.transactions, p);
      if latest.None? then CreateIncoming(db, p, currency, quote)
      else
        var tx := db.transactions[latest.value];
        if tx.status == Cancelled then CreateIncoming(db, p, currency, quote)
        else if tx.currency.ticker == currency.ticker && tx.currency.networkID == currency.networkID
        then Result(db, Done)
        else if tx.recipient == "" then Result(db, Refused(EmptyRecipient))
        else CreateIncoming(SetTransactionStatus(db, latest.value, Cancelled), p, currency, quote)
  }

  function LockPaymentOptions(db: Database, p: nat): (r: Result) {
    if p >= |db.payments| then Result(db, Refused(NotFound))
    else if !db.payments[p].IsEditable() then Result(db, Done)
    else if db.payments[p].customerID.None? || Latest(db.transactions, p).None?
    then Result(db, Refused(OptionsMissing))
    else Result(SetPaymentStatus(db, p, PaymentLocked), Done)
  }

  // ---------------------------------------------------------------- merchant decisions

  function Resolve(db: Database, merchantID: int, p: nat): (r: Result) {
    if p >= |db.payments| || db.payments[p].merchantID != merchantID then Result(db, Refused(NotFound))
    else if db.payments[p].status != PaymentFailed && db.payments[p].status != PaymentUnderpaid
    then Result(db, Refused(InvalidStatus))
    else
      var updated := SetPaymentStatus(db, p, PaymentSuccess);
      var latest := Latest(db.transactions, p);
      if db.payments[p].status == PaymentUnderpaid && latest.Some?
         && db.transactions[latest.value].factAmount.Some?
         && db.transactions[latest.value].factAmount.value != 0
      then Result(CreditMerchant(updated, latest.value, db.transactions[latest.value].factAmount.value), Done)
      else Result(updated, Done)
  }

  function Decline(db: Database, merchantID: int, p: nat): (r: Result) {
    if p >= |db.payments| || db.payments[p].merchantID != merchantID then Result(db, Refused(NotFound))
    else if db.payments[p].status != PaymentUnderpaid then Result(db, Refused(InvalidStatus))
    else Result(SetPaymentStatus(db, p, PaymentFailed), Done)
  }

  // ---------------------------------------------------------------- cross-currency payments

  /** The hash is already bound to a transaction at this recipient. */
  predicate HashBound(db: Database, networkID: string, hash: string, recipient: string) {
    exists t :: 0 <= t < |db.transactions|
      && db.transactions[t].hashID == Some(hash)
      && db.transactions[t].currency.networkID == networkID
      && Lower(db.transactions[t].recipient) == Lower(recipient)
  }

  predicate IsOpenInvoice(tx: Transaction, collector: string) {
    tx.recipient == collector && tx.status == Pending && tx.hashID.None?
  }

  /** The open invoices of a collector, newest first, at most `limit` of them. */
  function OpenInvoices(txs: seq<Transaction>, collector: string, limit: nat): (r: seq<nat>)
    ensures forall i :: 0 <= i < |r| ==> r[i] < |txs| && IsOpenInvoice(txs[r[i]], collector)
  {
    if |txs| == 0 || limit == 0 then []
    else
      var rest := txs[..|txs| - 1];
      if IsOpenInvoice(txs[|txs| - 1], collector)
      then [|txs| - 1] + OpenInvoices(rest, collector, limit - 1)
      else OpenInvoices(rest, collector, limit)
  }

  const MAX_OPEN_INVOICES := 50
  const CROSS_CURRENCY_FIAT_TOLERANCE := 0.10
  const CROSS_CURRENCY_DUST_FIAT := 0.50

  function Prices(db: Database, invoices: seq<nat>): (r: seq<real>)
    requires db.WellFormed()
    requires forall i :: 0 <= i < |invoices| ==> invoices[i] < |db.transactions|
    ensures |r| == |invoices|
  {
    seq(|invoices|, i requires 0 <= i < |invoices| =>
      db.payments[db.transactions[invoices[i]].entityID].price)
  }

  /** The invoice that an unmatched transfer is credited to, or None for the safety net. */
  function Attributed(db: Database, u: Unmatched): (r: Option<nat>)
    requires db.WellFormed()
    ensures r.Some? ==>
              && r.value < |db.transactions| && IsOpenInvoice(db.transactions[r.value], u.collector)
              && u.currency.Some? && u.amount.Some? && u.amount.value > 0
  {
    if u.currency.None? || u.amount.None? || u.amount.value <= 0 then None
    else if HashBound(db, u.currency.value.networkID, u.hash, u.collector) then None
    else
      var invoices := OpenInvoices(db.transactions, u.collector, MAX_OPEN_INVOICES);
      var prices := Prices(db, invoices);
      match u.fiatValue
      case None => None
      case Some(value) =>
        if value < CROSS_CURRENCY_DUST_FIAT then None
        else
          match Attribution.Winner(value, prices)
          case None => None
          case Some(i) =>
            if value + CROSS_CURRENCY_FIAT_TOLERANCE < prices[i] then None else Some(invoices[i])
  }

  function CrossCurrencyInput(u: Unmatched): Input
    requires u.currency.Some? && u.amount.Some?
  {
    var sender := if u.sender == "" then "cross-currency-reconcile" else u.sender;
    Input(u.currency.value, u.amount.value, sender, u.hash, u.currency.value.networkID)
  }

  function Relock(db: Database, inv: nat, u: Unmatched): Transaction
    requires inv < |db.transactions|
    requires u.currency.Some? && u.amount.Some?
  {
    var stale := db.transactions[inv];
    Transaction(stale.merchantID, stale.entityID, Pending, u.currency.value, u.collector,
                u.amount.value, 0, None, None, None, db.now)
  }

  /** Re-locks the invoice in the received currency and processes the transfer against the
      new lock. A failed cancel of the stale lock is only logged. */
  function AutoAccept(db: Database, inv: nat, u: Unmatched, cancelSucceeds: bool): (r: Result)
    requires db.WellFormed() && inv < |db.transactions|
    requires u.currency.Some? && u.amount.Some?
  {
    if u.collector == "" then Result(db, Refused(EmptyRecipient))
    else
      var created := db.(transactions := db.transactions + [Relock(db, inv, u)]);
      var relocked := if cancelSucceeds then SetTransactionStatus(created, inv, Cancelled) else created;
      ProcessInbound(relocked, |db.transactions|, CrossCurrencyInput(u), Tolerance(None, None))
  }

  function ResolveUnmatched(db: Database, u: Unmatched, cancelSucceeds: bool): (r: Result)
    requires db.WellFormed()
  {
    match Attributed(db, u)
    case None => Result(db, Done)
    case Some(inv) => AutoAccept(db, inv, u, cancelSucceeds)
  }

  // ---------------------------------------------------------------- the watcher's dedup guard

  /** FillExistsByHashAndRecipient. */
  predicate FillExists(db: Database, networkID: string, hash: string, recipient: string)
    requires db.WellFormed()
  {
    exists f :: 0 <= f < |db.fills|
      && db.fills[f].networkID == networkID
      && db.fills[f].hash == hash
      && Lower(db.transactions[db.fills[f].transactionID].recipient) == Lower(recipient)
  }
}
