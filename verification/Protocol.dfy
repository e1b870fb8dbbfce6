/** Runs of the payment flow: any sequence of service calls, and the guards under which
    the flow keeps its promises. */
module Protocol {
  import opened Domain
  import opened Ledger
  import opened Steps

  datatype Event =
    | CreatesPayment(kind: PaymentKind, merchantID: int, price: real)
    | AssignsCustomer(payment: nat, customerID: int)
    | SetsMethod(payment: nat, currency: Currency, quote: Option<Quote>)
    | Locks(payment: nat)
    | Receives(transaction: nat, input: Input, tolerance: Tolerance)
    | Rechecks(gone: set<nat>)
    | Checks(transaction: nat, receipt: Receipt)
    | Expires(payment: nat)
    | Resolves(merchantID: int, payment: nat)
    | Declines(merchantID: int, payment: nat)
    | Attributes(unmatched: Unmatched, cancelSucceeds: bool)
    | Waits(seconds: nat)

  function Step(db: Database, e: Event): Database
    requires db.WellFormed()
  {
    match e
    case CreatesPayment(kind, merchantID, price) => CreatePayment(db, kind, merchantID, price)
    case AssignsCustomer(p, customerID) => AssignCustomer(db, p, customerID)
    case SetsMethod(p, currency, quote) => SetPaymentMethod(db, p, currency, quote).db
    case Locks(p) => LockPaymentOptions(db, p).db
    case Receives(t, input, tolerance) => ProcessInbound(db, t, input, tolerance).db
    case Rechecks(gone) => RecheckPartialFills(db, gone)
    case Checks(t, receipt) => CheckIncoming(db, t, receipt).db
    case Expires(p) => Expire(db, p).db
    case Resolves(merchantID, p) => Resolve(db, merchantID, p).db
    case Declines(merchantID, p) => Decline(db, merchantID, p).db
    case Attributes(u, cancelSucceeds) => ResolveUnmatched(db, u, cancelSucceeds).db
    case Waits(seconds) => db.(now := db.now + seconds)
  }

  /** The delivery is new to the ledger, or it is a reorged fill that is seen again. */
  predicate NewToLedger(db: Database, t: nat, input: Input) {
    match FindFill(db.fills, FillRow(db, t, input))
    case None => true
    case Some(f) => db.fills[f].status == Reorged && db.fills[f].amount == input.amount
  }

  /** The delivery is a repetition: its row is in the ledger and counts already. */
  predicate AlreadyCounted(db: Database, t: nat, input: Input) {
    match FindFill(db.fills, FillRow(db, t, input))
    case None => false
    case Some(f) => db.fills[f].status == Confirmed
  }

  /** The delivery adds up, as it seems to, to what the invoice asks for. */
  predicate SeemsToCover(db: Database, t: nat, input: Input, tolerance: Tolerance)
    requires t < |db.transactions|
  {
    CrossesExpected(db.transactions[t].amount, SumConfirmed(db.fills, t) + input.amount, tolerance.first) == Some(true)
  }

  /** The latest transaction of a payment will not move any more. */
  predicate Settled(db: Database, p: nat) {
    var latest := Latest(db.transactions, p);
    latest.Some? ==> db.transactions[latest.value].status.IsFinalized()
  }

  /** What a caller has to check before a call. The services themselves check none of it. */
  predicate Guard(db: Database, e: Event) {
    match e
    case Receives(t, input, tolerance) =>
      && input.amount > 0
      && (t < |db.transactions| ==>
            && db.transactions[t].status == Pending
            && (|| NewToLedger(db, t, input)
                || (AlreadyCounted(db, t, input) && !SeemsToCover(db, t, input, tolerance))))
      && tolerance.first == tolerance.second
    case Resolves(_, p) => Settled(db, p)
    case Declines(_, p) => Settled(db, p)
    case Attributes(u, cancelSucceeds) =>
      && cancelSucceeds && u.hash != ""
      && (u.currency.Some? ==> u.currency.value.ticker != "" && u.currency.value.networkID != "")
    case _ => true
  }
}
