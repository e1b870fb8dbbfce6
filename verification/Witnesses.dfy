/** Runs that reach the failing side of the promises that `Limits`, `Reconciliation` and
    `Promises` qualify: none of those conditions is met by every database. */
module Witnesses {
  import opened Domain
  import opened Ledger
  import opened Steps
  import opened Protocol
  import opened Invariant
  import opened Preservation
  import opened Runs
  import opened Promises
  import opened Limits
  import opened Reconciliation
  import Attribution

  lemma ReachableOn(db: Database, e: Event)
    requires Reachable(db) && db.WellFormed() && Guard(db, e)
    ensures Reachable(Step(db, e))
  {
    var events :| Guarded(EMPTY, events) && Run(EMPTY, events) == db;
    RunOne(db, e);
    RunAppend(EMPTY, events, [e]);
    assert Guarded(EMPTY, events + [e]) && Run(EMPTY, events + [e]) == Step(db, e);
  }

  const NO_TOLERANCE := Tolerance(Some(0), Some(0))

  function Transfer(amount: int, hash: string): Input {
    Input(COIN, amount, "payer", hash, "network")
  }

  function PaymentRow(status: PaymentStatus, expiresAt: int): Payment {
    Payment(TypePayment, status, 1, 0, Some(expiresAt), None, Some(1), 10.0)
  }

  /** The invoice of 10 units, once a transfer is recorded on it. */
  function InvoiceRow(status: TransactionStatus, fact: int, updatedAt: int): Transaction {
    Transaction(1, 0, status, COIN, "address", 10, 0, Some(fact), Some("hash"), Some("payer"), updatedAt)
  }

  function FillOf(amount: int, status: FillStatus): Fill {
    Fill(0, "network", "hash", 0, amount, "payer", 1, status, 0)
  }

  // ---------------------------------------------------------------- a partial payment

  const OPEN := NewInvoice(10)

  lemma OpenIsReached()
    ensures Reachable(OPEN) && OPEN.WellFormed()
  {
    var events := NewInvoiceIsReached(10);
  }

  /** 4 or 6 of 10 units have arrived. */
  function Partial(amount: int): Database {
    OPEN.(payments := [PaymentRow(PaymentPartial, PARTIAL_EXTENSION_PER_FILL)], fills := [FillOf(amount, Confirmed)])
  }

  lemma SumOfOne(f: Fill)
    ensures SumConfirmed([f], f.transactionID) == if f.status == Confirmed then f.amount else 0
  {
    SumAppend([], f, f.transactionID, ConfirmedOnly);
    assert [] + [f] == [f];
  }

  lemma PartialIsReached(amount: int)
    requires 0 < amount < 10
    ensures Reachable(Partial(amount)) && Partial(amount).WellFormed()
    ensures SumConfirmed(Partial(amount).fills, 0) == amount
  {
    OpenIsReached();
    SumOfOne(FillOf(amount, Confirmed));
    var e := Receives(0, Transfer(amount, "hash"), NO_TOLERANCE);
    assert Step(OPEN, e) == Partial(amount);
    ReachableOn(OPEN, e);
  }

  /** A partial payment has expired, and the chain has yet to confirm its transaction. */
  const UNSETTLED := OPEN.(
    payments := [PaymentRow(PaymentUnderpaid, PARTIAL_EXTENSION_PER_FILL)],
    transactions := [InvoiceRow(InProgressInvalid, 4, 2 * HOUR)], fills := [FillOf(4, Confirmed)], now := 2 * HOUR)

  lemma UnsettledIsReached()
    ensures Reachable(UNSETTLED) && UNSETTLED.WellFormed()
  {
    PartialIsReached(4);
    var waited := Partial(4).(now := 2 * HOUR);
    ReachableOn(Partial(4), Waits(2 * HOUR));
    assert FirstFill(waited.fills, 0) == Some(0);
    assert Latest(waited.transactions, 0) == Some(0);
    assert Expire(waited, 0).db == MarkUnderpaid(waited, 0, 0);
    assert Step(waited, Expires(0)) == UNSETTLED;
    ReachableOn(waited, Expires(0));
  }

  /** ResolveExact and DeclineExact: resolving it now leads to a second credit, declining it to
      a return. */
  lemma ResolvedTooEarly()
    ensures Reachable(UNSETTLED)
    ensures Resolve(UNSETTLED, 1, 0).db.WellFormed() && CanCreditTwice(Resolve(UNSETTLED, 1, 0).db, 0)
    ensures Decline(UNSETTLED, 1, 0).db.WellFormed() && CanGoBack(Decline(UNSETTLED, 1, 0).db, 0)
  {
    UnsettledIsReached();
    assert Latest(UNSETTLED.transactions, 0) == Some(0);
    ResolveExact(UNSETTLED, 0);
    DeclineExact(UNSETTLED, 0);
  }

  /** PromotionConservesExactly: 6 of 10 units are delivered twice, and the invoice is promoted
      for 12 of which the ledger has 6. */
  lemma DeliveredTwice()
    ensures Reachable(Partial(6)) && Partial(6).WellFormed()
    ensures var after := ProcessInbound(Partial(6), 0, Transfer(6, "hash"), NO_TOLERANCE).db;
      && after.payments[0].status == PaymentInProgress
      && after.transactions[0].factAmount == Some(12) && SumConfirmed(after.fills, 0) == 6
  {
    PartialIsReached(6);
    var row := FillRow(Partial(6), 0, Transfer(6, "hash"));
    assert FindFill(Partial(6).fills, row) == Some(0);
    UpsertSum(Partial(6).fills, row, 0);
  }

  /** TwoOutputsExact: 3 and 4 units in one on-chain transaction count as 3. */
  lemma SecondOutputIsLost()
    ensures Reachable(OPEN) && OPEN.WellFormed()
    ensures var once := ProcessInbound(OPEN, 0, Transfer(3, "hash"), NO_TOLERANCE).db;
      && once == Partial(3) && once.WellFormed()
      && SumConfirmed(ProcessInbound(once, 0, Transfer(4, "hash"), NO_TOLERANCE).db.fills, 0) == 3
  {
    PartialIsReached(3);
    OpenIsReached();
    var row := FillRow(Partial(3), 0, Transfer(4, "hash"));
    assert FindFill(Partial(3).fills, row) == Some(0);
    UpsertSum(Partial(3).fills, row, 0);
  }

  /** PromotionStatusExact: 9 of 10 units arrive, and $0.10 is worth one unit at the first price
      read and none at the second. The transaction is invalid behind a payment still locked. */
  lemma PriceFell()
    ensures Reachable(OPEN) && OPEN.WellFormed()
    ensures var after := ProcessInbound(OPEN, 0, Transfer(9, "hash"), Tolerance(Some(1), Some(0))).db;
      && after.transactions[0].status == InProgressInvalid && after.payments[0].status == PaymentLocked
  {
    OpenIsReached();
  }

  // ---------------------------------------------------------------- reconciled fills

  const KEY := BalanceKey(1, "COIN", "network")

  /** The merchant accepts the 4 units once the chain has confirmed them. */
  const ACCEPTED := UNSETTLED.(
    payments := [PaymentRow(PaymentSuccess, PARTIAL_EXTENSION_PER_FILL)],
    transactions := [InvoiceRow(CompletedInvalid, 4, 2 * HOUR)],
    balances := map[KEY := 4], credits := [Credit(KEY, 0, 0, 4)])

  lemma AcceptedIsReached()
    ensures Reachable(ACCEPTED) && ACCEPTED.WellFormed()
  {
    UnsettledIsReached();
    var e := Checks(0, GOOD_RECEIPT);
    var settled := UNSETTLED.(transactions := [InvoiceRow(CompletedInvalid, 4, 2 * HOUR)]);
    assert Step(UNSETTLED, e) == settled;
    ReachableOn(UNSETTLED, e);
    assert Latest(settled.transactions, 0) == Some(0);
    assert Step(settled, Resolves(1, 0)) == ACCEPTED;
    ReachableOn(settled, Resolves(1, 0));
  }

  /** ReconcileExact: a fill of less than 6 units, which covers nothing, and one of 6 or more,
      which does, both open the accepted payment again. */
  lemma ReconciledAfterSuccess(amount: nat)
    requires 0 < amount
    ensures Reachable(ACCEPTED)
    ensures var after := Reconcile(ACCEPTED, 0, "late", amount, "", NO_TOLERANCE).db;
      && after.WellFormed() && CanCreditTwice(after, 0)
      && after.payments[0].status == if amount < 6 then PaymentPartial else PaymentInProgress
  {
    AcceptedIsReached();
    assert Latest(ACCEPTED.transactions, 0) == Some(0);
    SumOfOne(FillOf(4, Confirmed));
    assert ACCEPTED.credits[0].paymentID == 0;
    ReconcileExact(ACCEPTED, 0, "late", amount, "", NO_TOLERANCE);
    PositiveFillReopens(ACCEPTED, 0, amount, NO_TOLERANCE);
    ReconcileEffect(ACCEPTED, 0, 0, "late", amount, "", NO_TOLERANCE);
  }

  // ---------------------------------------------------------------- re-locks

  const OTHER := Currency("OTHER", "chain", 6)

  /** A transfer of 5 units of another currency to the collector, worth what the payment asks. */
  const STRAY := Unmatched("address", Some(OTHER), Some(5), "stray", "payer", Some(10.0))

  lemma StrayIsAttributed(db: Database)
    requires db.WellFormed() && |db.transactions| == 1 && IsOpenInvoice(db.transactions[0], "address")
    requires db.payments[db.transactions[0].entityID].price == 10.0
    ensures Attributed(db, STRAY) == Some(0)
  {
    assert db.transactions[..0] == [];
    assert OpenInvoices(db.transactions, "address", MAX_OPEN_INVOICES) == [0];
    assert Prices(db, [0]) == [10.0];
    assert Attribution.BeatsAll(10.0, [10.0], 0);
    Attribution.WinnerIsUnique(10.0, [10.0], 0);
  }

  /** RelockExact: when the cancel of the stale lock fails, two live transactions are left. */
  lemma CancelFailed()
    ensures Reachable(OPEN) && OPEN.WellFormed()
    ensures var after := ResolveUnmatched(OPEN, STRAY, false).db;
      && |after.transactions| == 2 && after.transactions[0].entityID == after.transactions[1].entityID == 0
      && after.transactions[0].status == Pending && after.transactions[1].status == InProgress
  {
    OpenIsReached();
    StrayIsAttributed(OPEN);
    ReachableIsOk(OPEN);
    UncanceledEffect(OPEN, 0, STRAY);
  }

  /** RelockStrandsEarlierFills: the 4 units of a partial payment are stranded. */
  lemma StrandedFills()
    ensures Reachable(Partial(4)) && Partial(4).WellFormed() && Guard(Partial(4), Attributes(STRAY, true))
    ensures var after := ResolveUnmatched(Partial(4), STRAY, true).db;
      && after.transactions[0].status == Cancelled && SumConfirmed(after.fills, 0) == 4
  {
    PartialIsReached(4);
    StrayIsAttributed(Partial(4));
    ReachableIsOk(Partial(4));
    AutoAcceptEffect(Partial(4), 0, STRAY);
    RelockStrandsEarlierFills(Partial(4), 0, STRAY, []);
  }

  // ---------------------------------------------------------------- reorgs

  /** After half an hour the receipt of the only fill is gone. */
  const REORGED := Partial(4).(fills := [FillOf(4, Reorged)], now := 30 * MINUTE)

  /** ReorgedForever: when the transfer is mined again it is new to the ledger, and the watcher's
      guard stops it. */
  lemma ReorgedIsReached()
    ensures Reachable(REORGED) && REORGED.WellFormed() && REORGED.fills[0].status == Reorged
    ensures FillExists(REORGED, "network", "hash", "address") && NewToLedger(REORGED, 0, Transfer(4, "hash"))
  {
    PartialIsReached(4);
    var waited := Partial(4).(now := 30 * MINUTE);
    ReachableOn(Partial(4), Waits(30 * MINUTE));
    assert Step(waited, Rechecks({0})).fills == REORGED.fills;
    ReachableOn(waited, Rechecks({0}));
    assert REORGED.fills[0].hash == "hash";
  }

  // ---------------------------------------------------------------- a fee above the gain

  function Expensive(tx: Transaction): Transaction {
    tx.(serviceFee := 9)
  }

  /** 8 of 10 units were promoted within a tolerance of 2, and the service fee is 9. */
  function Stuck(now: int): Database {
    EMPTY.(
      payments := [PaymentRow(PaymentInProgress, EXPIRATION_PERIOD_FOR_LOCKED)],
      transactions := [Expensive(InvoiceRow(InProgress, 8, 0))], fills := [FillOf(8, Confirmed)], now := now)
  }

  lemma ExpensiveIsReached()
    ensures var chosen := NewPayment().(transactions := [Expensive(OPEN.transactions[0])]);
      && Reachable(chosen.(payments := OPEN.payments)) && chosen.(payments := OPEN.payments).WellFormed()
  {
    var chosen := NewPayment().(transactions := [Expensive(OPEN.transactions[0])]);
    var choose := SetsMethod(0, COIN, Some(Quote(10, 9, "address")));
    NewPaymentIsReached();
    assert Latest(NewPayment().transactions, 0).None?;
    assert Step(NewPayment(), choose) == chosen;
    ReachableOn(NewPayment(), choose);
    assert Latest(chosen.transactions, 0) == Some(0);
    assert Step(chosen, Locks(0)) == chosen.(payments := OPEN.payments);
    ReachableOn(chosen, Locks(0));
  }

  lemma StuckIsReached(now: nat)
    ensures Reachable(Stuck(now)) && Stuck(now).WellFormed()
  {
    var locked := NewPayment().(transactions := [Expensive(OPEN.transactions[0])], payments := OPEN.payments);
    var e := Receives(0, Transfer(8, "hash"), Tolerance(Some(2), Some(2)));
    ExpensiveIsReached();
    assert Step(locked, e) == Stuck(0);
    ReachableOn(locked, e);
    ReachableOn(Stuck(0), Waits(now));
  }

  /** CheckFinalizes: a good receipt finalizes nothing, a day later and ever after. */
  lemma NeverFinalized(now: nat)
    requires now > IN_PROGRESS_TIMEOUT
    ensures Reachable(Stuck(now)) && Stuck(now).WellFormed() && Stuck(now).transactions[0].status == InProgress
    ensures CheckIncoming(Stuck(now), 0, GOOD_RECEIPT) == Result(Stuck(now), Refused(NegativeMoney))
  {
    StuckIsReached(now);
  }
}
