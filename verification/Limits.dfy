/** Where the promises stop: what an unguarded call does, and exactly when a promise survives
    it. */
module Limits {
  import opened Domain
  import opened Ledger
  import opened Steps
  import opened Protocol
  import opened Invariant
  import opened Preservation
  import opened Runs
  import opened Promises

  // ---------------------------------------------------------------- resolve and decline

  lemma {:induction false} DistinctCredits(credits: seq<Credit>, p: nat)
    requires forall i, j :: 0 <= i < j < |credits| ==> credits[i].paymentID != credits[j].paymentID
    ensures |CreditsOf(credits, p)| <= 1
    ensures (forall i :: 0 <= i < |credits| ==> credits[i].paymentID != p) ==> CreditsOf(credits, p) == []
  {
    if |credits| > 0 {
      var rest := credits[..|credits| - 1];
      DistinctCredits(rest, p);
      if credits[|credits| - 1].paymentID == p {
        forall i | 0 <= i < |rest| ensures rest[i].paymentID != p {
          assert credits[i].paymentID != credits[|credits| - 1].paymentID;
        }
      }
    }
  }

  lemma CreditsOfAppend(credits: seq<Credit>, c: Credit, p: nat)
    ensures CreditsOf(credits + [c], p)
         == if c.paymentID == p then CreditsOf(credits, p) + [c] else CreditsOf(credits, p)
  {
    assert (credits + [c])[..|credits|] == credits;
  }

  lemma TwoCredits(credits: seq<Credit>, c: Credit, d: Credit)
    requires c.paymentID == d.paymentID
    ensures |CreditsOf(credits + [c] + [d], c.paymentID)| >= 2
  {
    CreditsOfAppend(credits, c, c.paymentID);
    CreditsOfAppend(credits + [c], d, c.paymentID);
  }

  /** Some guarded continuation credits payment p more than once. */
  ghost predicate CanCreditTwice(db: Database, p: nat)
    requires db.WellFormed()
  {
    exists events :: Guarded(db, events) && |CreditsOf(Run(db, events).credits, p)| >= 2
  }

  lemma OkCannotCreditTwice(db: Database, p: nat)
    requires Inv(db)
    ensures !CanCreditTwice(db, p)
  {
    forall events | Guarded(db, events) ensures |CreditsOf(Run(db, events).credits, p)| <= 1 {
      RunKeepsInv(db, events);
      DistinctCredits(Run(db, events).credits, p);
    }
  }

  /** A run of two events. */
  lemma RunTwo(db: Database, first: Event, second: Event)
    requires db.WellFormed()
    ensures Step(db, first).WellFormed()
    ensures Run(db, [first, second]) == Step(Step(db, first), second)
    ensures Guarded(db, [first, second]) <==> Guard(db, first) && Guard(Step(db, first), second)
  {
    StepWellFormed(db, first);
    StepWellFormed(Step(db, first), second);
    assert [first, second][1..] == [second];
    assert [second][1..] == [];
    assert Run(Step(Step(db, first), second), []) == Step(Step(db, first), second);
    assert Run(Step(db, first), [second]) == Step(Step(db, first), second);
    assert Guarded(Step(Step(db, first), second), []);
    assert Guarded(Step(db, first), [second]) <==> Guard(Step(db, first), second);
  }

  /** A run of one event. */
  lemma RunOne(db: Database, e: Event)
    requires db.WellFormed()
    ensures Run(db, [e]) == Step(db, e)
    ensures Guarded(db, [e]) <==> Guard(db, e)
  {
    StepWellFormed(db, e);
    assert [e][1..] == [];
    assert Guarded(Step(db, e), []);
    assert Run(Step(db, e), []) == Step(db, e);
  }

  /** Two guarded events after which payment p has two credits. */
  lemma TwoEventsCreditTwice(db: Database, first: Event, second: Event, p: nat)
    requires db.WellFormed() && Step(db, first).WellFormed()
    requires Guard(db, first) && Guard(Step(db, first), second)
    requires |CreditsOf(Step(Step(db, first), second).credits, p)| >= 2
    ensures CanCreditTwice(db, p)
  {
    RunTwo(db, first, second);
    assert Guarded(db, [first, second]);
  }

  const GOOD_RECEIPT := Receipt(true, true)

  /** What confirming an invalid transaction writes: its own final status, and `underpaid`
      whatever the status of the payment was. */
  lemma ConfirmInvalidEffect(db: Database, p: nat, t: nat)
    requires db.WellFormed() && t < |db.transactions| && db.transactions[t].entityID == p
    requires db.transactions[t].status == InProgressInvalid
    requires db.transactions[t].hashID.Some? && db.transactions[t].senderAddress.Some?
    requires db.transactions[t].recipient != ""
    requires db.transactions[t].factAmount.Some? && db.transactions[t].factAmount.value > 0
    ensures var after := CheckIncoming(db, t, GOOD_RECEIPT).db;
      && after.WellFormed()
      && after.payments == db.payments[p := db.payments[p].(status := PaymentUnderpaid)]
      && |after.transactions| == |db.transactions|
      && (forall u :: 0 <= u < |db.transactions| ==> after.transactions[u].entityID == db.transactions[u].entityID)
      && after.transactions[t].status == CompletedInvalid
      && after.transactions[t].factAmount == db.transactions[t].factAmount
      && after.credits == db.credits
  {
    StepWellFormed(db, Checks(t, GOOD_RECEIPT));
  }

  /** Between two resolves of an unsettled payment: the receipt check writes `underpaid` over
      `success`, and leaves everything in place for the second. */
  lemma CheckedAfterResolve(db: Database, p: nat, t: nat)
    requires Inv(db) && p < |db.payments| && db.payments[p].status == PaymentUnderpaid
    requires Latest(db.transactions, p) == Some(t) && db.transactions[t].status == InProgressInvalid
    ensures var m, tx := db.payments[p].merchantID, db.transactions[t];
            var once := Resolve(db, m, p).db;
      && tx.factAmount.Some? && once.WellFormed()
      && once.credits == db.credits + [Credit(KeyOf(tx), p, t, tx.factAmount.value)]
      && var checked := CheckIncoming(once, t, GOOD_RECEIPT).db;
      && checked.WellFormed() && checked.credits == once.credits
      && p < |checked.payments| && checked.payments[p].status == PaymentUnderpaid && checked.payments[p].merchantID == m
      && Latest(checked.transactions, p) == Some(t) && Settled(checked, p)
      && checked.transactions[t].factAmount.Some? && checked.transactions[t].factAmount.value > 0
  {
    assert PaymentOk(db, p);
    assert TransactionOk(db.transactions[t], SumConfirmed(db.fills, t));
    ResolveEffect(db, p, t);
    var once := Resolve(db, db.payments[p].merchantID, p).db;
    ConfirmInvalidEffect(once, p, t);
    LatestFrame(once.transactions, CheckIncoming(once, t, GOOD_RECEIPT).db.transactions, p);
  }

  /** Resolving an underpaid payment whose transaction the chain has yet to confirm: the
      receipt check writes `underpaid` over `success`, and a second resolve credits again. */
  lemma UnsettledResolveCreditsTwice(db: Database, p: nat)
    requires Inv(db) && p < |db.payments| && db.payments[p].status == PaymentUnderpaid && !Settled(db, p)
    ensures Resolve(db, db.payments[p].merchantID, p).db.WellFormed()
    ensures CanCreditTwice(Resolve(db, db.payments[p].merchantID, p).db, p)
  {
    var m, t := db.payments[p].merchantID, Latest(db.transactions, p).value;
    assert PaymentOk(db, p);
    CheckedAfterResolve(db, p, t);
    var once := Resolve(db, m, p).db;
    var checked := CheckIncoming(once, t, GOOD_RECEIPT).db;
    ResolveEffect(checked, p, t);
    var twice := Resolve(checked, m, p).db;
    TwoCredits(db.credits, once.credits[|db.credits|], twice.credits[|once.credits|]);
    TwoEventsCreditTwice(once, Checks(t, GOOD_RECEIPT), Resolves(m, p), p);
  }

  /** Resolving an underpaid payment is safe exactly when its latest transaction is
      finalized at the call: then no continuation credits it twice, else one does. */
  lemma ResolveExact(db: Database, p: nat)
    requires Reachable(db) && p < |db.payments| && db.payments[p].status == PaymentUnderpaid
    ensures Resolve(db, db.payments[p].merchantID, p).db.WellFormed()
    ensures CanCreditTwice(Resolve(db, db.payments[p].merchantID, p).db, p) <==> !Settled(db, p)
  {
    ReachableIsOk(db);
    if Settled(db, p) {
      ResolveKeepsInv(db, db.payments[p].merchantID, p);
      OkCannotCreditTwice(Resolve(db, db.payments[p].merchantID, p).db, p);
    } else {
      UnsettledResolveCreditsTwice(db, p);
    }
  }

  /** Some guarded continuation brings payment p back above its rank. */
  ghost predicate CanGoBack(db: Database, p: nat)
    requires db.WellFormed() && p < |db.payments|
  {
    exists events :: Guarded(db, events) && p < |Run(db, events).payments|
      && Rank(Run(db, events).payments[p].status) > Rank(db.payments[p].status)
  }

  /** A declined payment stays declined or resolved exactly when its latest transaction was
      finalized at the call: else the receipt check makes it underpaid again. */
  lemma DeclineExact(db: Database, p: nat)
    requires Reachable(db) && p < |db.payments| && db.payments[p].status == PaymentUnderpaid
    ensures Decline(db, db.payments[p].merchantID, p).db.WellFormed()
    ensures CanGoBack(Decline(db, db.payments[p].merchantID, p).db, p) <==> !Settled(db, p)
  {
    ReachableIsOk(db);
    var m := db.payments[p].merchantID;
    var declined := Decline(db, m, p).db;
    StepWellFormed(db, Declines(m, p));
    if Settled(db, p) {
      DeclineKeepsInv(db, m, p);
      forall events | Guarded(declined, events)
        ensures p < |Run(declined, events).payments|
             && Rank(Run(declined, events).payments[p].status) <= Rank(declined.payments[p].status)
      {
        StatusesDescendFrom(declined, events, p);
      }
    } else {
      assert PaymentOk(db, p);
      var t := Latest(db.transactions, p).value;
      assert TransactionOk(db.transactions[t], SumConfirmed(db.fills, t));
      RunOne(declined, Checks(t, GOOD_RECEIPT));
      assert Step(declined, Checks(t, GOOD_RECEIPT)).payments[p].status == PaymentUnderpaid;
      assert Guarded(declined, [Checks(t, GOOD_RECEIPT)]);
    }
  }

  // ---------------------------------------------------------------- duplicate deliveries

  /** A promotion records as fact amount what the ledger then sums to exactly when the
      delivery is new to the ledger. A repeated delivery is counted twice. */
  lemma PromotionConservesExactly(db: Database, t: nat, input: Input, tolerance: Tolerance)
    requires Reachable(db) && t < |db.transactions| && db.transactions[t].status == Pending
    requires input.Valid() && input.amount > 0 && db.transactions[t].currency.CompatibleTo(input.currency)
    requires SeemsToCover(db, t, input, tolerance)
    requires tolerance.first == tolerance.second
    ensures var after := ProcessInbound(db, t, input, tolerance).db;
      && after.transactions[t].factAmount.Some?
      && (after.transactions[t].factAmount == Some(SumConfirmed(after.fills, t)) <==> NewToLedger(db, t, input))
  {
    ReachableIsOk(db);
    SumNonNegative(db.fills, t, ConfirmedOnly);
    PromotionEffect(db, t, input, tolerance, SumConfirmed(db.fills, t) + input.amount);
    UpsertSum(db.fills, FillRow(db, t, input), t);
    GainIsAmountExactly(db, t, input);
  }

  /** The watcher's own guard is enough: a delivery it lets through is new to the ledger. */
  lemma WatcherGuardSuffices(db: Database, t: nat, input: Input)
    requires db.WellFormed() && t < |db.transactions|
    requires !FillExists(db, input.networkID, input.hash, db.transactions[t].recipient)
    ensures NewToLedger(db, t, input)
  {
  }

  /** Every delivery of the run passes the watcher's guard. */
  predicate Deduplicated(db: Database, events: seq<Event>)
    requires db.WellFormed()
    decreases |events|
  {
    |events| > 0 ==>
      && (events[0].Receives? && events[0].transaction < |db.transactions| ==>
            !FillExists(db, events[0].input.networkID, events[0].input.hash,
                        db.transactions[events[0].transaction].recipient))
      && (StepWellFormed(db, events[0]); Deduplicated(Step(db, events[0]), events[1..]))
  }

  lemma FreshDelivery(db: Database, t: nat, input: Input, tolerance: Tolerance)
    requires db.WellFormed() && (t < |db.transactions| ==> FindFill(db.fills, FillRow(db, t, input)).None?)
    ensures db.fills <= ProcessInbound(db, t, input, tolerance).db.fills
  {
  }

  lemma AttributionAppends(db: Database, u: Unmatched, cancelSucceeds: bool)
    requires db.WellFormed()
    ensures db.fills <= ResolveUnmatched(db, u, cancelSucceeds).db.fills
  {
    if Attributed(db, u).Some? {
      var inv := Attributed(db, u).value;
      var created := db.(transactions := db.transactions + [Relock(db, inv, u)]);
      var relocked := if cancelSucceeds then SetTransactionStatus(created, inv, Cancelled) else created;
      FreshDelivery(relocked, |db.transactions|, CrossCurrencyInput(u), Tolerance(None, None));
    }
  }

  lemma CheckKeepsFills(db: Database, t: nat, receipt: Receipt)
    requires db.WellFormed()
    ensures CheckIncoming(db, t, receipt).db.fills == db.fills
  {
  }

  lemma ExpiryKeepsFills(db: Database, p: nat)
    requires db.WellFormed()
    ensures Expire(db, p).db.fills == db.fills
  {
  }

  lemma SetMethodKeepsFills(db: Database, p: nat, currency: Currency, quote: Option<Quote>)
    ensures SetPaymentMethod(db, p, currency, quote).db.fills == db.fills
  {
  }

  lemma DecisionKeepsFills(db: Database, merchantID: int, p: nat)
    ensures Resolve(db, merchantID, p).db.fills == db.fills
    ensures Decline(db, merchantID, p).db.fills == db.fills
    ensures LockPaymentOptions(db, p).db.fills == db.fills
  {
  }

  lemma StepKeepsReorged(db: Database, e: Event, f: nat)
    requires db.WellFormed() && f < |db.fills| && db.fills[f].status == Reorged
    requires e.Receives? && e.transaction < |db.transactions| ==>
               !FillExists(db, e.input.networkID, e.input.hash, db.transactions[e.transaction].recipient)
    ensures f < |Step(db, e).fills| && Step(db, e).fills[f] == db.fills[f]
  {
    match e
    case Receives(t, input, tolerance) => FreshDelivery(db, t, input, tolerance);
    case Attributes(u, cancelSucceeds) => AttributionAppends(db, u, cancelSucceeds);
    case SetsMethod(p, currency, quote) => SetMethodKeepsFills(db, p, currency, quote);
    case Checks(t, receipt) => CheckKeepsFills(db, t, receipt);
    case Expires(p) => ExpiryKeepsFills(db, p);
    case Resolves(merchantID, p) => DecisionKeepsFills(db, merchantID, p);
    case Declines(merchantID, p) => DecisionKeepsFills(db, merchantID, p);
    case Locks(p) => DecisionKeepsFills(db, 0, p);
    case _ =>
  }

  /** The price of that guard: it also stops a transfer that was marked reorged and is then
      mined again. Along any run that the watcher lets through, the row stays reorged. */
  lemma {:induction false} ReorgedForever(db: Database, events: seq<Event>, f: nat)
    requires db.WellFormed() && Deduplicated(db, events)
    requires f < |db.fills| && db.fills[f].status == Reorged
    ensures f < |Run(db, events).fills| && Run(db, events).fills[f] == db.fills[f]
    decreases |events|
  {
    if |events| > 0 {
      StepKeepsReorged(db, events[0], f);
      StepWellFormed(db, events[0]);
      ReorgedForever(Step(db, events[0]), events[1..], f);
    }
  }

  /** Two rows that are new to the ledger: the second gains its amount unless it has the key of
      the first. */
  lemma TwoRows(fills: seq<Fill>, a: Fill, b: Fill)
    requires a.transactionID == b.transactionID && a.status == Confirmed && b.status == Confirmed
    requires FindFill(fills, a).None? && FindFill(fills, b).None? && b.amount > 0
    ensures SumConfirmed(Upsert(Upsert(fills, a), b), a.transactionID)
         == SumConfirmed(fills, a.transactionID) + a.amount + if SameKey(a, b) then 0 else b.amount
  {
    var once := fills + [a];
    SumAppend(fills, a, a.transactionID, ConfirmedOnly);
    UpsertSum(once, b, a.transactionID);
    assert once[..|fills|] == fills;
  }

  lemma ShortTransfer(db: Database, t: nat, input: Input, tenCents: nat)
    requires db.WellFormed() && t < |db.transactions| && input.Valid()
    requires db.transactions[t].currency.CompatibleTo(input.currency)
    requires SumConfirmed(db.fills, t) + input.amount + tenCents < db.transactions[t].amount
    ensures var after := ProcessInbound(db, t, input, Tolerance(Some(tenCents), Some(tenCents))).db;
      && after.WellFormed() && after.transactions == db.transactions && after.now == db.now
      && after.fills == Upsert(db.fills, FillRow(db, t, input))
  {
    InboundWellFormed(db, t, input, Tolerance(Some(tenCents), Some(tenCents)));
  }

  /** The ledger counts each hash once for an invoice, not each output: every fill is recorded
      with index 0, so of two transfers in one on-chain transaction the second gains nothing. */
  lemma TwoOutputsExact(db: Database, t: nat, first: Input, second: Input, tenCents: nat)
    requires db.WellFormed() && t < |db.transactions| && first.Valid() && second.Valid()
    requires first.amount > 0 && second.amount > 0
    requires db.transactions[t].currency.CompatibleTo(first.currency)
    requires db.transactions[t].currency.CompatibleTo(second.currency)
    requires FindFill(db.fills, FillRow(db, t, first)).None? && FindFill(db.fills, FillRow(db, t, second)).None?
    requires SumConfirmed(db.fills, t) + first.amount + second.amount + tenCents < db.transactions[t].amount
    ensures var tolerance := Tolerance(Some(tenCents), Some(tenCents));
            var once := ProcessInbound(db, t, first, tolerance).db;
      && once.WellFormed()
      && var twice := ProcessInbound(once, t, second, tolerance).db;
         SumConfirmed(twice.fills, t) == SumConfirmed(db.fills, t) + first.amount + second.amount <==>
         first.hash != second.hash || first.networkID != second.networkID
  {
    var once := ProcessInbound(db, t, first, Tolerance(Some(tenCents), Some(tenCents))).db;
    ShortTransfer(db, t, first, tenCents);
    UpsertSum(db.fills, FillRow(db, t, first), t);
    ShortTransfer(once, t, second, tenCents);
    TwoRows(db.fills, FillRow(db, t, first), FillRow(db, t, second));
  }

  // ---------------------------------------------------------------- two price reads

  /** A promotion reaches inProgress exactly when the second price read still covers the
      invoice; otherwise the transaction becomes inProgressInv behind an unchanged payment. */
  lemma PromotionStatusExact(db: Database, t: nat, input: Input, tolerance: Tolerance)
    requires Reachable(db) && t < |db.transactions| && db.transactions[t].status == Pending
    requires input.Valid() && input.amount > 0 && db.transactions[t].currency.CompatibleTo(input.currency)
    requires tolerance.first.Some? && tolerance.second.Some?
    requires SeemsToCover(db, t, input, tolerance)
    ensures var p, after := db.transactions[t].entityID, ProcessInbound(db, t, input, tolerance).db;
      && (after.transactions[t].status == InProgress <==>
            SumConfirmed(db.fills, t) + input.amount + tolerance.second.value >= db.transactions[t].amount)
      && (after.transactions[t].status != InProgress ==>
            after.transactions[t].status == InProgressInvalid && after.payments == db.payments)
      && (tolerance.first == tolerance.second ==>
            after.transactions[t].status == InProgress && after.payments[p].status == PaymentInProgress)
  {
    ReachableIsOk(db);
    PendingIsLatest(db, t);
    SumNonNegative(db.fills, t, ConfirmedOnly);
  }

  // ---------------------------------------------------------------- the expiry cap

  /** Fills at the given times, one after the other. */
  function AfterFills(row: Payment, times: seq<int>): Payment
    decreases |times|
  {
    if |times| == 0 then row
    else
      var last := times[|times| - 1];
      var before := AfterFills(row, times[..|times| - 1]);
      before.(status := PaymentPartial, expiresAt := Some(ExtendedExpiry(before, last + PARTIAL_EXTENSION_PER_FILL)))
  }

  lemma {:induction false} AfterFillsCapped(row: Payment, times: seq<int>)
    requires row.originalExpiresAt.Some? && row.expiresAt.Some?
    requires row.expiresAt.value <= row.originalExpiresAt.value + EXTENSION_CAP
    ensures var after := AfterFills(row, times);
      && after.originalExpiresAt == row.originalExpiresAt && after.expiresAt.Some?
      && after.expiresAt.value <= row.originalExpiresAt.value + EXTENSION_CAP
  {
    if |times| > 0 {
      AfterFillsCapped(row, times[..|times| - 1]);
    }
  }

  /** n fills, each at the moment the payment would expire. */
  function JustInTime(expiry: int, n: nat): seq<int> {
    if n == 0 then [] else JustInTime(expiry, n - 1) + [expiry + (n - 1) * PARTIAL_EXTENSION_PER_FILL]
  }

  lemma {:induction false} AfterFillsUncapped(row: Payment, n: nat)
    requires row.originalExpiresAt.None? && row.expiresAt.Some?
    ensures var after := AfterFills(row, JustInTime(row.expiresAt.value, n));
      after.originalExpiresAt.None? && after.expiresAt == Some(row.expiresAt.value + n * PARTIAL_EXTENSION_PER_FILL)
  {
    if n > 0 {
      AfterFillsUncapped(row, n - 1);
      var times := JustInTime(row.expiresAt.value, n);
      assert times[..|times| - 1] == JustInTime(row.expiresAt.value, n - 1);
    }
  }

  /** No sequence of fills takes the expiry of this row past the bound. */
  ghost predicate BoundedBy(row: Payment, bound: int) {
    forall times: seq<int> ::
      AfterFills(row, times).expiresAt.Some? ==> AfterFills(row, times).expiresAt.value <= bound
  }

  /** The extensions are bounded at all exactly when the row records its original expiry,
      and then by a day after it. The services never record it: only rows that existed when
      the column was added have the cap. */
  lemma ExtensionCapExact(row: Payment)
    requires row.expiresAt.Some?
    requires row.originalExpiresAt.Some? ==> row.expiresAt.value <= row.originalExpiresAt.value + EXTENSION_CAP
    ensures (exists bound: int :: BoundedBy(row, bound)) <==> row.originalExpiresAt.Some?
    ensures row.originalExpiresAt.Some? ==> BoundedBy(row, row.originalExpiresAt.value + EXTENSION_CAP)
  {
    if row.originalExpiresAt.Some? {
      var bound := row.originalExpiresAt.value + EXTENSION_CAP;
      forall times: seq<int>
        ensures AfterFills(row, times).expiresAt.Some? ==> AfterFills(row, times).expiresAt.value <= bound
      {
        AfterFillsCapped(row, times);
      }
      assert BoundedBy(row, bound);
    } else {
      forall bound: int ensures !BoundedBy(row, bound) {
        var n := if bound > row.expiresAt.value then bound - row.expiresAt.value + 1 else 1;
        AfterFillsUncapped(row, n);
        var times := JustInTime(row.expiresAt.value, n);
        assert AfterFills(row, times).expiresAt.value > bound;
      }
    }
  }

  // ---------------------------------------------------------------- an invoice that never expires

  function AllHashes(fills: seq<Fill>): string {
    if |fills| == 0 then "" else AllHashes(fills[..|fills| - 1]) + fills[|fills| - 1].hash
  }

  /** A hash that no fill has: it is longer than all of them together. */
  function FreshHash(fills: seq<Fill>): string {
    AllHashes(fills) + "x"
  }

  lemma {:induction false} HashesFit(fills: seq<Fill>, f: nat)
    requires f < |fills|
    ensures |fills[f].hash| <= |AllHashes(fills)|
  {
    if f < |fills| - 1 {
      HashesFit(fills[..|fills| - 1], f);
    }
  }

  function DustTransfer(db: Database, t: nat): Event
    requires t < |db.transactions|
  {
    var input := Input(db.transactions[t].currency, 1, "payer", FreshHash(db.fills), "network");
    Receives(t, input, Tolerance(Some(0), Some(0)))
  }

  /** A live invoice without a recorded original expiry, not yet expired, and more than
      `room` units short of its amount. */
  predicate AwaitsTopUp(db: Database, p: nat, t: nat, room: nat) {
    && p < |db.payments| && Latest(db.transactions, p) == Some(t)
    && db.payments[p].originalExpiresAt.None? && db.payments[p].expiresAt.Some?
    && db.now <= db.payments[p].expiresAt.value
    && db.transactions[t].status == Pending && db.transactions[t].currency.ticker != ""
    && SumConfirmed(db.fills, t) + room < db.transactions[t].amount
  }

  lemma DustIsNew(db: Database, t: nat)
    requires Inv(db) && t < |db.transactions|
    requires db.transactions[t].status == Pending && db.transactions[t].currency.ticker != ""
    ensures Guard(db, DustTransfer(db, t)) && DustTransfer(db, t).input.Valid()
    ensures SumConfirmed(RecordFill(db, t, DustTransfer(db, t).input).fills, t) == SumConfirmed(db.fills, t) + 1
  {
    var row := FillRow(db, t, DustTransfer(db, t).input);
    if FindFill(db.fills, row).Some? {
      HashesFit(db.fills, FindFill(db.fills, row).value);
    }
    UpsertSum(db.fills, row, t);
  }

  /** Waiting until an invoice expires and then sending it dust buys half an hour more. */
  function Dusted(db: Database, p: nat, t: nat): Database
    requires db.WellFormed() && AwaitsTopUp(db, p, t, 0)
  {
    var waited := db.(now := db.payments[p].expiresAt.value);
    MarkPartial(RecordFill(waited, t, DustTransfer(waited, t).input), p)
  }

  function WaitOut(db: Database, p: nat): Event
    requires p < |db.payments| && db.payments[p].expiresAt.Some? && db.now <= db.payments[p].expiresAt.value
  {
    Waits(db.payments[p].expiresAt.value - db.now)
  }

  /** What the two events of a round do. */
  lemma DustRound(db: Database, p: nat, t: nat)
    requires Inv(db) && AwaitsTopUp(db, p, t, 1)
    ensures var waited := Step(db, WaitOut(db, p));
      && waited == db.(now := db.payments[p].expiresAt.value)
      && Inv(waited) && Guard(waited, DustTransfer(waited, t))
      && Step(waited, DustTransfer(waited, t)) == Dusted(db, p, t)
  {
    var waited := Step(db, WaitOut(db, p));
    StepKeepsInv(db, WaitOut(db, p));
    DustIsNew(waited, t);
  }

  lemma DustExtends(db: Database, p: nat, t: nat, room: nat)
    requires Inv(db) && AwaitsTopUp(db, p, t, room) && room > 0
    ensures var x, after := db.payments[p].expiresAt.value, Dusted(db, p, t);
      && Inv(after) && AwaitsTopUp(after, p, t, room - 1)
      && after.payments[p].status == PaymentPartial
      && after.payments[p].expiresAt == Some(x + PARTIAL_EXTENSION_PER_FILL)
  {
    var waited := db.(now := db.payments[p].expiresAt.value);
    DustRound(db, p, t);
    DustIsNew(waited, t);
    StepKeepsInv(waited, DustTransfer(waited, t));
  }

  /** Payment p, alive as `before`, is still alive n half hours past the expiry it had. */
  predicate KeptAlive(before: Payment, later: Database, p: nat, t: nat, n: nat) {
    && AwaitsTopUp(later, p, t, 0)
    && (n > 0 || before.status == PaymentPartial ==> later.payments[p].status == PaymentPartial)
    && before.expiresAt.Some?
    && later.payments[p].expiresAt == Some(before.expiresAt.value + n * PARTIAL_EXTENSION_PER_FILL)
  }

  /** A guarded run from one database to another. */
  ghost predicate Leads(db: Database, events: seq<Event>, later: Database) {
    db.WellFormed() && Guarded(db, events) && Run(db, events) == later
  }

  lemma LeadsOn(db: Database, first: seq<Event>, next: Database, second: seq<Event>, later: Database)
    requires Leads(db, first, next) && Leads(next, second, later)
    ensures Leads(db, first + second, later)
  {
    RunAppend(db, first, second);
  }

  lemma KeptAliveLonger(before: Payment, next: Payment, later: Database, p: nat, t: nat, n: nat)
    requires before.expiresAt.Some? && next.status == PaymentPartial
    requires next.expiresAt == Some(before.expiresAt.value + PARTIAL_EXTENSION_PER_FILL)
    requires KeptAlive(next, later, p, t, n)
    ensures KeptAlive(before, later, p, t, n + 1)
  {
  }

  /** One round: a guarded pair of events that buys half an hour for one unit of room. */
  lemma DustBuysTime(db: Database, p: nat, t: nat, room: nat) returns (events: seq<Event>, next: Database)
    requires Inv(db) && AwaitsTopUp(db, p, t, room) && room > 0
    ensures |events| == 2 && Leads(db, events, next)
    ensures Inv(next) && AwaitsTopUp(next, p, t, room - 1)
    ensures next.payments[p].status == PaymentPartial
    ensures next.payments[p].expiresAt == Some(db.payments[p].expiresAt.value + PARTIAL_EXTENSION_PER_FILL)
  {
    var wait := WaitOut(db, p);
    var dust := DustTransfer(Step(db, wait), t);
    DustRound(db, p, t);
    DustExtends(db, p, t, room);
    events, next := [wait, dust], Dusted(db, p, t);
    RunTwo(db, wait, dust);
  }

  /** An invoice created by the services outlives every deadline: a guarded run of dust
      transfers, each before the payment expires, keeps it partial for n half hours more. */
  lemma {:induction false} DustOutlivesAnyDeadline(db: Database, p: nat, t: nat, n: nat)
    returns (events: seq<Event>, later: Database)
    requires Inv(db) && AwaitsTopUp(db, p, t, n)
    ensures Leads(db, events, later) && |events| == 2 * n
    ensures KeptAlive(db.payments[p], later, p, t, n)
    decreases n
  {
    if n == 0 {
      events, later := [], db;
    } else {
      var round, next := DustBuysTime(db, p, t, n);
      var rest;
      rest, later := DustOutlivesAnyDeadline(next, p, t, n - 1);
      events := round + rest;
      LeadsOn(db, round, next, rest, later);
      KeptAliveLonger(db.payments[p], next.payments[p], later, p, t, n - 1);
    }
  }

  const COIN := Currency("COIN", "network", 8)

  function NewPayment(): Database {
    EMPTY.(payments := [Payment(TypePayment, PaymentPending, 1, 0, None, None, Some(1), 10.0)])
  }

  /** What a customer's first visit leaves: a locked payment and its invoice. */
  function NewInvoice(amount: nat): Database {
    var row := Payment(TypePayment, PaymentLocked, 1, 0, Some(EXPIRATION_PERIOD_FOR_LOCKED), None, Some(1), 10.0);
    EMPTY.(payments := [row],
           transactions := [Transaction(1, 0, Pending, COIN, "address", amount, 0, None, None, None, 0)])
  }

  lemma NewPaymentIsReached()
    ensures Leads(EMPTY, [CreatesPayment(TypePayment, 1, 10.0), AssignsCustomer(0, 1)], NewPayment())
  {
    var create, assign := CreatesPayment(TypePayment, 1, 10.0), AssignsCustomer(0, 1);
    RunTwo(EMPTY, create, assign);
    assert Step(Step(EMPTY, create), assign).payments == NewPayment().payments;
  }

  lemma NewInvoiceIsReached(amount: nat) returns (events: seq<Event>)
    requires amount > 0
    ensures Leads(EMPTY, events, NewInvoice(amount))
  {
    var first := [CreatesPayment(TypePayment, 1, 10.0), AssignsCustomer(0, 1)];
    var choose := SetsMethod(0, COIN, Some(Quote(amount, 0, "address")));
    NewPaymentIsReached();
    var chosen := NewPayment().(transactions := NewInvoice(amount).transactions);
    assert Latest(NewPayment().transactions, 0).None?;
    assert Step(NewPayment(), choose) == chosen;
    assert Latest(chosen.transactions, 0) == Some(0);
    assert Step(chosen, Locks(0)) == NewInvoice(amount);
    RunTwo(NewPayment(), choose, Locks(0));
    LeadsOn(EMPTY, first, NewPayment(), [choose, Locks(0)], NewInvoice(amount));
    events := first + [choose, Locks(0)];
  }

  /** So there is no deadline: for every n, a guarded run from the empty database ends with a
      partial payment that expires n half hours after its lock would have, and has not yet. */
  lemma NoDeadlineHolds(n: nat) returns (events: seq<Event>, later: Database)
    requires n > 0
    ensures Leads(EMPTY, events, later)
    ensures |later.payments| >= 1 && later.payments[0].status == PaymentPartial
    ensures later.payments[0].expiresAt == Some(EXPIRATION_PERIOD_FOR_LOCKED + n * PARTIAL_EXTENSION_PER_FILL)
    ensures later.now <= EXPIRATION_PERIOD_FOR_LOCKED + n * PARTIAL_EXTENSION_PER_FILL
  {
    var db := NewInvoice(n + 1);
    var first := NewInvoiceIsReached(n + 1);
    EmptyIsOk();
    RunKeepsInv(EMPTY, first);
    assert Latest(db.transactions, 0) == Some(0);
    var rest;
    rest, later := DustOutlivesAnyDeadline(db, 0, 0, n);
    events := first + rest;
    LeadsOn(EMPTY, first, db, rest, later);
  }

  // ---------------------------------------------------------------- a stale lock that stays

  /** Without the cancel the new lock promotes all the same, next to the stale one. */
  lemma UncanceledEffect(db: Database, inv: nat, u: Unmatched)
    requires Inv(db) && inv < |db.transactions| && IsOpenInvoice(db.transactions[inv], u.collector)
    requires u.currency.Some? && u.amount.Some? && u.amount.value > 0
    requires Guard(db, Attributes(u, true))
    ensures AutoAccept(db, inv, u, false).db
         == Accepted(db, inv, u).(transactions := Accepted(db, inv, u).transactions[inv := db.transactions[inv]])
  {
    PendingIsLatest(db, inv);
    var created := db.(transactions := db.transactions + [Relock(db, inv, u)]);
    RelockedPromotes(db, created, inv, u);
    PromotedIsAccepted(db, created, inv, u);
  }

  predicate OneLive(txs: seq<Transaction>, p: nat, live: nat) {
    forall t :: 0 <= t < |txs| && txs[t].entityID == p && t != live ==> txs[t].status == Cancelled
  }

  /** An automatic re-lock promotes at once, and leaves one live transaction exactly when
      the cancel of the stale lock succeeds. */
  lemma RelockExact(db: Database, inv: nat, u: Unmatched, cancelSucceeds: bool)
    requires Reachable(db) && inv < |db.transactions| && IsOpenInvoice(db.transactions[inv], u.collector)
    requires u.currency.Some? && u.amount.Some? && u.amount.value > 0
    requires Guard(db, Attributes(u, true))
    ensures var p, relocked := db.transactions[inv].entityID, |db.transactions|;
            var after := AutoAccept(db, inv, u, cancelSucceeds).db;
      && |after.transactions| == relocked + 1 && after.transactions[relocked].entityID == p
      && after.transactions[relocked].status == InProgress && after.transactions[relocked].factAmount == u.amount
      && after.payments[p].status == PaymentInProgress
      && (OneLive(after.transactions, p, relocked) <==> cancelSucceeds)
  {
    ReachableIsOk(db);
    PendingIsLatest(db, inv);
    AutoAcceptEffect(db, inv, u);
    UncanceledEffect(db, inv, u);
    var uncanceled := AutoAccept(db, inv, u, false).db.transactions;
    assert uncanceled[inv].status == Pending;
  }

  /** A canceled transaction stays canceled and is never credited. */
  lemma CanceledIsNeverCredited(db: Database, events: seq<Event>, t: nat)
    requires Inv(db) && Guarded(db, events)
    requires t < |db.transactions| && db.transactions[t].status == Cancelled
    ensures var later := Run(db, events);
      && t < |later.transactions| && later.transactions[t] == db.transactions[t]
      && forall i :: 0 <= i < |later.credits| ==> later.credits[i].transactionID != t
  {
    RunKeepsInv(db, events);
    RunEvolves(db, events);
    var later := Run(db, events);
    assert TransactionEvolves(db.transactions[t], later.transactions[t]);
    forall i | 0 <= i < |later.credits| ensures later.credits[i].transactionID != t {
      assert CreditOk(later, later.credits[i]);
    }
  }

  // ---------------------------------------------------------------- no invoice after a promotion

  /** An inbound step touches its own transaction, and the payment of that. */
  lemma InboundFrame(db: Database, t: nat, input: Input, tolerance: Tolerance)
    requires db.WellFormed()
    ensures var after := ProcessInbound(db, t, input, tolerance).db;
      && |after.transactions| == |db.transactions| && |after.payments| == |db.payments|
      && (forall u :: 0 <= u < |db.transactions| ==> after.transactions[u].entityID == db.transactions[u].entityID)
      && (forall u :: 0 <= u < |db.transactions| && u != t ==> after.transactions[u] == db.transactions[u])
      && (forall p :: 0 <= p < |db.payments| && (t < |db.transactions| ==> db.transactions[t].entityID != p) ==>
            after.payments[p] == db.payments[p])
  {
  }

  /** A receipt check touches its own transaction, and the payment of that; it changes nothing
      but what is in progress. */
  lemma CheckFrame(db: Database, t: nat, receipt: Receipt)
    requires db.WellFormed()
    ensures var after := CheckIncoming(db, t, receipt).db;
      && (after == db || (t < |db.transactions| && db.transactions[t].status.IsInProgress()))
      && |after.transactions| == |db.transactions| && |after.payments| == |db.payments|
      && (forall u :: 0 <= u < |db.transactions| ==> after.transactions[u].entityID == db.transactions[u].entityID)
      && (forall u :: 0 <= u < |db.transactions| && u != t ==> after.transactions[u] == db.transactions[u])
      && (forall p :: 0 <= p < |db.payments| && (t < |db.transactions| ==> db.transactions[t].entityID != p) ==>
            after.payments[p] == db.payments[p])
  {
  }

  lemma ExpiryKeepsCount(db: Database, p: nat)
    requires db.WellFormed()
    ensures |Expire(db, p).db.transactions| == |db.transactions|
  {
  }

  lemma DecisionKeepsTransactions(db: Database, merchantID: int, p: nat)
    ensures Resolve(db, merchantID, p).db.transactions == db.transactions
    ensures Decline(db, merchantID, p).db.transactions == db.transactions
    ensures LockPaymentOptions(db, p).db.transactions == db.transactions
  {
  }

  lemma MethodOfEditable(db: Database, q: nat, currency: Currency, quote: Option<Quote>, p: nat)
    requires p < |db.payments| && db.payments[p].status != PaymentPending
    ensures var after := SetPaymentMethod(db, q, currency, quote).db.transactions;
      |db.transactions| <= |after| && forall t :: |db.transactions| <= t < |after| ==> after[t].entityID != p
  {
  }

  lemma RelockOfOpen(db: Database, u: Unmatched, p: nat)
    requires Inv(db) && Guard(db, Attributes(u, true)) && p < |db.payments| && Rank(db.payments[p].status) <= 2
    ensures var after := ResolveUnmatched(db, u, true).db.transactions;
      |db.transactions| <= |after| && forall t :: |db.transactions| <= t < |after| ==> after[t].entityID != p
  {
    match Attributed(db, u)
    case None =>
    case Some(inv) =>
      PendingIsLatest(db, inv);
      AutoAcceptEffect(db, inv, u);
  }

  /** Neither a change of method nor a re-lock appends an invoice to a promoted payment. */
  lemma StepAppendsNone(db: Database, e: Event, p: nat)
    requires Inv(db) && Guard(db, e) && p < |db.payments| && Rank(db.payments[p].status) <= 2
    ensures var after := Step(db, e).transactions;
      |db.transactions| <= |after| && forall t :: |db.transactions| <= t < |after| ==> after[t].entityID != p
  {
    match e
    case SetsMethod(q, currency, quote) => MethodOfEditable(db, q, currency, quote, p);
    case Receives(t, input, tolerance) => InboundFrame(db, t, input, tolerance);
    case Checks(t, receipt) => CheckFrame(db, t, receipt);
    case Expires(q) => ExpiryKeepsCount(db, q);
    case Resolves(merchantID, q) => DecisionKeepsTransactions(db, merchantID, q);
    case Declines(merchantID, q) => DecisionKeepsTransactions(db, merchantID, q);
    case Locks(q) => DecisionKeepsTransactions(db, 0, q);
    case Attributes(u, _) => RelockOfOpen(db, u, p);
    case _ =>
  }

  /** A step after which the transactions of payment p are the same, in the same order. */
  ghost predicate SameTransactions(db: Database, after: Database, p: nat) {
    && |db.transactions| <= |after.transactions|
    && (forall t :: 0 <= t < |db.transactions| ==> after.transactions[t].entityID == db.transactions[t].entityID)
    && (forall t :: |db.transactions| <= t < |after.transactions| ==> after.transactions[t].entityID != p)
  }

  lemma SameLatest(db: Database, after: Database, p: nat)
    requires SameTransactions(db, after, p)
    ensures Latest(after.transactions, p) == Latest(db.transactions, p)
  {
    var a, b := Latest(db.transactions, p), Latest(after.transactions, p);
    if a.Some? {
      assert after.transactions[a.value].entityID == p;
    }
    if b.Some? {
      assert b.value < |db.transactions|;
    }
  }

  /** Once promoted, underpaid or closed, a payment has the latest transaction it will ever have. */
  lemma {:induction false} PromotedLatestIsFinal(db: Database, events: seq<Event>, p: nat)
    requires Inv(db) && Guarded(db, events) && p < |db.payments| && Rank(db.payments[p].status) <= 2
    ensures Latest(Run(db, events).transactions, p) == Latest(db.transactions, p)
    decreases |events|
  {
    if |events| > 0 {
      var next := Step(db, events[0]);
      StepKeepsInv(db, events[0]);
      StepEvolves(db, events[0]);
      assert PaymentEvolves(db.payments[p], next.payments[p]);
      forall t | 0 <= t < |db.transactions| ensures next.transactions[t].entityID == db.transactions[t].entityID {
        assert TransactionEvolves(db.transactions[t], next.transactions[t]);
      }
      StepAppendsNone(db, events[0], p);
      SameLatest(db, next, p);
      PromotedLatestIsFinal(next, events[1..], p);
    }
  }

  /** Every credit of a payment names its latest transaction. */
  lemma CreditsNameLatest(db: Database, p: nat)
    requires Inv(db)
    ensures forall i :: 0 <= i < |db.credits| && db.credits[i].paymentID == p ==>
              Latest(db.transactions, p) == Some(db.credits[i].transactionID)
  {
    forall i | 0 <= i < |db.credits| && db.credits[i].paymentID == p
      ensures Latest(db.transactions, p) == Some(db.credits[i].transactionID)
    {
      assert CreditOk(db, db.credits[i]);
      assert PaymentOk(db, p);
    }
  }

  /** A re-lock strands what had been paid before: the fills of the superseded invoice keep
      their sum, no credit ever names it, and whatever comes later, what is credited for the
      payment is at most the amount of the last transfer. */
  lemma RelockStrandsEarlierFills(db: Database, inv: nat, u: Unmatched, events: seq<Event>)
    requires Reachable(db) && inv < |db.transactions| && IsOpenInvoice(db.transactions[inv], u.collector)
    requires u.currency.Some? && u.amount.Some? && u.amount.value > 0
    requires Guard(db, Attributes(u, true))
    ensures var after, p := AutoAccept(db, inv, u, true).db, db.transactions[inv].entityID;
      && after.WellFormed() && SumConfirmed(after.fills, inv) == SumConfirmed(db.fills, inv)
      && (Guarded(after, events) ==>
            forall i :: 0 <= i < |Run(after, events).credits| ==>
              && Run(after, events).credits[i].transactionID != inv
              && (Run(after, events).credits[i].paymentID == p ==>
                    Run(after, events).credits[i].amount <= u.amount.value))
  {
    ReachableIsOk(db);
    AutoAcceptEffect(db, inv, u);
    AcceptedKeepsInv(db, inv, u);
    RelockedLedger(db, |db.transactions|, CrossCurrencyInput(u));
    var after, t, p := Accepted(db, inv, u), |db.transactions|, db.transactions[inv].entityID;
    if Guarded(after, events) {
      CanceledIsNeverCredited(after, events, inv);
      FactBoundsCredits(after, events, t);
      PromotedLatestIsFinal(after, events, p);
      RunKeepsInv(after, events);
      CreditsNameLatest(Run(after, events), p);
    }
  }

  /** No credit of a transaction is more than the fact amount it has. */
  lemma FactBoundsCredits(db: Database, events: seq<Event>, t: nat)
    requires Inv(db) && Guarded(db, events)
    requires t < |db.transactions| && db.transactions[t].factAmount.Some?
    ensures var later := Run(db, events);
      forall i :: 0 <= i < |later.credits| && later.credits[i].transactionID == t ==>
        later.credits[i].amount <= db.transactions[t].factAmount.value
  {
    RunKeepsInv(db, events);
    RunEvolves(db, events);
    var later := Run(db, events);
    assert TransactionEvolves(db.transactions[t], later.transactions[t]);
    forall i | 0 <= i < |later.credits| && later.credits[i].transactionID == t
      ensures later.credits[i].amount <= db.transactions[t].factAmount.value
    {
      assert CreditOk(later, later.credits[i]);
      assert PaymentOk(later, later.transactions[t].entityID);
      assert TransactionOk(later.transactions[t], SumConfirmed(later.fills, t));
    }
  }
}
