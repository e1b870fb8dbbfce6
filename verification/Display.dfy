/** What the customer of a partial payment is shown, and what happens when it is paid. */
module Display {
  import opened Domain
  import opened Ledger
  import opened Steps
  import opened Invariant
  import opened Promises
  import opened Money
  import Decimal

  function UnitOf(tx: Transaction): (r: int)
    ensures r > 0
  {
    DisplayUnit(tx.currency.decimals, MaxDisplayDecimals(tx.currency.decimals))
  }

  /** The remaining amount of an invoice, as GetDetailedPayment computes it. */
  function Remaining(db: Database, t: nat): int
    requires t < |db.transactions|
  {
    db.transactions[t].amount - SumAll(db.fills, t)
  }

  /** The remaining amount that is shown: cut to display precision. */
  function ShownRemaining(db: Database, t: nat): int
    requires t < |db.transactions|
  {
    FloorTo(Remaining(db, t), UnitOf(db.transactions[t]))
  }

  /** Paying exactly the shown remainder promotes the payment if and only if the tolerance
      is at least the part that was cut off; otherwise it stays partial, short by that part. */
  lemma PayingShownRemainder(db: Database, t: nat, sender: string, hash: string, networkID: string, tenCents: nat)
    requires Reachable(db) && t < |db.transactions| && db.transactions[t].status == Pending
    requires Input(db.transactions[t].currency, ShownRemaining(db, t), sender, hash, networkID).Valid()
    requires ShownRemaining(db, t) > 0
    ensures Remaining(db, t) > 0
    ensures var tx, cutOff := db.transactions[t], Remaining(db, t) % UnitOf(db.transactions[t]);
            var input := Input(tx.currency, ShownRemaining(db, t), sender, hash, networkID);
            var after := ProcessInbound(db, t, input, Tolerance(Some(tenCents), Some(tenCents))).db;
      && (after.payments[tx.entityID].status == PaymentInProgress <==> cutOff <= tenCents)
      && (cutOff > tenCents ==> after.payments[tx.entityID].status == PaymentPartial)
  {
    PendingIsShort(db, t);
    var tx := db.transactions[t];
    var input := Input(tx.currency, ShownRemaining(db, t), sender, hash, networkID);
    FloorIsMultiple(Remaining(db, t), UnitOf(tx));
    assert SumConfirmed(db.fills, t) + input.amount == tx.amount - Remaining(db, t) % UnitOf(tx);
  }

  lemma {:induction false} SumOfMultiples(fills: seq<Fill>, t: nat, view: FillView, unit: int)
    requires unit > 0
    requires forall f :: 0 <= f < |fills| && fills[f].transactionID == t ==> Multiple(fills[f].amount, unit)
    ensures Multiple(SumFills(fills, t, view), unit)
  {
    if |fills| > 0 {
      var last := |fills| - 1;
      SumOfMultiples(fills[..last], t, view, unit);
      MultiplesAdd(SumFills(fills[..last], t, view), Contribution(fills[last], t, view), unit);
    } else {
      MultiplesAdd(0, 0, unit);
    }
  }

  lemma MultiplesAdd(a: int, b: int, unit: int)
    requires unit > 0
    ensures Multiple(0, unit)
    ensures Multiple(a, unit) && Multiple(b, unit) ==> Multiple(a + b, unit) && Multiple(a - b, unit)
  {
    if Multiple(a, unit) && Multiple(b, unit) {
      assert a == (a / unit) * unit && b == (b / unit) * unit;
      assert (a / unit + b / unit) * unit == a + b && (a / unit - b / unit) * unit == a - b;
      Decimal.DivModUnique(a + b, unit, a / unit + b / unit, 0);
      Decimal.DivModUnique(a - b, unit, a / unit - b / unit, 0);
    }
    assert 0 == 0 * unit + 0;
    Decimal.DivModUnique(0, unit, 0, 0);
  }

  /** A customer who has only ever paid displayable amounts of an invoice locked at a
      displayable amount loses nothing to the cut: what is shown completes the payment
      without any tolerance. */
  lemma ExactPayersNeedNoTolerance(db: Database, t: nat, sender: string, hash: string, networkID: string)
    requires Reachable(db) && t < |db.transactions| && db.transactions[t].status == Pending
    requires Multiple(db.transactions[t].amount, UnitOf(db.transactions[t]))
    requires forall f :: 0 <= f < |db.fills| && db.fills[f].transactionID == t ==>
               Multiple(db.fills[f].amount, UnitOf(db.transactions[t]))
    requires Input(db.transactions[t].currency, ShownRemaining(db, t), sender, hash, networkID).Valid()
    ensures ShownRemaining(db, t) == Remaining(db, t) > 0
    ensures var tx := db.transactions[t];
            var input := Input(tx.currency, ShownRemaining(db, t), sender, hash, networkID);
      ProcessInbound(db, t, input, Tolerance(None, None)).db.payments[tx.entityID].status == PaymentInProgress
  {
    PendingIsShort(db, t);
    SumOfMultiples(db.fills, t, NotReorged, UnitOf(db.transactions[t]));
    MultiplesAdd(db.transactions[t].amount, SumAll(db.fills, t), UnitOf(db.transactions[t]));
    FloorIsMultiple(Remaining(db, t), UnitOf(db.transactions[t]));
  }
}
