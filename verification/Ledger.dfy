/** The transaction_fills table: the upsert, the two sums and the reorg mark. */
module Ledger {
  import opened Domain

  /** Which fills a sum counts: the confirmed ones, or all but the reorged ones. */
  datatype FillView = ConfirmedOnly | NotReorged

  predicate Counts(f: Fill, t: nat, view: FillView) {
    && f.transactionID == t
    && (if view == ConfirmedOnly then f.status == Confirmed else f.status != Reorged)
  }

  function Contribution(f: Fill, t: nat, view: FillView): int {
    if Counts(f, t, view) then f.amount else 0
  }

  function SumFills(fills: seq<Fill>, t: nat, view: FillView): int {
    if |fills| == 0 then 0
    else SumFills(fills[..|fills| - 1], t, view) + Contribution(fills[|fills| - 1], t, view)
  }

  function SumConfirmed(fills: seq<Fill>, t: nat): int {
    SumFills(fills, t, ConfirmedOnly)
  }

  function SumAll(fills: seq<Fill>, t: nat): int {
    SumFills(fills, t, NotReorged)
  }

  function FindFill(fills: seq<Fill>, key: Fill): (r: Option<nat>)
    ensures r.None? ==> forall f :: 0 <= f < |fills| ==> !SameKey(fills[f], key)
    ensures r.Some? ==> r.value < |fills| && SameKey(fills[r.value], key)
  {
    if |fills| == 0 then None
    else if SameKey(fills[|fills| - 1], key) then Some(|fills| - 1)
    else FindFill(fills[..|fills| - 1], key)
  }

  /** What ON CONFLICT ... DO UPDATE makes of the stored row. Its amount stays. */
  function Merged(stored: Fill, excluded: Fill): Fill {
    stored.(
      confirmations := if excluded.confirmations > stored.confirmations
                       then excluded.confirmations else stored.confirmations,
      status := if excluded.confirmations >= stored.confirmations && excluded.status == Confirmed
                then Confirmed else stored.status
    )
  }

  function Upsert(fills: seq<Fill>, row: Fill): seq<Fill> {
    match FindFill(fills, row)
    case None => fills + [row]
    case Some(f) => fills[f := Merged(fills[f], row)]
  }

  /** The first fill of a transaction in observation order. */
  function FirstFill(fills: seq<Fill>, t: nat): (r: Option<nat>)
    ensures r.None? <==> forall f :: 0 <= f < |fills| ==> fills[f].transactionID != t
    ensures r.Some? ==>
              && r.value < |fills| && fills[r.value].transactionID == t
              && forall f :: 0 <= f < r.value ==> fills[f].transactionID != t
  {
    if |fills| == 0 then None
    else
      var r := FirstFill(fills[..|fills| - 1], t);
      if r.None? && fills[|fills| - 1].transactionID == t then Some(|fills| - 1) else r
  }

  /** What one more row adds to the two sums of its transaction, and to no other: its amount,
      to the one if it is confirmed, to the other unless it is reorged. */
  lemma SumsOfOneMore(fills: seq<Fill>, f: Fill, t: nat)
    ensures SumConfirmed([], t) == 0 && SumAll([], t) == 0
    ensures SumConfirmed(fills + [f], t)
         == SumConfirmed(fills, t) + if f.transactionID == t && f.status == Confirmed then f.amount else 0
    ensures SumAll(fills + [f], t)
         == SumAll(fills, t) + if f.transactionID == t && f.status != Reorged then f.amount else 0
  {
    SumAppend(fills, f, t, ConfirmedOnly);
    SumAppend(fills, f, t, NotReorged);
  }

  /** A repeated delivery raises the confirmations of its row, and confirms it when it has no
      fewer than are stored; it moves nothing else. */
  lemma MergeExact(stored: Fill, excluded: Fill)
    ensures var merged := Merged(stored, excluded);
      && merged.(confirmations := stored.confirmations, status := stored.status) == stored
      && merged.confirmations >= stored.confirmations && merged.confirmations >= excluded.confirmations
      && (merged.confirmations == stored.confirmations || merged.confirmations == excluded.confirmations)
      && (merged.status == Confirmed <==>
            || stored.status == Confirmed
            || (excluded.status == Confirmed && excluded.confirmations >= stored.confirmations))
      && (merged.status != Confirmed ==> merged.status == stored.status)
  {
  }

  lemma SumAppend(fills: seq<Fill>, f: Fill, t: nat, view: FillView)
    ensures SumFills(fills + [f], t, view) == SumFills(fills, t, view) + Contribution(f, t, view)
  {
    assert (fills + [f])[..|fills|] == fills;
  }

  /** Replacing one row changes a sum by the change of that row's contribution. */
  lemma {:induction false} SumUpdate(fills: seq<Fill>, i: nat, f: Fill, t: nat, view: FillView)
    requires i < |fills|
    ensures SumFills(fills[i := f], t, view)
         == SumFills(fills, t, view) - Contribution(fills[i], t, view) + Contribution(f, t, view)
  {
    var n := |fills| - 1;
    if i == n {
      assert fills[i := f][..n] == fills[..n];
    } else {
      assert fills[i := f][..n] == fills[..n][i := f];
      SumUpdate(fills[..n], i, f, t, view);
    }
  }

  /** Rows that contribute the same give the same sum. */
  lemma {:induction false} SumSame(a: seq<Fill>, b: seq<Fill>, t: nat, view: FillView)
    requires |a| == |b|
    requires forall i :: 0 <= i < |a| ==> Contribution(a[i], t, view) == Contribution(b[i], t, view)
    ensures SumFills(a, t, view) == SumFills(b, t, view)
  {
    if |a| > 0 {
      SumSame(a[..|a| - 1], b[..|b| - 1], t, view);
    }
  }

  /** Rows that contribute no more give no greater sum. */
  lemma {:induction false} SumMonotone(a: seq<Fill>, b: seq<Fill>, t: nat, view: FillView)
    requires |a| == |b|
    requires forall i :: 0 <= i < |a| ==> Contribution(a[i], t, view) <= Contribution(b[i], t, view)
    ensures SumFills(a, t, view) <= SumFills(b, t, view)
  {
    if |a| > 0 {
      SumMonotone(a[..|a| - 1], b[..|b| - 1], t, view);
    }
  }

  /** On a ledger without merely observed fills the two sums agree. */
  lemma {:induction false} SumsAgree(fills: seq<Fill>, t: nat)
    requires forall f :: 0 <= f < |fills| ==> fills[f].status != Observed
    ensures SumAll(fills, t) == SumConfirmed(fills, t)
  {
    if |fills| > 0 {
      SumsAgree(fills[..|fills| - 1], t);
    }
  }

  lemma {:induction false} SumNonNegative(fills: seq<Fill>, t: nat, view: FillView)
    requires forall f :: 0 <= f < |fills| ==> fills[f].amount > 0
    ensures SumFills(fills, t, view) >= 0
  {
    if |fills| > 0 {
      SumNonNegative(fills[..|fills| - 1], t, view);
    }
  }

  /** A transaction that no fill points at has received nothing. */
  lemma {:induction false} SumOfNothing(fills: seq<Fill>, t: nat, view: FillView)
    requires forall f :: 0 <= f < |fills| ==> fills[f].transactionID != t
    ensures SumFills(fills, t, view) == 0
  {
    if |fills| > 0 {
      SumOfNothing(fills[..|fills| - 1], t, view);
    }
  }

  /** What an upserted confirmed row adds to the confirmed sum of its transaction. */
  function Gain(fills: seq<Fill>, row: Fill): int
    requires row.status == Confirmed
  {
    match FindFill(fills, row)
    case None => row.amount
    case Some(f) =>
      if fills[f].status != Confirmed && row.confirmations >= fills[f].confirmations
      then fills[f].amount else 0
  }

  /** An upsert moves the confirmed sum of its own transaction by the gain and no other sum. */
  lemma UpsertSum(fills: seq<Fill>, row: Fill, t: nat)
    requires row.status == Confirmed
    ensures SumConfirmed(Upsert(fills, row), t)
         == SumConfirmed(fills, t) + if t == row.transactionID then Gain(fills, row) else 0
  {
    match FindFill(fills, row)
    case None => SumAppend(fills, row, t, ConfirmedOnly);
    case Some(f) => SumUpdate(fills, f, Merged(fills[f], row), t, ConfirmedOnly);
  }
}
