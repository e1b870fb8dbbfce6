/** Attribution of a cross-currency payment to one open invoice by fiat value.
    Values are exact reals; the rounding of float64 is not modelled. */
module Attribution {
  import opened Domain

  function Distance(value: real, price: real): (r: real) {
    if value >= price then value - price else price - value
  }

  /** The least gap by which the best match must beat the runner-up. */
  function Margin(value: real): (r: real)
    ensures r >= 1.0
  {
    if 0.02 * value > 1.0 then 0.02 * value else 1.0
  }

  /** Invoice i beats every other invoice by at least the margin. */
  predicate BeatsAll(value: real, prices: seq<real>, i: nat)
    requires i < |prices|
  {
    forall j :: 0 <= j < |prices| && j != i ==>
      Distance(value, prices[j]) - Distance(value, prices[i]) >= Margin(value)
  }

  /** The one invoice that beats all the others, by search. A single invoice always does. */
  function Winner(value: real, prices: seq<real>): (r: Option<nat>)
    ensures r.Some? ==> r.value < |prices| && BeatsAll(value, prices, r.value)
    ensures r.None? ==> forall i :: 0 <= i < |prices| ==> !BeatsAll(value, prices, i)
  {
    WinnerFrom(value, prices, 0)
  }

  function WinnerFrom(value: real, prices: seq<real>, i: nat): (r: Option<nat>)
    requires i <= |prices|
    requires forall j :: 0 <= j < i ==> !BeatsAll(value, prices, j)
    ensures r.Some? ==> r.value < |prices| && BeatsAll(value, prices, r.value)
    ensures r.None? ==> forall j :: 0 <= j < |prices| ==> !BeatsAll(value, prices, j)
    decreases |prices| - i
  {
    if i == |prices| then None
    else if BeatsAll(value, prices, i) then Some(i)
    else WinnerFrom(value, prices, i + 1)
  }

  /** At most one invoice beats all the others. */
  lemma WinnerIsUnique(value: real, prices: seq<real>, i: nat)
    requires i < |prices| && BeatsAll(value, prices, i)
    ensures Winner(value, prices) == Some(i)
  {
    var w := Winner(value, prices).value;
    if w != i {
      assert false;
    }
  }

  /** chooseCrossCurrencyInvoice: the closest price, the closest of the others, and the gap
      between the two against the margin. */
  method ChooseCrossCurrencyInvoice(value: real, expected: seq<real>) returns (chosen: Option<nat>)
    ensures chosen == Winner(value, expected)
  {
    if |expected| == 0 {
      return None;
    }
    var best := 0;
    for i := 1 to |expected|
      invariant best < i
      invariant forall j :: 0 <= j < i ==> Distance(value, expected[best]) <= Distance(value, expected[j])
    {
      if Distance(value, expected[i]) < Distance(value, expected[best]) {
        best := i;
      }
    }
    if |expected| == 1 {
      assert BeatsAll(value, expected, 0);
      return Some(best);
    }
    var second: Option<nat> := None;
    for i := 0 to |expected|
      invariant second.None? ==> i == 0 || (i == 1 && best == 0)
      invariant second.Some? ==>
        && second.value < i && second.value != best
        && forall j :: 0 <= j < i && j != best ==>
             Distance(value, expected[second.value]) <= Distance(value, expected[j])
    {
      if i != best && (second.None? || Distance(value, expected[i]) < Distance(value, expected[second.value])) {
        second := Some(i);
      }
    }
    var gap := Distance(value, expected[second.value]) - Distance(value, expected[best]);
    if gap >= Margin(value) {
      WinnerIsUnique(value, expected, best);
      return Some(best);
    }
    return None;
  }

  /** Sound and complete: an invoice is chosen exactly when it beats all the others. */
  lemma WinnerExact(value: real, prices: seq<real>, i: nat)
    requires i < |prices|
    ensures Winner(value, prices) == Some(i) <==> BeatsAll(value, prices, i)
    ensures |prices| == 1 ==> Winner(value, prices) == Some(0)
  {
    if BeatsAll(value, prices, i) {
      WinnerIsUnique(value, prices, i);
    }
    if |prices| == 1 {
      assert BeatsAll(value, prices, 0);
      WinnerIsUnique(value, prices, 0);
    }
  }

  /** An invoice closer to the received value than the margin is never passed over for a
      different one, and equal prices are never told apart. */
  lemma CloseIsNotPassedOver(value: real, prices: seq<real>, i: nat)
    requires i < |prices| && Winner(value, prices).Some?
    ensures Distance(value, prices[i]) < Margin(value) ==> Winner(value, prices) == Some(i)
    ensures (exists j :: 0 <= j < |prices| && j != i && Distance(value, prices[j]) <= Distance(value, prices[i])) ==>
              Winner(value, prices) != Some(i)
  {
    var w := Winner(value, prices).value;
    if w != i {
      assert Distance(value, prices[i]) - Distance(value, prices[w]) >= Margin(value);
    }
  }

  function Others(prices: seq<real>, i: nat): seq<real>
    requires i < |prices|
  {
    prices[..i] + prices[i + 1..]
  }

  /** Which invoice it is does not matter: only the other prices, as a collection, do. */
  lemma BeatsTheOthers(value: real, prices: seq<real>, i: nat)
    requires i < |prices|
    ensures multiset(prices) == multiset(Others(prices, i)) + multiset{prices[i]}
    ensures BeatsAll(value, prices, i) <==>
            forall q :: q in multiset(Others(prices, i)) ==>
              Distance(value, q) - Distance(value, prices[i]) >= Margin(value)
  {
    var rest := Others(prices, i);
    assert prices == prices[..i] + [prices[i]] + prices[i + 1..];
    if BeatsAll(value, prices, i) {
      forall q | q in multiset(rest) ensures Distance(value, q) - Distance(value, prices[i]) >= Margin(value) {
        var k :| 0 <= k < |rest| && rest[k] == q;
        assert q == prices[if k < i then k else k + 1];
      }
    } else {
      var j :| 0 <= j < |prices| && j != i && Distance(value, prices[j]) - Distance(value, prices[i]) < Margin(value);
      assert rest[if j < i then j else j - 1] == prices[j];
      assert prices[j] in multiset(rest);
    }
  }

  /** Order-free: permuting the invoices permutes the answer. */
  lemma OrderFree(value: real, a: seq<real>, b: seq<real>)
    requires multiset(a) == multiset(b)
    ensures Winner(value, a).None? <==> Winner(value, b).None?
    ensures Winner(value, a).Some? ==> a[Winner(value, a).value] == b[Winner(value, b).value]
  {
    if Winner(value, a).Some? {
      WinnerMoves(value, a, b);
    }
    if Winner(value, b).Some? {
      WinnerMoves(value, b, a);
    }
  }

  lemma WinnerMoves(value: real, a: seq<real>, b: seq<real>)
    requires multiset(a) == multiset(b) && Winner(value, a).Some?
    ensures Winner(value, b).Some? && b[Winner(value, b).value] == a[Winner(value, a).value]
  {
    var w := Winner(value, a).value;
    assert a[w] in multiset(b);
    var i :| 0 <= i < |b| && b[i] == a[w];
    BeatsTheOthers(value, a, w);
    BeatsTheOthers(value, b, i);
    assert multiset(Others(a, w)) == multiset(a) - multiset{a[w]} == multiset(Others(b, i));
    WinnerIsUnique(value, b, i);
  }
}
