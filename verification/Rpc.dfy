/** RPC failover: the health map of the endpoints, and the receipt lookup that rotates
    through them. What the network answers is an input; time is in seconds. */
module Rpc {
  import opened Domain

  const HEALTH_RECOVERY_INTERVAL := 2 * MINUTE
  const EVM_RECEIPT_ATTEMPTS := 3

  datatype Health = Health(healthy: bool, failedAt: int, failCount: nat)

  /** isHealthy: an unhealthy endpoint may be tried again after the recovery interval. */
  predicate Eligible(health: map<string, Health>, url: string, now: int) {
    url !in health || health[url].healthy || now - health[url].failedAt >= HEALTH_RECOVERY_INTERVAL
  }

  function Promoted(health: map<string, Health>, url: string): map<string, Health> {
    health[url := Health(true, 0, 0)]
  }

  function Demoted(health: map<string, Health>, url: string, now: int): map<string, Health> {
    var count := if url in health then health[url].failCount else 0;
    health[url := Health(false, now, count + 1)]
  }

  predicate SameEntry(a: map<string, Health>, b: map<string, Health>, url: string) {
    (url in a <==> url in b) && (url in a ==> a[url] == b[url])
  }

  // ---------------------------------------------------------------- one dial

  datatype Dialed = Dialed(health: map<string, Health>, url: Option<string>)

  /** dialWithFailover: `working` holds the endpoints that would answer the dial and the
      block number check at this moment. */
  function Dial(health: map<string, Health>, endpoints: seq<string>, working: set<string>, now: int): Dialed
    decreases |endpoints|
  {
    if |endpoints| == 0 then Dialed(health, None)
    else
      var url, rest := endpoints[0], endpoints[1..];
      if url == "" || !Eligible(health, url, now) then Dial(health, rest, working, now)
      else if url in working then Dialed(Promoted(health, url), Some(url))
      else Dial(Demoted(health, url, now), rest, working, now)
  }

  /** The endpoint may be tried and works. */
  predicate Usable(health: map<string, Health>, url: string, working: set<string>, now: int) {
    url != "" && Eligible(health, url, now) && url in working
  }

  /** The endpoint is tried and does not work. */
  predicate Fails(health: map<string, Health>, url: string, working: set<string>, now: int) {
    url != "" && Eligible(health, url, now) && url !in working
  }

  /** The endpoint is listed in front of `stop`, or anywhere when there is no stop. */
  predicate Before(endpoints: seq<string>, url: string, stop: Option<string>)
    decreases |endpoints|
  {
    |endpoints| > 0 && stop != Some(endpoints[0]) && (endpoints[0] == url || Before(endpoints[1..], url, stop))
  }

  /** How often the endpoint has failed since it last worked. */
  function Failures(health: map<string, Health>, url: string): nat {
    if url in health then health[url].failCount else 0
  }

  /** What a dial makes of one entry. */
  predicate EntryAfter(health: map<string, Health>, endpoints: seq<string>, working: set<string>, now: int,
                       d: Dialed, url: string)
  {
    if d.url == Some(url) then SameEntry(Promoted(health, url), d.health, url)
    else if Fails(health, url, working, now) && Before(endpoints, url, d.url)
    then url in d.health && d.health[url] == Health(false, now, Failures(health, url) + 1)
    else SameEntry(health, d.health, url)
  }

  /** The dial picks the first endpoint that may be tried and works, if there is one. It is
      promoted, exactly those tried before it are demoted, and no other entry changes. */
  lemma {:induction false} DialExact(health: map<string, Health>, endpoints: seq<string>, working: set<string>,
                                     now: int)
    ensures var d := Dial(health, endpoints, working, now);
      && (d.url.None? <==> forall url :: url in endpoints ==> !Usable(health, url, working, now))
      && (d.url.Some? ==>
            && d.url.value in endpoints && Usable(health, d.url.value, working, now)
            && d.url.value in d.health && d.health[d.url.value] == Health(true, 0, 0)
            && forall url :: Before(endpoints, url, d.url) ==> !Usable(health, url, working, now))
      && (forall url :: EntryAfter(health, endpoints, working, now, d, url))
    decreases |endpoints|
  {
    if |endpoints| > 0 {
      var url, rest := endpoints[0], endpoints[1..];
      assert endpoints == [url] + rest;
      if !Usable(health, url, working, now) {
        var next := if Fails(health, url, working, now) then Demoted(health, url, now) else health;
        DialExact(next, rest, working, now);
        forall u ensures Usable(next, u, working, now) <==> Usable(health, u, working, now) {
        }
        forall u ensures EntryAfter(health, endpoints, working, now, Dial(next, rest, working, now), u) {
          assert EntryAfter(next, rest, working, now, Dial(next, rest, working, now), u);
        }
      }
    }
  }

  /** A listed endpoint that works is picked, when none does before it, exactly if it has never
      failed, has worked since, or failed two minutes ago or earlier. */
  lemma RecoversExactly(health: map<string, Health>, endpoints: seq<string>, working: set<string>, now: int,
                        url: string)
    requires url in endpoints && url in working
    requires forall other :: Before(endpoints, other, Some(url)) ==> other !in working
    ensures Dial(health, endpoints, working, now).url == Some(url) <==>
            && url != ""
            && (url !in health || health[url].healthy || now - health[url].failedAt >= 120)
  {
    DialExact(health, endpoints, working, now);
    var d := Dial(health, endpoints, working, now);
    if Usable(health, url, working, now) && d.url != Some(url) {
      FirstOfTwo(endpoints, url, d.url.value);
    }
  }

  /** Of two listed endpoints one comes before the other. */
  lemma {:induction false} FirstOfTwo(endpoints: seq<string>, a: string, b: string)
    requires a in endpoints && b in endpoints && a != b
    ensures Before(endpoints, a, Some(b)) || Before(endpoints, b, Some(a))
    decreases |endpoints|
  {
    if endpoints[0] != a && endpoints[0] != b {
      FirstOfTwo(endpoints[1..], a, b);
    }
  }

  // ---------------------------------------------------------------- one receipt lookup

  datatype Answer = Mined | NotMined | Refusal

  /** Which endpoints work at one attempt, what they answer to the receipt call, and when. */
  datatype Attempt = Attempt(working: set<string>, answers: map<string, Answer>, now: int)

  function Got(attempt: Attempt, url: string): Answer {
    if url in attempt.answers then attempt.answers[url] else Refusal
  }

  datatype Lookup = Found(url: string) | NotFound(url: string) | Refused(url: string) | NoEndpoint

  /** What a lookup leaves behind: the health map, the endpoints asked in turn, the result. */
  datatype Trace = Trace(health: map<string, Health>, asked: seq<string>, lookup: Lookup)

  /** getEVMReceipt, from some attempt on; `last` is the result if nothing more is reached. */
  function Ask(health: map<string, Health>, endpoints: seq<string>, attempts: seq<Attempt>, last: Lookup): Trace
    decreases |attempts|
  {
    if |attempts| == 0 then Trace(health, [], last)
    else
      var attempt := attempts[0];
      var d := Dial(health, endpoints, attempt.working, attempt.now);
      if d.url.None? then Trace(d.health, [], last)
      else
        var url := d.url.value;
        match Got(attempt, url)
        case Mined => Trace(d.health, [url], Found(url))
        case NotMined => Trace(d.health, [url], NotFound(url))
        case Refusal =>
          var rest := Ask(Demoted(d.health, url, attempt.now), endpoints, attempts[1..], Refused(url));
          rest.(asked := [url] + rest.asked)
  }

  /** All attempts fall within less than the recovery interval before `until`. */
  predicate Within(attempts: seq<Attempt>, until: int) {
    forall i :: 0 <= i < |attempts| ==> until - HEALTH_RECOVERY_INTERVAL < attempts[i].now <= until
  }

  /** The endpoint stays demoted until then. */
  predicate Down(health: map<string, Health>, url: string, until: int) {
    url in health && !health[url].healthy && until - health[url].failedAt < HEALTH_RECOVERY_INTERVAL
  }

  /** An endpoint that is down is neither asked nor touched. */
  lemma {:induction false} DownIsSkipped(health: map<string, Health>, endpoints: seq<string>, attempts: seq<Attempt>,
                                         last: Lookup, until: int, url: string)
    requires Within(attempts, until) && Down(health, url, until)
    ensures var trace := Ask(health, endpoints, attempts, last);
      url !in trace.asked && SameEntry(health, trace.health, url)
    decreases |attempts|
  {
    if |attempts| > 0 {
      var attempt := attempts[0];
      DialExact(health, endpoints, attempt.working, attempt.now);
      var d := Dial(health, endpoints, attempt.working, attempt.now);
      assert !Eligible(health, url, attempt.now);
      assert EntryAfter(health, endpoints, attempt.working, attempt.now, d, url);
      assert SameEntry(health, d.health, url);
      if d.url.Some? && Got(attempt, d.url.value) == Refusal {
        DownIsSkipped(Demoted(d.health, d.url.value, attempt.now), endpoints, attempts[1..], Refused(d.url.value),
                      until, url);
      }
    }
  }

  /** What a trace promises: different endpoints, all but the last of which refused; those
      that refused are down, the one that answered is healthy, and the result is its answer. */
  predicate Kept(trace: Trace, endpoints: seq<string>, attempts: seq<Attempt>, last: Lookup) {
    && |trace.asked| <= |attempts|
    && (forall i, j :: 0 <= i < j < |trace.asked| ==> trace.asked[i] != trace.asked[j])
    && (forall i :: 0 <= i < |trace.asked| ==>
          && trace.asked[i] in endpoints && trace.asked[i] in attempts[i].working && trace.asked[i] in trace.health
          && (Got(attempts[i], trace.asked[i]) == Refusal ==>
                && !trace.health[trace.asked[i]].healthy
                && trace.health[trace.asked[i]].failedAt == attempts[i].now)
          && (Got(attempts[i], trace.asked[i]) != Refusal ==>
                i == |trace.asked| - 1 && trace.health[trace.asked[i]].healthy))
    && (if |trace.asked| == 0 then trace.lookup == last
        else
          var i := |trace.asked| - 1;
          trace.lookup == match Got(attempts[i], trace.asked[i])
                          case Mined => Found(trace.asked[i])
                          case NotMined => NotFound(trace.asked[i])
                          case Refusal => Refused(trace.asked[i]))
  }

  lemma {:induction false} AskKeeps(health: map<string, Health>, endpoints: seq<string>, attempts: seq<Attempt>,
                                    last: Lookup, until: int)
    requires Within(attempts, until)
    ensures Kept(Ask(health, endpoints, attempts, last), endpoints, attempts, last)
    decreases |attempts|
  {
    if |attempts| > 0 {
      var attempt := attempts[0];
      var d := Dial(health, endpoints, attempt.working, attempt.now);
      DialExact(health, endpoints, attempt.working, attempt.now);
      if d.url.Some? && Got(attempt, d.url.value) == Refusal {
        var url, next := d.url.value, Demoted(d.health, d.url.value, attempt.now);
        AskKeeps(next, endpoints, attempts[1..], Refused(url), until);
        DownIsSkipped(next, endpoints, attempts[1..], Refused(url), until, url);
        RefusedFirst(Ask(next, endpoints, attempts[1..], Refused(url)), endpoints, attempts, url, last);
      }
    }
  }

  /** An attempt that was refused, in front of a trace that never comes back to its endpoint. */
  lemma RefusedFirst(rest: Trace, endpoints: seq<string>, attempts: seq<Attempt>, url: string, last: Lookup)
    requires |attempts| > 0 && Kept(rest, endpoints, attempts[1..], Refused(url)) && url !in rest.asked
    requires url in endpoints && url in attempts[0].working && Got(attempts[0], url) == Refusal
    requires url in rest.health && !rest.health[url].healthy && rest.health[url].failedAt == attempts[0].now
    ensures Kept(rest.(asked := [url] + rest.asked), endpoints, attempts, last)
  {
    var trace := rest.(asked := [url] + rest.asked);
    forall i | 1 <= i < |trace.asked|
      ensures trace.asked[i] == rest.asked[i - 1] && attempts[i] == attempts[1..][i - 1]
    {
    }
  }

  /** At this attempt the endpoint is dialed in vain, on the way to `stop`. */
  predicate InVain(health: map<string, Health>, endpoints: seq<string>, attempt: Attempt, stop: Option<string>,
                   url: string)
  {
    Fails(health, url, attempt.working, attempt.now) && Before(endpoints, url, stop)
  }

  /** The endpoint works at attempt i, could be tried at the start, and has since been neither
      asked nor dialed in vain. */
  predicate Up(health: map<string, Health>, endpoints: seq<string>, attempts: seq<Attempt>, asked: seq<string>,
               i: nat, url: string)
    requires i <= |asked| <= |attempts| && i < |attempts|
  {
    && Usable(health, url, attempts[i].working, attempts[i].now)
    && forall m :: 0 <= m < i ==> asked[m] != url && !InVain(health, endpoints, attempts[m], Some(asked[m]), url)
  }

  /** How many dials a lookup makes: one for every endpoint it asks, and one more that finds none. */
  function Dials(attempts: seq<Attempt>, asked: seq<string>): nat
    requires |asked| <= |attempts|
  {
    var n := |asked|;
    if n < |attempts| && (n == 0 || Got(attempts[n - 1], asked[n - 1]) == Refusal) then n + 1 else n
  }

  function StopAt(asked: seq<string>, i: nat): Option<string> {
    if i < |asked| then Some(asked[i]) else None
  }

  /** Each endpoint asked is the first one in the list that is up at its turn, and the lookup
      gives up only when none is. Exactly the endpoints dialed in vain are demoted besides
      those that were asked, and no other entry changes. */
  ghost predicate TakesTurns(health: map<string, Health>, trace: Trace, endpoints: seq<string>, attempts: seq<Attempt>)
    requires |trace.asked| <= |attempts|
  {
    && (forall i :: 0 <= i < |trace.asked| ==>
          && trace.asked[i] in endpoints && Up(health, endpoints, attempts, trace.asked, i, trace.asked[i])
          && forall url :: Before(endpoints, url, Some(trace.asked[i])) ==>
               !Up(health, endpoints, attempts, trace.asked, i, url))
    && (Dials(attempts, trace.asked) > |trace.asked| ==>
          forall url :: url in endpoints ==> !Up(health, endpoints, attempts, trace.asked, |trace.asked|, url))
    && (forall url :: url !in trace.asked ==>
          if exists m :: 0 <= m < Dials(attempts, trace.asked)
                      && InVain(health, endpoints, attempts[m], StopAt(trace.asked, m), url)
          then url in trace.health && !trace.health[url].healthy
          else SameEntry(health, trace.health, url))
  }

  /** After an attempt at which `url` refused, those that may be tried at attempt i are those
      that could be tried before, but for `url` and those dialed in vain. */
  ghost predicate NarrowsAt(health: map<string, Health>, next: map<string, Health>, endpoints: seq<string>,
                            attempts: seq<Attempt>, url: string, i: nat, u: string)
    requires i < |attempts|
  {
    Eligible(next, u, attempts[i].now) <==>
    (Eligible(health, u, attempts[i].now) && u != url && !InVain(health, endpoints, attempts[0], Some(url), u))
  }

  ghost predicate Narrows(health: map<string, Health>, next: map<string, Health>, endpoints: seq<string>,
                          attempts: seq<Attempt>, url: string)
  {
    forall u, i :: 1 <= i < |attempts| ==> NarrowsAt(health, next, endpoints, attempts, url, i, u)
  }

  lemma RefusalNarrows(health: map<string, Health>, endpoints: seq<string>, attempts: seq<Attempt>, until: int)
    requires |attempts| > 0 && Within(attempts, until)
    requires Dial(health, endpoints, attempts[0].working, attempts[0].now).url.Some?
    ensures var d := Dial(health, endpoints, attempts[0].working, attempts[0].now);
      Narrows(health, Demoted(d.health, d.url.value, attempts[0].now), endpoints, attempts, d.url.value)
  {
    var first := attempts[0];
    var d := Dial(health, endpoints, first.working, first.now);
    DialExact(health, endpoints, first.working, first.now);
    var url, next := d.url.value, Demoted(d.health, d.url.value, first.now);
    forall u, i | 1 <= i < |attempts| ensures NarrowsAt(health, next, endpoints, attempts, url, i, u) {
      assert EntryAfter(health, endpoints, first.working, first.now, d, u);
    }
  }

  lemma InVainShifts(health: map<string, Health>, next: map<string, Health>, endpoints: seq<string>,
                     attempts: seq<Attempt>, url: string, m: nat, stop: Option<string>, u: string)
    requires |attempts| > 0 && Narrows(health, next, endpoints, attempts, url) && 1 <= m < |attempts|
    ensures InVain(next, endpoints, attempts[m], stop, u) <==>
            (InVain(health, endpoints, attempts[m], stop, u)
             && u != url && !InVain(health, endpoints, attempts[0], Some(url), u))
  {
    assert NarrowsAt(health, next, endpoints, attempts, url, m, u);
  }

  lemma UpShifts(health: map<string, Health>, next: map<string, Health>, endpoints: seq<string>,
                 attempts: seq<Attempt>, url: string, rest: seq<string>, i: nat, u: string)
    requires |attempts| > 0 && Narrows(health, next, endpoints, attempts, url)
    requires i <= |rest| < |attempts| && i + 1 < |attempts|
    ensures Up(next, endpoints, attempts[1..], rest, i, u) <==> Up(health, endpoints, attempts, [url] + rest, i + 1, u)
  {
    var asked := [url] + rest;
    forall m | 1 <= m <= i
      ensures InVain(next, endpoints, attempts[1..][m - 1], Some(rest[m - 1]), u) <==>
              && InVain(health, endpoints, attempts[m], Some(asked[m]), u)
              && u != url && !InVain(health, endpoints, attempts[0], Some(url), u)
    {
      InVainShifts(health, next, endpoints, attempts, url, m, Some(asked[m]), u);
    }
    assert NarrowsAt(health, next, endpoints, attempts, url, i + 1, u);
    if Up(next, endpoints, attempts[1..], rest, i, u) {
      forall m | 0 <= m < i + 1
        ensures asked[m] != u && !InVain(health, endpoints, attempts[m], Some(asked[m]), u)
      {
        if m > 0 {
          assert rest[m - 1] != u && !InVain(next, endpoints, attempts[1..][m - 1], Some(rest[m - 1]), u);
        }
      }
    }
    if Up(health, endpoints, attempts, asked, i + 1, u) {
      forall m | 0 <= m < i ensures rest[m] != u && !InVain(next, endpoints, attempts[1..][m], Some(rest[m]), u) {
        assert asked[m + 1] != u && !InVain(health, endpoints, attempts[m + 1], Some(asked[m + 1]), u);
      }
      assert asked[0] != u && !InVain(health, endpoints, attempts[0], Some(asked[0]), u);
    }
  }

  lemma DialsShift(attempts: seq<Attempt>, url: string, rest: seq<string>)
    requires |rest| < |attempts| && Got(attempts[0], url) == Refusal
    ensures Dials(attempts, [url] + rest) == Dials(attempts[1..], rest) + 1
  {
  }

  /** The turns of a trace in front of which a refused attempt is put. */
  lemma TurnsShift(health: map<string, Health>, next: map<string, Health>, endpoints: seq<string>,
                   attempts: seq<Attempt>, url: string, rest: Trace)
    requires |rest.asked| < |attempts| && Narrows(health, next, endpoints, attempts, url)
    requires TakesTurns(next, rest, endpoints, attempts[1..]) && Got(attempts[0], url) == Refusal
    ensures var asked := [url] + rest.asked;
      && (forall i :: 1 <= i < |asked| ==>
            && asked[i] in endpoints && Up(health, endpoints, attempts, asked, i, asked[i])
            && forall u :: Before(endpoints, u, Some(asked[i])) ==> !Up(health, endpoints, attempts, asked, i, u))
      && (Dials(attempts, asked) > |asked| ==>
            forall u :: u in endpoints ==> !Up(health, endpoints, attempts, asked, |asked|, u))
  {
    var asked := [url] + rest.asked;
    DialsShift(attempts, url, rest.asked);
    forall i, u | 1 <= i <= |asked| && i < |attempts|
      ensures Up(next, endpoints, attempts[1..], rest.asked, i - 1, u) <==> Up(health, endpoints, attempts, asked, i, u)
    {
      UpShifts(health, next, endpoints, attempts, url, rest.asked, i - 1, u);
    }
    forall i | 1 <= i < |asked| ensures
      && asked[i] in endpoints && Up(health, endpoints, attempts, asked, i, asked[i])
      && forall u :: Before(endpoints, u, Some(asked[i])) ==> !Up(health, endpoints, attempts, asked, i, u)
    {
      assert asked[i] == rest.asked[i - 1];
    }
  }

  lemma VainShifts(health: map<string, Health>, next: map<string, Health>, endpoints: seq<string>,
                   attempts: seq<Attempt>, url: string, rest: seq<string>, u: string)
    requires |rest| < |attempts| && Narrows(health, next, endpoints, attempts, url)
    requires Got(attempts[0], url) == Refusal && u != url
    ensures var asked := [url] + rest;
      (exists m :: 0 <= m < Dials(attempts, asked) && InVain(health, endpoints, attempts[m], StopAt(asked, m), u)) <==>
        || InVain(health, endpoints, attempts[0], Some(url), u)
        || exists m :: 0 <= m < Dials(attempts[1..], rest)
                    && InVain(next, endpoints, attempts[1..][m], StopAt(rest, m), u)
  {
    var asked := [url] + rest;
    DialsShift(attempts, url, rest);
    forall m | 1 <= m < Dials(attempts, asked)
      ensures InVain(next, endpoints, attempts[1..][m - 1], StopAt(rest, m - 1), u) <==>
              && InVain(health, endpoints, attempts[m], StopAt(asked, m), u)
              && !InVain(health, endpoints, attempts[0], Some(url), u)
    {
      InVainShifts(health, next, endpoints, attempts, url, m, StopAt(asked, m), u);
    }
    if m :| 1 <= m < Dials(attempts, asked) && InVain(health, endpoints, attempts[m], StopAt(asked, m), u)
    {
      if !InVain(health, endpoints, attempts[0], Some(url), u) {
        assert InVain(next, endpoints, attempts[1..][m - 1], StopAt(rest, m - 1), u);
      }
    }
    if m :| 0 <= m < Dials(attempts[1..], rest) && InVain(next, endpoints, attempts[1..][m], StopAt(rest, m), u)
    {
      assert InVain(health, endpoints, attempts[m + 1], StopAt(asked, m + 1), u);
    }
    if InVain(health, endpoints, attempts[0], Some(url), u) {
      assert InVain(health, endpoints, attempts[0], StopAt(asked, 0), u);
    }
  }

  /** The frame of such a trace. */
  lemma FrameShift(health: map<string, Health>, endpoints: seq<string>, attempts: seq<Attempt>, until: int,
                   next: map<string, Health>, rest: Trace, u: string)
    requires |rest.asked| < |attempts| && Within(attempts, until)
    requires var d := Dial(health, endpoints, attempts[0].working, attempts[0].now);
      && d.url.Some? && Got(attempts[0], d.url.value) == Refusal
      && next == Demoted(d.health, d.url.value, attempts[0].now)
      && u !in [d.url.value] + rest.asked
    requires TakesTurns(next, rest, endpoints, attempts[1..])
    ensures var asked := [Dial(health, endpoints, attempts[0].working, attempts[0].now).url.value] + rest.asked;
      if exists m :: 0 <= m < Dials(attempts, asked) && InVain(health, endpoints, attempts[m], StopAt(asked, m), u)
      then u in rest.health && !rest.health[u].healthy
      else SameEntry(health, rest.health, u)
  {
    var url := Dial(health, endpoints, attempts[0].working, attempts[0].now).url.value;
    assert u != url && u !in rest.asked;
    RefusalNarrows(health, endpoints, attempts, until);
    VainShifts(health, next, endpoints, attempts, url, rest.asked, u);
    DialExact(health, endpoints, attempts[0].working, attempts[0].now);
    assert EntryAfter(health, endpoints, attempts[0].working, attempts[0].now,
                      Dial(health, endpoints, attempts[0].working, attempts[0].now), u);
  }

  lemma TurnFirst(health: map<string, Health>, endpoints: seq<string>, attempts: seq<Attempt>, until: int,
                  next: map<string, Health>, rest: Trace)
    requires |rest.asked| < |attempts| && Within(attempts, until)
    requires var d := Dial(health, endpoints, attempts[0].working, attempts[0].now);
      && d.url.Some? && Got(attempts[0], d.url.value) == Refusal
      && next == Demoted(d.health, d.url.value, attempts[0].now)
    requires TakesTurns(next, rest, endpoints, attempts[1..])
    ensures var url := Dial(health, endpoints, attempts[0].working, attempts[0].now).url.value;
      TakesTurns(health, rest.(asked := [url] + rest.asked), endpoints, attempts)
  {
    var url := Dial(health, endpoints, attempts[0].working, attempts[0].now).url.value;
    RefusalNarrows(health, endpoints, attempts, until);
    TurnsShift(health, next, endpoints, attempts, url, rest);
    DialExact(health, endpoints, attempts[0].working, attempts[0].now);
    forall u | u !in [url] + rest.asked ensures
      if exists m :: 0 <= m < Dials(attempts, [url] + rest.asked)
                  && InVain(health, endpoints, attempts[m], StopAt([url] + rest.asked, m), u)
      then u in rest.health && !rest.health[u].healthy
      else SameEntry(health, rest.health, u)
    {
      FrameShift(health, endpoints, attempts, until, next, rest, u);
    }
  }

  /** A lookup of one dial: it found no endpoint, or one that answered. */
  lemma LastTurn(health: map<string, Health>, endpoints: seq<string>, attempts: seq<Attempt>, last: Lookup)
    requires |attempts| > 0
    requires var d := Dial(health, endpoints, attempts[0].working, attempts[0].now);
      d.url.Some? ==> Got(attempts[0], d.url.value) != Refusal
    ensures TakesTurns(health, Ask(health, endpoints, attempts, last), endpoints, attempts)
  {
    var first := attempts[0];
    var d, trace := Dial(health, endpoints, first.working, first.now), Ask(health, endpoints, attempts, last);
    DialExact(health, endpoints, first.working, first.now);
    forall url | url !in trace.asked ensures
      if exists m :: 0 <= m < Dials(attempts, trace.asked)
                  && InVain(health, endpoints, attempts[m], StopAt(trace.asked, m), url)
      then url in trace.health && !trace.health[url].healthy
      else SameEntry(health, trace.health, url)
    {
      assert EntryAfter(health, endpoints, first.working, first.now, d, url);
      assert StopAt(trace.asked, 0) == d.url;
      assert InVain(health, endpoints, attempts[0], StopAt(trace.asked, 0), url) <==>
             (Fails(health, url, first.working, first.now) && Before(endpoints, url, d.url));
    }
  }

  lemma {:induction false} AskTakesTurns(health: map<string, Health>, endpoints: seq<string>, attempts: seq<Attempt>,
                                         last: Lookup, until: int)
    requires Within(attempts, until)
    ensures var trace := Ask(health, endpoints, attempts, last);
      |trace.asked| <= |attempts| && TakesTurns(health, trace, endpoints, attempts)
    decreases |attempts|
  {
    if |attempts| > 0 {
      var attempt := attempts[0];
      var d := Dial(health, endpoints, attempt.working, attempt.now);
      DialExact(health, endpoints, attempt.working, attempt.now);
      if d.url.Some? && Got(attempt, d.url.value) == Refusal {
        var url, next := d.url.value, Demoted(d.health, d.url.value, attempt.now);
        AskTakesTurns(next, endpoints, attempts[1..], Refused(url), until);
        RefusalNarrows(health, endpoints, attempts, until);
        TurnFirst(health, endpoints, attempts, until, next, Ask(next, endpoints, attempts[1..], Refused(url)));
      } else {
        LastTurn(health, endpoints, attempts, last);
      }
    }
  }
  /** A lookup that lasts less than the recovery interval asks different endpoints, at most
      three, each the first one in the list that is up at its turn; demotes those that refuse
      or are dialed in vain, and no other; and ends with the first answer, with the last
      refusal, or with no endpoint when none could be dialed at all. */
  lemma LookupRotates(health: map<string, Health>, endpoints: seq<string>, attempts: seq<Attempt>)
    requires |attempts| == EVM_RECEIPT_ATTEMPTS
    requires attempts[0].now <= attempts[1].now <= attempts[2].now < attempts[0].now + HEALTH_RECOVERY_INTERVAL
    ensures var trace := Ask(health, endpoints, attempts, NoEndpoint);
      && Kept(trace, endpoints, attempts, NoEndpoint)
      && TakesTurns(health, trace, endpoints, attempts)
      && (trace.lookup == NoEndpoint <==>
            forall url :: url in endpoints ==> !Usable(health, url, attempts[0].working, attempts[0].now))
  {
    AskKeeps(health, endpoints, attempts, NoEndpoint, attempts[2].now);
    AskTakesTurns(health, endpoints, attempts, NoEndpoint, attempts[2].now);
    DialExact(health, endpoints, attempts[0].working, attempts[0].now);
  }

  // ---------------------------------------------------------------- the provider

  lemma Associate(asked: seq<string>, url: string, rest: seq<string>)
    ensures asked + [url] + rest == asked + ([url] + rest)
  {
  }

  class Provider {
    var health: map<string, Health>

    constructor ()
      ensures health == map[]
    {
      health := map[];
    }

    method MarkUnhealthy(url: string, now: int)
      modifies this
      ensures health == if url == "" then old(health) else Demoted(old(health), url, now)
    {
      if url != "" {
        var h := if url in health then health[url] else Health(false, 0, 0);
        health := health[url := Health(false, now, h.failCount + 1)];
      }
    }

    method MarkHealthy(url: string)
      modifies this
      ensures health == Promoted(old(health), url)
    {
      health := health[url := Health(true, 0, 0)];
    }

    method DialWithFailover(endpoints: seq<string>, working: set<string>, now: int) returns (dialed: Option<string>)
      modifies this
      ensures Dialed(health, dialed) == Dial(old(health), endpoints, working, now)
      ensures dialed.Some? ==> dialed.value != ""
    {
      for i := 0 to |endpoints|
        invariant Dial(old(health), endpoints, working, now) == Dial(health, endpoints[i..], working, now)
      {
        var url := endpoints[i];
        assert endpoints[i..][1..] == endpoints[i + 1..];
        if url == "" || !Eligible(health, url, now) {
          continue;
        }
        if url !in working {
          MarkUnhealthy(url, now);
          continue;
        }
        MarkHealthy(url);
        return Some(url);
      }
      return None;
    }

    /** getEVMReceipt. */
    method GetReceipt(endpoints: seq<string>, attempts: seq<Attempt>) returns (lookup: Lookup, asked: seq<string>)
      requires |attempts| == EVM_RECEIPT_ATTEMPTS
      modifies this
      ensures Trace(health, asked, lookup) == Ask(old(health), endpoints, attempts, NoEndpoint)
    {
      lookup, asked := NoEndpoint, [];
      for attempt := 0 to EVM_RECEIPT_ATTEMPTS
        invariant var rest := Ask(health, endpoints, attempts[attempt..], lookup);
          rest.(asked := asked + rest.asked) == Ask(old(health), endpoints, attempts, NoEndpoint)
      {
        assert attempts[attempt..][1..] == attempts[attempt + 1..];
        var url := DialWithFailover(endpoints, attempts[attempt].working, attempts[attempt].now);
        if url.None? {
          return;
        }
        Associate(asked, url.value, Ask(Demoted(health, url.value, attempts[attempt].now), endpoints,
                                        attempts[attempt + 1..], Refused(url.value)).asked);
        asked := asked + [url.value];
        match Got(attempts[attempt], url.value)
        case Mined => return Found(url.value), asked;
        case NotMined => return NotFound(url.value), asked;
        case Refusal =>
          lookup := Refused(url.value);
          MarkUnhealthy(url.value, attempts[attempt].now);
      }
    }
  }
}
