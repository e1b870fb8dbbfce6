/** What the calls of the marketing queue do, spelled out: which emails are sent, to whom, and
    what they leave of quota, campaigns and sequences. */
module MarketingEffects {
  import opened Domain
  import opened Marketing
  import opened MarketingRuns

  // ---------------------------------------------------------------- campaigns

  /** Recipient r waits, and fewer than n recipients of its campaign wait before it. */
  predicate AmongFirst(recipients: seq<Recipient>, c: nat, n: int, r: nat) {
    && r < |recipients| && recipients[r].campaign == c && recipients[r].status == Waiting
    && CountOf(recipients[..r], c, Waiting) < n
  }

  lemma CountOneMore(recipients: seq<Recipient>, r: nat, c: nat)
    requires r < |recipients|
    ensures CountOf(recipients[..r + 1], c, Waiting) == CountOf(recipients[..r], c, Waiting)
            + if recipients[r].campaign == c && recipients[r].status == Waiting then 1 else 0
  {
    assert recipients[..r + 1] == recipients[..r] + [recipients[r]];
    CountAppend(recipients[..r], recipients[r], c, Waiting);
  }

  lemma {:induction false} CountGrows(recipients: seq<Recipient>, a: nat, b: nat, c: nat)
    requires a <= b <= |recipients|
    ensures CountOf(recipients[..a], c, Waiting) <= CountOf(recipients[..b], c, Waiting)
    decreases b - a
  {
    if a < b {
      CountGrows(recipients, a, b - 1, c);
      CountOneMore(recipients, b - 1, c);
    }
  }

  /** A batch is the first waiting recipients of its campaign, as many as it has room for. */
  lemma {:induction false} BatchFrom(recipients: seq<Recipient>, c: nat, from: nat, size: int, r: nat)
    requires from <= r < |recipients|
    ensures r in Batch(recipients, c, from, size) <==>
            AmongFirst(recipients, c, CountOf(recipients[..from], c, Waiting) + size, r)
    decreases |recipients| - from
  {
    var waits := recipients[from].campaign == c && recipients[from].status == Waiting;
    CountGrows(recipients, from, r, c);
    if size > 0 {
      CountOneMore(recipients, from, c);
      if r > from {
        BatchFrom(recipients, c, from + 1, if waits then size - 1 else size, r);
      }
    }
  }

  lemma BatchExact(recipients: seq<Recipient>, c: nat, size: int, r: nat)
    requires r < |recipients|
    ensures r in Batch(recipients, c, 0, size) <==> AmongFirst(recipients, c, size, r)
  {
    BatchFrom(recipients, c, 0, size, r);
  }

  lemma {:induction false} BatchFits(recipients: seq<Recipient>, c: nat, from: nat, size: int)
    requires from <= |recipients|
    ensures |Batch(recipients, c, from, size)| <= if size > 0 then size else 0
    decreases |recipients| - from
  {
    if from < |recipients| && size > 0 {
      if recipients[from].campaign == c && recipients[from].status == Waiting {
        BatchFits(recipients, c, from + 1, size - 1);
      } else {
        BatchFits(recipients, c, from + 1, size);
      }
    }
  }

  /** How many emails of the batch do not bounce. */
  function Accepted(batch: seq<nat>, bounces: set<nat>): nat {
    if |batch| == 0 then 0 else Accepted(batch[1..], bounces) + if batch[0] in bounces then 0 else 1
  }

  /** The recipients after a batch: each of it is sent or has bounced, the others are as before. */
  predicate BatchSent(before: seq<Recipient>, after: seq<Recipient>, batch: seq<nat>, bounces: set<nat>) {
    && |after| == |before|
    && forall i: nat :: i < |before| ==>
         after[i] == if i !in batch then before[i] else before[i].(status := if i in bounces then Bounced else Sent)
  }

  lemma BatchSentFirst(before: seq<Recipient>, next: seq<Recipient>, after: seq<Recipient>, batch: seq<nat>,
                       bounces: set<nat>)
    requires |batch| > 0 && Distinct(batch) && batch[0] < |before| && BatchSent(next, after, batch[1..], bounces)
    requires next == before[batch[0] := before[batch[0]].(status := if batch[0] in bounces then Bounced else Sent)]
    ensures BatchSent(before, after, batch, bounces)
  {
    assert batch == [batch[0]] + batch[1..];
    assert batch[0] !in batch[1..];
  }

  /** With room for all of it, a batch is sent as a whole. */
  lemma {:induction false} DeliveredRows(st: State, batch: seq<nat>, bounces: set<nat>, remaining: int, day: int,
                                         limit: int)
    requires st.WellFormed() && Distinct(batch) && |batch| <= remaining && day in st.quotas
    requires forall i :: 0 <= i < |batch| ==> batch[i] < |st.recipients|
    ensures var r := DeliverAll(st, batch, bounces, remaining, day, limit);
      && r.remaining == remaining - Accepted(batch, bounces)
      && r.st.quotas == st.quotas[day := st.quotas[day].(sent := st.quotas[day].sent + Accepted(batch, bounces))]
      && BatchSent(st.recipients, r.st.recipients, batch, bounces)
      && r.st.sequences == st.sequences && r.st.mailed == st.mailed
    decreases |batch|
  {
    if |batch| > 0 {
      var ok := batch[0] !in bounces;
      var next, left := Deliver(st, batch[0], ok, day, limit), if ok then remaining - 1 else remaining;
      DeliveredRows(next, batch[1..], bounces, left, day, limit);
      var sent := DeliverAll(st, batch, bounces, remaining, day, limit).st;
      BatchSentFirst(st.recipients, next.recipients, sent.recipients, batch, bounces);
    }
  }

  predicate NobodyWaits(recipients: seq<Recipient>, c: nat) {
    forall i: nat :: i < |recipients| && recipients[i].campaign == c ==> recipients[i].status != Waiting
  }

  /** One campaign in a tick with quota left: the first ten waiting recipients get their email,
      or as many as the quota has room for; each is sent or bounces; what was sent is counted
      once. A campaign without waiting recipients is completed, and nothing else changes. */
  lemma ServeExact(st: State, c: nat, bounces: set<nat>, remaining: int, day: int, limit: int)
    requires st.WellFormed() && c < |st.campaigns| && remaining > 0 && day in st.quotas
    ensures var r, size := Serve(st, c, bounces, remaining, day, limit), if remaining < 10 then remaining else 10;
            var sent := remaining - r.remaining;
      && 0 <= sent <= size
      && r.st.quotas == st.quotas[day := st.quotas[day].(sent := st.quotas[day].sent + sent)]
      && (forall i: nat :: i < |st.recipients| ==>
            r.st.recipients[i] == if !AmongFirst(st.recipients, c, size, i) then st.recipients[i]
                                  else st.recipients[i].(status := if i in bounces then Bounced else Sent))
      && (NobodyWaits(st.recipients, c) ==>
            r.st == st.(campaigns := st.campaigns[c := st.campaigns[c].(status := CampaignCompleted)]))
  {
    var size := if remaining < 10 then remaining else 10;
    var batch := Batch(st.recipients, c, 0, size);
    forall i: nat | i < |st.recipients| ensures i in batch <==> AmongFirst(st.recipients, c, size, i) {
      BatchExact(st.recipients, c, size, i);
    }
    BatchFits(st.recipients, c, 0, size);
    AcceptedBound(batch, bounces);
    if batch != [] {
      DeliveredRows(st, batch, bounces, remaining, day, limit);
      assert batch[0] in batch;
    } else {
      assert st.quotas[day := st.quotas[day]] == st.quotas;
    }
  }

  lemma {:induction false} AcceptedBound(batch: seq<nat>, bounces: set<nat>)
    ensures Accepted(batch, bounces) <= |batch|
  {
    if |batch| > 0 {
      AcceptedBound(batch[1..], bounces);
    }
  }

  lemma {:induction false} ServeAllCounts(st: State, order: seq<nat>, bounces: set<nat>, remaining: int, day: int,
                                          limit: int)
    requires st.WellFormed() && day in st.quotas && remaining >= 0
    requires forall i :: 0 <= i < |order| ==> order[i] < |st.campaigns|
    ensures var r := ServeAll(st, order, bounces, remaining, day, limit);
      && 0 <= r.remaining <= remaining
      && r.st.quotas == st.quotas[day := st.quotas[day].(sent := st.quotas[day].sent + remaining - r.remaining)]
    decreases |order|
  {
    if |order| > 0 && remaining > 0 {
      var first := Serve(st, order[0], bounces, remaining, day, limit);
      ServeExact(st, order[0], bounces, remaining, day, limit);
      ServeAllCounts(first.st, order[1..], bounces, first.remaining, day, limit);
    } else {
      assert st.quotas[day := st.quotas[day]] == st.quotas;
    }
  }

  /** What may still be sent on a day: the limit in force, or that of the day's row if it is
      lower, minus what was sent. */
  function MayBeSent(st: State, day: int, limit: int): int {
    if day !in st.quotas then limit
    else if limit < st.quotas[day].limit then limit - st.quotas[day].sent
    else st.quotas[day].limit - st.quotas[day].sent
  }

  /** A tick counts no more emails than that, for its own day only, and none that bounced; the
      limit of the day is fixed by its first tick. */
  lemma TickExact(st: State, order: seq<nat>, bounces: set<nat>, day: int, limit: int)
    requires st.WellFormed() && IsQueue(st, order)
    ensures var after := QueueTick(st, order, bounces, day, limit);
            var before := if day in st.quotas then st.quotas[day] else Quota(0, limit);
      && day in after.quotas
      && after.quotas == st.quotas[day := before.(sent := after.quotas[day].sent)]
      && before.sent <= after.quotas[day].sent
      && (after.quotas[day].sent == before.sent || after.quotas[day].sent <= before.sent + MayBeSent(st, day, limit))
      && (MayBeSent(st, day, limit) <= 0 ==> after.(quotas := st.quotas) == st)
  {
    if MayBeSent(st, day, limit) > 0 {
      ServeAllCounts(Opened(st, day, limit), order, bounces, MayBeSent(st, day, limit), day, limit);
    }
  }

  lemma {:induction false} DeliveredOthers(st: State, batch: seq<nat>, bounces: set<nat>, remaining: int, day: int,
                                           limit: int, r: nat)
    requires st.WellFormed() && r < |st.recipients| && r !in batch
    requires forall i :: 0 <= i < |batch| ==> batch[i] < |st.recipients|
    ensures DeliverAll(st, batch, bounces, remaining, day, limit).st.recipients[r] == st.recipients[r]
    decreases |batch|
  {
    if |batch| > 0 && remaining > 0 {
      var ok := batch[0] !in bounces;
      DeliveredOthers(Deliver(st, batch[0], ok, day, limit), batch[1..], bounces,
                      if ok then remaining - 1 else remaining, day, limit, r);
    }
  }

  lemma {:induction false} ServedOthers(st: State, order: seq<nat>, bounces: set<nat>, remaining: int, day: int,
                                        limit: int, r: nat)
    requires st.WellFormed() && r < |st.recipients| && st.recipients[r].campaign !in order
    requires forall i :: 0 <= i < |order| ==> order[i] < |st.campaigns|
    ensures ServeAll(st, order, bounces, remaining, day, limit).st.recipients[r] == st.recipients[r]
    decreases |order|
  {
    if |order| > 0 && remaining > 0 {
      var first := Serve(st, order[0], bounces, remaining, day, limit);
      DeliveredOthers(st, Batch(st.recipients, order[0], 0, BatchSize(remaining)), bounces, remaining, day, limit, r);
      ServedOthers(first.st, order[1..], bounces, first.remaining, day, limit, r);
    }
  }

  lemma ServedFirst(st: State, order: seq<nat>, bounces: set<nat>, remaining: int, day: int, limit: int, r: nat)
    requires st.WellFormed() && IsQueue(st, order) && |order| > 0 && remaining > 0 && day in st.quotas
    requires r < |st.recipients| && st.recipients[r].campaign == order[0]
    ensures ServeAll(st, order, bounces, remaining, day, limit).st.recipients[r]
         == Serve(st, order[0], bounces, remaining, day, limit).st.recipients[r]
  {
    var first := Serve(st, order[0], bounces, remaining, day, limit);
    ServeExact(st, order[0], bounces, remaining, day, limit);
    ServedOthers(first.st, order[1..], bounces, first.remaining, day, limit, r);
  }

  /** The campaign that was started first is served first: after a tick with quota left, its
      first ten waiting recipients have their email, or as many as the quota has room for. */
  lemma FirstCampaignFirst(st: State, order: seq<nat>, bounces: set<nat>, day: int, limit: int, r: nat)
    requires st.WellFormed() && IsQueue(st, order) && |order| > 0 && MayBeSent(st, day, limit) > 0
    requires r < |st.recipients| && st.recipients[r].campaign == order[0]
    ensures var size := if MayBeSent(st, day, limit) < 10 then MayBeSent(st, day, limit) else 10;
      QueueTick(st, order, bounces, day, limit).recipients[r] ==
        if !AmongFirst(st.recipients, order[0], size, r) then st.recipients[r]
        else st.recipients[r].(status := if r in bounces then Bounced else Sent)
  {
    var today, left := Opened(st, day, limit), MayBeSent(st, day, limit);
    assert QueueTick(st, order, bounces, day, limit) == ServeAll(today, order, bounces, left, day, limit).st;
    ServedFirst(today, order, bounces, left, day, limit, r);
    ServeExact(today, order[0], bounces, left, day, limit);
  }

  /** A campaign with one recipient, from its creation to its end in the second tick. */
  const ONE_EMAIL := [CreatesCampaign, Launches(0, ["a"]), Ticks([0], {}, 0, 10), Ticks([0], {}, 0, 10)]

  function CampaignState(row: Campaign, recipients: seq<Recipient>): State {
    EMPTY.(campaigns := [row], recipients := recipients)
  }

  const CREATED := CampaignState(Campaign(Draft, 0, 0, 0, 0), [])
  const SENDING := CampaignState(Campaign(Sending, 1, 0, 0, 1), [Recipient(0, "a", Waiting)])
  const SENT := CampaignState(Campaign(Sending, 1, 1, 0, 0), [Recipient(0, "a", Sent)]).(
                  unsubscribed := {"a"}, quotas := map[0 := Quota(1, 10)])
  const ENDED := SENT.(campaigns := [Campaign(CampaignCompleted, 1, 1, 0, 0)])

  lemma OneLaunch()
    ensures Follows(EMPTY, ONE_EMAIL[0], CREATED) && Follows(CREATED, ONE_EMAIL[1], SENDING)
  {
    OneSubscriber("a");
    assert ["a"][..0] == [];
    assert Inserted([], 0, ["a"]) == [Recipient(0, "a", Waiting)];
  }

  lemma FirstTick()
    ensures Follows(SENDING, ONE_EMAIL[2], SENT)
  {
    var today := SENDING.(quotas := map[0 := Quota(0, 10)]);
    AddressOfA();
    assert Batch(today.recipients, 0, 1, 9) == [];
    assert Batch(today.recipients, 0, 0, 10) == [0];
    assert Deliver(today, 0, true, 0, 10) == SENT;
    assert [0][1..] == [];
    assert DeliverAll(SENT, [], {}, 9, 0, 10) == Served(SENT, 9);
    assert Serve(today, 0, {}, 10, 0, 10) == Served(SENT, 9);
    assert ServeAll(SENT, [], {}, 9, 0, 10) == Served(SENT, 9);
    assert ServeAll(today, [0], {}, 10, 0, 10) == Served(SENT, 9);
  }

  lemma SecondTick()
    ensures Follows(SENT, ONE_EMAIL[3], ENDED)
  {
    assert Batch(SENT.recipients, 0, 1, 9) == [];
    assert Batch(SENT.recipients, 0, 0, 9) == [];
    assert Serve(SENT, 0, {}, 9, 0, 10) == Served(ENDED, 9);
    assert [0][1..] == [];
    assert ServeAll(ENDED, [], {}, 9, 0, 10) == Served(ENDED, 9);
    assert ServeAll(SENT, [0], {}, 9, 0, 10) == Served(ENDED, 9);
  }

  lemma OneEmailIsSent()
    ensures IsRun([EMPTY, CREATED, SENDING, SENT, ENDED], ONE_EMAIL)
  {
    OneLaunch();
    FirstTick();
    SecondTick();
    FourSteps(EMPTY, CREATED, SENDING, SENT, ENDED, ONE_EMAIL);
  }

  // ---------------------------------------------------------------- addresses

  /** Tab, line feed, vertical tab, form feed, carriage return, and space. */
  predicate IsBlank(c: char) {
    c as int in {9, 10, 11, 12, 13, 32}
  }

  predicate AllBlank(s: string) {
    forall i :: 0 <= i < |s| ==> IsBlank(s[i])
  }

  lemma {:induction false} LeftTrimmed(s: string) returns (blanks: string)
    ensures AllBlank(blanks) && s == blanks + TrimLeft(s)
    ensures TrimLeft(s) != "" ==> !IsBlank(TrimLeft(s)[0])
  {
    if |s| > 0 && IsSpace(s[0]) {
      var rest := LeftTrimmed(s[1..]);
      blanks := [s[0]] + rest;
    } else {
      blanks := "";
    }
  }

  lemma {:induction false} RightTrimmed(s: string) returns (blanks: string)
    ensures AllBlank(blanks) && s == TrimRight(s) + blanks
    ensures TrimRight(s) != "" ==> !IsBlank(TrimRight(s)[|TrimRight(s)| - 1])
  {
    if |s| > 0 && IsSpace(s[|s| - 1]) {
      var rest := RightTrimmed(s[..|s| - 1]);
      blanks := rest + [s[|s| - 1]];
    } else {
      blanks := "";
    }
  }

  /** Trimming takes blanks off both ends, and all of them. */
  lemma TrimExact(s: string) returns (left: string, right: string)
    ensures s == left + TrimSpace(s) + right && AllBlank(left) && AllBlank(right)
    ensures var t := TrimSpace(s); t != "" ==> !IsBlank(t[0]) && !IsBlank(t[|t| - 1])
  {
    left := LeftTrimmed(s);
    right := RightTrimmed(TrimLeft(s));
    var t := TrimSpace(s);
    assert s == left + (t + right);
  }

  /** Capital letters become small ones, and no other character changes. */
  lemma LowerExact(k: nat, c: char)
    requires k < 26
    ensures Lower(["ABCDEFGHIJKLMNOPQRSTUVWXYZ"[k]]) == ["abcdefghijklmnopqrstuvwxyz"[k]]
    ensures c !in "ABCDEFGHIJKLMNOPQRSTUVWXYZ" ==> Lower([c]) == [c]
  {
    var capitals := "ABCDEFGHIJKLMNOPQRSTUVWXYZ";
    assert forall i :: 0 <= i < 26 ==> capitals[i] as int == 'A' as int + i;
    if 'A' <= c <= 'Z' {
      assert capitals[c as int - 'A' as int] == c;
    }
  }

  // ---------------------------------------------------------------- launches

  predicate IsOut(unsubscribed: set<string>, email: string) {
    exists u :: u in unsubscribed && Lower(u) == Lower(email)
  }

  lemma {:induction false} SubscribedExact(unsubscribed: set<string>, emails: seq<string>, email: string)
    ensures email in Subscribed(unsubscribed, emails) <==> email in emails && !IsOut(unsubscribed, email)
  {
    if |emails| > 0 {
      var last := emails[|emails| - 1];
      SubscribedExact(unsubscribed, emails[..|emails| - 1], email);
      assert email in emails <==> email in emails[..|emails| - 1] || email == last;
    }
  }

  lemma {:induction false} InsertedAll(recipients: seq<Recipient>, c: nat, emails: seq<string>, email: string)
    ensures var after := Inserted(recipients, c, emails);
      && recipients <= after
      && (forall r :: |recipients| <= r < |after| ==> after[r].campaign == c && after[r].status == Waiting)
      && (IsRecipient(after, c, email) <==> IsRecipient(recipients, c, email) || email in emails)
  {
    if |emails| > 0 {
      var last, rest := emails[|emails| - 1], emails[..|emails| - 1];
      InsertedAll(recipients, c, rest, email);
      InsertedAll(recipients, c, rest, last);
      assert email in emails <==> email in rest || email == last;
      var before, after := Inserted(recipients, c, rest), Inserted(recipients, c, emails);
      if after != before {
        assert after[|before|] == Recipient(c, last, Waiting);
      }
      if IsRecipient(before, c, email) {
        var r :| 0 <= r < |before| && before[r].campaign == c && before[r].email == email;
        assert after[r] == before[r];
      }
    }
  }

  /** A campaign is launched exactly when it is a draft, or paused, and somebody of its audience
      is still subscribed; then everybody is who is, and nobody else. */
  lemma LaunchExact(st: State, c: nat, audience: seq<string>, email: string)
    requires st.WellFormed()
    ensures var r := Launched(st, c, audience);
      && (r.Some? <==>
            && c < |st.campaigns| && (st.campaigns[c].status == Draft || st.campaigns[c].status == Paused)
            && exists e :: e in audience && !IsOut(st.unsubscribed, e))
      && (r.Some? ==>
            var after := r.value;
            && after.(recipients := st.recipients, campaigns := st.campaigns) == st
            && |after.campaigns| == |st.campaigns| && after.campaigns[c].status == Sending
            && (forall d: nat :: d < |st.campaigns| && d != c ==> after.campaigns[d] == st.campaigns[d])
            && st.recipients <= after.recipients
            && (forall i :: |st.recipients| <= i < |after.recipients| ==>
                  after.recipients[i].campaign == c && after.recipients[i].status == Waiting)
            && (IsRecipient(after.recipients, c, email) <==>
                  || IsRecipient(st.recipients, c, email)
                  || (email in audience && !IsOut(st.unsubscribed, email))))
  {
    var emails := Subscribed(st.unsubscribed, audience);
    SubscribedExact(st.unsubscribed, audience, email);
    InsertedAll(st.recipients, c, emails, email);
    SomebodyLeft(st.unsubscribed, audience);
  }

  lemma SomebodyLeft(unsubscribed: set<string>, audience: seq<string>)
    ensures |Subscribed(unsubscribed, audience)| > 0 <==> exists e :: e in audience && !IsOut(unsubscribed, e)
  {
    var emails := Subscribed(unsubscribed, audience);
    if |emails| > 0 {
      SubscribedExact(unsubscribed, audience, emails[0]);
      assert emails[0] in emails;
    } else if e :| e in audience && !IsOut(unsubscribed, e) {
      SubscribedExact(unsubscribed, audience, e);
    }
  }

  /** A new enrollment of a sequence, due at its first step. */
  predicate IsFresh(row: Enrollment, s: nat, due: int) {
    row.sequence == s && row.step == 0 && row.attempts == 0 && row.nextSendAt == due && row.status == Active
  }

  lemma {:induction false} EnrolledAll(enrollments: seq<Enrollment>, s: nat, emails: seq<string>, due: int,
                                       email: string)
    ensures var after := Enrolled(enrollments, s, emails, due);
      && enrollments <= after
      && (forall e :: |enrollments| <= e < |after| ==> IsFresh(after[e], s, due))
      && (IsEnrolled(after, s, email) <==> IsEnrolled(enrollments, s, email) || email in emails)
  {
    if |emails| > 0 {
      var last, rest := emails[|emails| - 1], emails[..|emails| - 1];
      EnrolledAll(enrollments, s, rest, due, email);
      EnrolledAll(enrollments, s, rest, due, last);
      assert email in emails <==> email in rest || email == last;
      var before, after := Enrolled(enrollments, s, rest, due), Enrolled(enrollments, s, emails, due);
      if after != before {
        assert after[|before|] == Enrollment(s, last, 0, 0, due, Active);
      }
      if IsEnrolled(before, s, email) {
        var e :| 0 <= e < |before| && before[e].sequence == s && before[e].email == email;
        assert after[e] == before[e];
      }
    }
  }

  /** A sequence is launched exactly when it is a draft or paused, has a step, and somebody of
      its audience is still subscribed. */
  lemma SequenceLaunchExact(st: State, s: nat, audience: seq<string>, start: int, now: int)
    requires st.WellFormed()
    ensures SequenceLaunched(st, s, audience, start, now).Some? <==>
            && s < |st.sequences| && |st.sequences[s].steps| > 0
            && (st.sequences[s].status == SequenceDraft || st.sequences[s].status == SequencePaused)
            && exists e :: e in audience && !IsOut(st.unsubscribed, e)
  {
    SomebodyLeft(st.unsubscribed, audience);
  }

  /** Then everybody of the audience who is subscribed is enrolled, each newcomer from the first
      step on; the sequence runs, and keeps the start it has. */
  lemma SequenceLaunchRows(st: State, s: nat, audience: seq<string>, start: int, now: int, email: string)
    requires st.WellFormed() && SequenceLaunched(st, s, audience, start, now).Some?
    ensures var after, row := SequenceLaunched(st, s, audience, start, now).value, st.sequences[s];
      && after == st.(enrollments := after.enrollments, sequences := st.sequences[s := row.(
           status := Running, startedAt := Some(if row.startedAt.Some? then row.startedAt.value else now))])
      && st.enrollments <= after.enrollments
      && (forall e :: |st.enrollments| <= e < |after.enrollments| ==>
            IsFresh(after.enrollments[e], s, start + row.steps[0].offsetHours * 3600))
      && (IsEnrolled(after.enrollments, s, email) <==>
            || IsEnrolled(st.enrollments, s, email)
            || (email in audience && !IsOut(st.unsubscribed, email)))
  {
    SubscribedExact(st.unsubscribed, audience, email);
    EnrolledAll(st.enrollments, s, Subscribed(st.unsubscribed, audience),
                start + st.sequences[s].steps[0].offsetHours * HOUR, email);
  }

  // ---------------------------------------------------------------- one enrollment

  /** The call finds an email to send. */
  predicate Mails(st: State, e: nat, now: Conditions)
    requires st.WellFormed() && e < |st.enrollments|
  {
    var row, s := st.enrollments[e], st.sequences[st.enrollments[e].sequence];
    && !IsOut(st.unsubscribed, row.email) && !(s.skipIfConverted && now.converted)
    && row.step < |s.steps| && s.steps[row.step].templateExists
  }

  /** The call is about a step, and sends no email for it. */
  predicate Fails(st: State, e: nat, now: Conditions)
    requires st.WellFormed() && e < |st.enrollments|
  {
    var row, s := st.enrollments[e], st.sequences[st.enrollments[e].sequence];
    && !IsOut(st.unsubscribed, row.email) && !(s.skipIfConverted && now.converted)
    && row.step < |s.steps| && !(s.steps[row.step].templateExists && now.sendSucceeds)
  }

  /** Which call ends an enrollment, and how: by an unsubscription, before all else; by a
      conversion, where that counts; when its last email is sent or there is none left; and at
      the third failure. */
  lemma EndExact(st: State, e: nat, now: Conditions)
    requires st.WellFormed() && e < |st.enrollments| && st.enrollments[e].status == Active
    ensures var row, s := st.enrollments[e], st.sequences[st.enrollments[e].sequence];
            var status, out := Processed(st, e, now).enrollments[e].status, IsOut(st.unsubscribed, row.email);
      && (status == Unsubscribed <==> out)
      && (status == Converted <==> !out && s.skipIfConverted && now.converted)
      && (status == Finished <==>
            && !out && !(s.skipIfConverted && now.converted)
            && (row.step >= |s.steps| || (row.step + 1 == |s.steps| && Mails(st, e, now) && now.sendSucceeds)))
      && (status == GivenUp <==> Fails(st, e, now) && row.attempts + 1 >= 3)
  {
  }

  /** What a call mails and counts, and when the next one is due: an hour after a failure, and
      after a success at the offset of the next step from the start. */
  lemma ScheduleExact(st: State, e: nat, now: Conditions)
    requires st.WellFormed() && e < |st.enrollments| && now.day in st.quotas
    ensures var row, s, after := st.enrollments[e], st.sequences[st.enrollments[e].sequence], Processed(st, e, now);
            var mails, fails, next := Mails(st, e, now), Fails(st, e, now), after.enrollments[e];
            var sent := mails && now.sendSucceeds;
      && after.mailed == (if mails then st.mailed + [e] else st.mailed)
      && after.unsubscribed == (if mails then st.unsubscribed + {Lower(TrimSpace(row.email))} else st.unsubscribed)
      && after.quotas == (if sent then st.quotas[now.day := st.quotas[now.day].(sent := st.quotas[now.day].sent + 1)]
                          else st.quotas)
      && after.campaigns == st.campaigns && after.recipients == st.recipients
      && next.sequence == row.sequence && next.email == row.email
      && next.step == (if sent then row.step + 1 else row.step)
      && next.attempts == (if fails then row.attempts + 1 else row.attempts)
      && (fails && row.attempts + 1 < 3 ==> next.nextSendAt == now.now + 3600)
      && (sent && row.step + 1 < |s.steps| ==>
            next.nextSendAt == (if s.startedAt.Some? then s.startedAt.value else now.now)
                              + s.steps[row.step + 1].offsetHours * 3600)
  {
  }

  /** An email that could not be sent is tried again only for an address with blanks around it:
      for any other, its own token row stops the retry. */
  lemma RetryExact(st: State, e: nat, first: Conditions, second: Conditions)
    requires st.WellFormed() && e < |st.enrollments| && Mails(st, e, first) && !first.sendSucceeds
    requires st.enrollments[e].status == Active && st.enrollments[e].attempts + 1 < 3
    requires !st.sequences[st.enrollments[e].sequence].skipIfConverted
    ensures var once, email := Processed(st, e, first), st.enrollments[e].email;
      && once.WellFormed() && once.mailed == st.mailed + [e]
      && (Processed(once, e, second).mailed == once.mailed + [e] <==> TrimSpace(email) != email)
      && (Processed(once, e, second).enrollments[e].status == Unsubscribed <==> TrimSpace(email) == email)
  {
    var email := st.enrollments[e].email;
    var once := Processed(st, e, first);
    assert once.unsubscribed == st.unsubscribed + {Address(email)};
    LowerIsIdempotent(TrimSpace(email));
    if TrimSpace(email) == email {
      TokenUnsubscribes(once.unsubscribed, email);
    } else {
      assert |Lower(TrimSpace(email))| < |Lower(email)|;
      assert !IsUnsubscribed(once.unsubscribed, email);
    }
  }

  /** A step without a template is tried three times, whatever else happens, and mails nobody. */
  lemma MissingTemplateGivesUp(st: State, e: nat, calls: seq<Conditions>)
    requires st.WellFormed() && e < |st.enrollments| && |calls| == 3
    requires var row, s := st.enrollments[e], st.sequences[st.enrollments[e].sequence];
      && row.status == Active && row.attempts == 0 && !s.skipIfConverted
      && row.step < |s.steps| && !s.steps[row.step].templateExists && !IsOut(st.unsubscribed, row.email)
    ensures var once := Processed(st, e, calls[0]);
      && once.enrollments[e].status == Active
      && once.WellFormed() && var twice := Processed(once, e, calls[1]);
      && twice.enrollments[e].status == Active
      && twice.WellFormed() && var thrice := Processed(twice, e, calls[2]);
      && thrice.enrollments[e].status == GivenUp && thrice.mailed == st.mailed
  {
  }

  /** A sequence is paused while it runs, resumed while it is paused, and canceled while it is
      either or a draft. */
  lemma TransitionsExact(st: State, s: nat)
    requires st.WellFormed() && s < |st.sequences|
    ensures var status := st.sequences[s].status;
      && MarketingRuns.Step(st, Pauses(s)) == (if status == Running
           then st.(sequences := st.sequences[s := st.sequences[s].(status := SequencePaused)]) else st)
      && MarketingRuns.Step(st, Resumes(s)) == (if status == SequencePaused
           then st.(sequences := st.sequences[s := st.sequences[s].(status := Running)]) else st)
      && MarketingRuns.Step(st, Cancels(s)) == (if status in {Running, SequencePaused, SequenceDraft}
           then st.(sequences := st.sequences[s := st.sequences[s].(status := SequenceCancelled)]) else st)
  {
  }
}
