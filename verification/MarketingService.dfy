/** The marketing services as they run: tables updated row by row, each method leaving
    exactly the state of the function that specifies it. */
module MarketingService {
  import opened Domain
  import opened Marketing

  class Service {
    var campaigns: seq<Campaign>
    var recipients: seq<Recipient>
    var quotas: map<int, Quota>
    var unsubscribed: set<string>
    var sequences: seq<Sequence>
    var enrollments: seq<Enrollment>
    ghost var mailed: seq<nat>

    ghost function Snapshot(): State
      reads this
    {
      State(campaigns, recipients, quotas, unsubscribed, sequences, enrollments, mailed)
    }

    ghost predicate Valid()
      reads this
    {
      Snapshot().WellFormed()
    }

    constructor ()
      ensures Valid() && Snapshot() == State([], [], map[], {}, [], [], [])
    {
      campaigns, recipients, quotas, unsubscribed, sequences, enrollments, mailed := [], [], map[], {}, [], [], [];
    }

    // -------------------------------------------------------------- quota

    method GetRemainingQuota(day: int, limit: int) returns (remaining: int)
      modifies this`quotas
      ensures Snapshot() == Opened(old(Snapshot()), day, limit)
      ensures remaining == Remaining(old(quotas), day, limit)
    {
      if day !in quotas {
        quotas := quotas[day := Quota(0, limit)];
        return limit;
      }
      var dailyLimit := quotas[day].limit;
      if limit < dailyLimit {
        dailyLimit := limit;
      }
      return dailyLimit - quotas[day].sent;
    }

    method IncrementQuota(day: int, limit: int)
      modifies this`quotas
      ensures quotas == Counted(old(quotas), day, limit)
    {
      if day in quotas {
        quotas := quotas[day := quotas[day].(sent := quotas[day].sent + 1)];
      } else {
        quotas := quotas[day := Quota(1, limit)];
      }
    }

    // -------------------------------------------------------------- campaigns

    method SendOne(r: nat, ok: bool, day: int, limit: int)
      requires Valid() && r < |recipients|
      modifies this
      ensures Valid()
      ensures Snapshot() == Deliver(old(Snapshot()), r, ok, day, limit)
    {
      var recipient := recipients[r];
      var c := recipient.campaign;
      unsubscribed := unsubscribed + {Address(recipient.email)};
      if !ok {
        recipients := recipients[r := recipient.(status := Bounced)];
        campaigns := campaigns[c := campaigns[c].(
          failed := campaigns[c].failed + 1, pending := campaigns[c].pending - 1)];
      } else {
        recipients := recipients[r := recipient.(status := Sent)];
        campaigns := campaigns[c := campaigns[c].(sent := campaigns[c].sent + 1, pending := campaigns[c].pending - 1)];
        IncrementQuota(day, limit);
      }
    }

    /** The inner loop of processQueue: the recipients of one batch. */
    method SendBatch(batch: seq<nat>, bounces: set<nat>, quota: int, day: int, limit: int) returns (remaining: int)
      requires Valid() && forall i :: 0 <= i < |batch| ==> batch[i] < |recipients|
      modifies this
      ensures Valid()
      ensures Served(Snapshot(), remaining) == DeliverAll(old(Snapshot()), batch, bounces, quota, day, limit)
    {
      remaining := quota;
      for i := 0 to |batch|
        invariant Valid() && |recipients| == |old(recipients)|
        invariant DeliverAll(Snapshot(), batch[i..], bounces, remaining, day, limit)
               == DeliverAll(old(Snapshot()), batch, bounces, quota, day, limit)
      {
        if remaining <= 0 {
          break;
        }
        assert batch[i..][1..] == batch[i + 1..];
        SendOne(batch[i], batch[i] !in bounces, day, limit);
        if batch[i] !in bounces {
          remaining := remaining - 1;
        }
      }
    }

    method CompleteCampaign(c: nat)
      requires c < |campaigns|
      modifies this`campaigns
      ensures campaigns == old(campaigns)[c := old(campaigns)[c].(status := CampaignCompleted)]
    {
      campaigns := campaigns[c := campaigns[c].(status := CampaignCompleted)];
    }

    method ServeCampaign(c: nat, bounces: set<nat>, quota: int, day: int, limit: int) returns (remaining: int)
      requires Valid() && c < |campaigns|
      modifies this
      ensures Valid()
      ensures Served(Snapshot(), remaining) == Serve(old(Snapshot()), c, bounces, quota, day, limit)
    {
      var size := quota;
      if size > BATCH {
        size := BATCH;
      }
      var batch := Batch(recipients, c, 0, size);
      if |batch| == 0 {
        CompleteCampaign(c);
        return quota;
      }
      remaining := SendBatch(batch, bounces, quota, day, limit);
    }

    method ProcessQueue(order: seq<nat>, bounces: set<nat>, day: int, limit: int)
      requires Valid() && IsQueue(Snapshot(), order)
      modifies this
      ensures Valid()
      ensures Snapshot() == QueueTick(old(Snapshot()), order, bounces, day, limit)
    {
      var remaining := GetRemainingQuota(day, limit);
      if remaining <= 0 {
        return;
      }
      ghost var start, quota := Snapshot(), remaining;
      for i := 0 to |order|
        invariant Valid() && |campaigns| == |start.campaigns|
        invariant ServeAll(Snapshot(), order[i..], bounces, remaining, day, limit)
               == ServeAll(start, order, bounces, quota, day, limit)
      {
        if remaining <= 0 {
          break;
        }
        assert order[i..][1..] == order[i + 1..];
        remaining := ServeCampaign(order[i], bounces, remaining, day, limit);
      }
    }

    method SendCampaign(c: nat, audience: seq<string>) returns (ok: bool)
      requires Valid()
      modifies this
      ensures ok == Launched(old(Snapshot()), c, audience).Some?
      ensures Snapshot() == if ok then Launched(old(Snapshot()), c, audience).value else old(Snapshot())
    {
      if c >= |campaigns| || (campaigns[c].status != Draft && campaigns[c].status != Paused) {
        return false;
      }
      var emails := Subscribed(unsubscribed, audience);
      if |emails| == 0 {
        return false;
      }
      ghost var before := recipients;
      for i := 0 to |emails|
        invariant recipients == Inserted(before, c, emails[..i])
        invariant Snapshot() == old(Snapshot()).(recipients := recipients)
      {
        assert emails[..i + 1][..i] == emails[..i];
        if !IsRecipient(recipients, c, emails[i]) {
          recipients := recipients + [Recipient(c, emails[i], Waiting)];
        }
      }
      assert emails[..|emails|] == emails;
      campaigns := campaigns[c := campaigns[c].(status := Sending, total := |emails|, pending := |emails|)];
      return true;
    }

    // -------------------------------------------------------------- sequences

    method LaunchSequence(s: nat, audience: seq<string>, start: int, now: int) returns (ok: bool)
      requires Valid()
      modifies this
      ensures ok == SequenceLaunched(old(Snapshot()), s, audience, start, now).Some?
      ensures Snapshot() == if ok then SequenceLaunched(old(Snapshot()), s, audience, start, now).value
                            else old(Snapshot())
    {
      if s >= |sequences| || (sequences[s].status != SequenceDraft && sequences[s].status != SequencePaused)
         || |sequences[s].steps| == 0 {
        return false;
      }
      var emails := Subscribed(unsubscribed, audience);
      if |emails| == 0 {
        return false;
      }
      var nextSendAt := start + sequences[s].steps[0].offsetHours * HOUR;
      ghost var before := enrollments;
      for i := 0 to |emails|
        invariant enrollments == Enrolled(before, s, emails[..i], nextSendAt)
        invariant Snapshot() == old(Snapshot()).(enrollments := enrollments)
      {
        assert emails[..i + 1][..i] == emails[..i];
        if !IsEnrolled(enrollments, s, emails[i]) {
          enrollments := enrollments + [Enrollment(s, emails[i], 0, 0, nextSendAt, Active)];
        }
      }
      assert emails[..|emails|] == emails;
      var startedAt := sequences[s].startedAt;
      if startedAt.None? {
        startedAt := Some(now);
      }
      sequences := sequences[s := sequences[s].(status := Running, startedAt := startedAt)];
      return true;
    }

    method MarkEnrollmentFailed(e: nat, now: int)
      requires e < |enrollments|
      modifies this`enrollments
      ensures Snapshot() == FailedAttempt(old(Snapshot()), e, now)
    {
      var newAttempts := enrollments[e].attempts + 1;
      if newAttempts >= MAX_ATTEMPTS {
        enrollments := enrollments[e := enrollments[e].(attempts := newAttempts, status := GivenUp)];
      } else {
        enrollments := enrollments[e := enrollments[e].(attempts := newAttempts, nextSendAt := now + HOUR)];
      }
    }

    method MaybeCompleteSequence(s: nat)
      requires s < |sequences|
      modifies this`sequences
      ensures Snapshot() == MaybeCompleted(old(Snapshot()), s)
    {
      if HasActive(enrollments, s) {
        return;
      }
      sequences := sequences[s := sequences[s].(status := SequenceCompleted)];
    }

    method ProcessOneEnrollment(e: nat, now: Conditions)
      requires Valid() && e < |enrollments|
      modifies this
      ensures Valid() && Snapshot() == Processed(old(Snapshot()), e, now)
    {
      var row := enrollments[e];
      if IsUnsubscribed(unsubscribed, row.email) {
        enrollments := enrollments[e := row.(status := Unsubscribed)];
        return;
      }
      var s := sequences[row.sequence];
      if s.skipIfConverted && now.converted {
        enrollments := enrollments[e := row.(status := Converted)];
        return;
      }
      if row.step >= |s.steps| {
        enrollments := enrollments[e := row.(status := Finished)];
        MaybeCompleteSequence(row.sequence);
        return;
      }
      if !s.steps[row.step].templateExists {
        MarkEnrollmentFailed(e, now.now);
        return;
      }
      unsubscribed := unsubscribed + {Address(row.email)};
      mailed := mailed + [e];
      if !now.sendSucceeds {
        MarkEnrollmentFailed(e, now.now);
        return;
      }
      if row.step + 1 >= |s.steps| {
        enrollments := enrollments[e := row.(step := row.step + 1, status := Finished)];
        MaybeCompleteSequence(row.sequence);
        IncrementQuota(now.day, now.limit);
        return;
      }
      var base := now.now;
      if s.startedAt.Some? {
        base := s.startedAt.value;
      }
      var newNextSendAt := base + s.steps[row.step + 1].offsetHours * HOUR;
      enrollments := enrollments[e := row.(step := row.step + 1, nextSendAt := newNextSendAt)];
      IncrementQuota(now.day, now.limit);
    }

    /** The loop of processSequenceTick over the due enrollments. */
    method ProcessDue(due: seq<nat>, conditions: seq<Conditions>)
      requires Valid() && |due| == |conditions| && forall i :: 0 <= i < |due| ==> due[i] < |enrollments|
      modifies this
      ensures Valid() && Snapshot() == ProcessedAll(old(Snapshot()), due, conditions)
    {
      for i := 0 to |due|
        invariant Valid() && |enrollments| == |old(enrollments)|
        invariant ProcessedAll(Snapshot(), due[i..], conditions[i..]) == ProcessedAll(old(Snapshot()), due, conditions)
      {
        assert due[i..][1..] == due[i + 1..] && conditions[i..][1..] == conditions[i + 1..];
        ProcessOneEnrollment(due[i], conditions[i]);
      }
    }
  }
}
