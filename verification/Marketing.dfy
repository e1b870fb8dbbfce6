/** The marketing queue: campaigns and their recipients, the daily quota, and sequences of
    emails. A table is the sequence of its rows, and the id of a row is its index. What the
    mail service answers is an input. */
module Marketing {
  import opened Domain

  const BATCH := 10
  const MAX_ATTEMPTS := 3

  datatype CampaignStatus = Draft | Paused | Sending | CampaignCompleted

  datatype RecipientStatus = Waiting | Sent | Bounced

  datatype Campaign = Campaign(status: CampaignStatus, total: int, sent: int, failed: int, pending: int)

  datatype Recipient = Recipient(campaign: nat, email: string, status: RecipientStatus)

  datatype Quota = Quota(sent: int, limit: int)

  datatype SequenceStatus = SequenceDraft | Running | SequencePaused | SequenceCancelled | SequenceCompleted

  /** A step names a template, which exists or not, and when it is due after the start. */
  datatype Step = Step(templateExists: bool, offsetHours: int)

  datatype Sequence = Sequence(status: SequenceStatus, skipIfConverted: bool, steps: seq<Step>, startedAt: Option<int>)

  datatype EnrollmentStatus = Active | Finished | Unsubscribed | Converted | GivenUp

  datatype Enrollment = Enrollment(
    sequence: nat, email: string, step: nat, attempts: nat, nextSendAt: int, status: EnrollmentStatus)

  /** The tables, and `mailed`: the enrollments for which the mail service was called, in
      turn. The mail service is called for nothing else in a sequence. */
  datatype State = State(
    campaigns: seq<Campaign>,
    recipients: seq<Recipient>,
    quotas: map<int, Quota>,
    unsubscribed: set<string>,
    sequences: seq<Sequence>,
    enrollments: seq<Enrollment>,
    mailed: seq<nat>
  ) {
    predicate WellFormed() {
      && (forall r :: 0 <= r < |recipients| ==> recipients[r].campaign < |campaigns|)
      && (forall e :: 0 <= e < |enrollments| ==> enrollments[e].sequence < |sequences|)
    }
  }

  // ---------------------------------------------------------------- addresses

  predicate IsSpace(c: char) {
    c == ' ' || '\t' <= c <= '\r'
  }

  function TrimLeft(s: string): (r: string)
    ensures |r| <= |s| && (|r| == |s| ==> r == s)
  {
    if |s| > 0 && IsSpace(s[0]) then TrimLeft(s[1..]) else s
  }

  function TrimRight(s: string): (r: string)
    ensures |r| <= |s| && (|r| == |s| ==> r == s)
  {
    if |s| > 0 && IsSpace(s[|s| - 1]) then TrimRight(s[..|s| - 1]) else s
  }

  /** strings.TrimSpace, for ASCII. */
  function TrimSpace(s: string): (r: string)
    ensures |r| <= |s| && (|r| == |s| ==> r == s)
  {
    TrimRight(TrimLeft(s))
  }

  /** The key under which an unsubscribe token is stored. */
  function Address(email: string): string {
    Lower(TrimSpace(email))
  }

  predicate IsUnsubscribed(unsubscribed: set<string>, email: string) {
    exists u :: u in unsubscribed && Lower(u) == Lower(email)
  }

  // ---------------------------------------------------------------- the quota

  /** getRemainingQuota creates the row of the day. */
  function Opened(st: State, day: int, limit: int): State {
    if day in st.quotas then st else st.(quotas := st.quotas[day := Quota(0, limit)])
  }

  function Remaining(quotas: map<int, Quota>, day: int, limit: int): int {
    if day !in quotas then limit
    else (if limit < quotas[day].limit then limit else quotas[day].limit) - quotas[day].sent
  }

  function Counted(quotas: map<int, Quota>, day: int, limit: int): map<int, Quota> {
    if day in quotas then quotas[day := quotas[day].(sent := quotas[day].sent + 1)]
    else quotas[day := Quota(1, limit)]
  }

  // ---------------------------------------------------------------- campaigns

  /** One email of a campaign. Its token row is written before it is sent. */
  function Deliver(st: State, r: nat, ok: bool, day: int, limit: int): State
    requires st.WellFormed() && r < |st.recipients|
  {
    var recipient := st.recipients[r];
    var c := st.campaigns[recipient.campaign];
    var row := if ok then c.(sent := c.sent + 1, pending := c.pending - 1)
               else c.(failed := c.failed + 1, pending := c.pending - 1);
    st.(
      unsubscribed := st.unsubscribed + {Address(recipient.email)},
      recipients := st.recipients[r := recipient.(status := if ok then Sent else Bounced)],
      campaigns := st.campaigns[recipient.campaign := row],
      quotas := if ok then Counted(st.quotas, day, limit) else st.quotas)
  }

  /** The first waiting recipients of a campaign, from id `from` on. */
  function Batch(recipients: seq<Recipient>, c: nat, from: nat, size: int): (batch: seq<nat>)
    requires from <= |recipients|
    ensures forall i :: 0 <= i < |batch| ==>
              && from <= batch[i] < |recipients|
              && recipients[batch[i]].campaign == c && recipients[batch[i]].status == Waiting
    ensures forall i, j :: 0 <= i < j < |batch| ==> batch[i] < batch[j]
    ensures size > 0 && batch == [] ==>
              forall r :: from <= r < |recipients| ==> recipients[r].campaign != c || recipients[r].status != Waiting
    decreases |recipients| - from
  {
    if from == |recipients| || size <= 0 then []
    else if recipients[from].campaign == c && recipients[from].status == Waiting
    then [from] + Batch(recipients, c, from + 1, size - 1)
    else Batch(recipients, c, from + 1, size)
  }

  datatype Served = Served(st: State, remaining: int)

  /** The mails of a batch, until the quota is used up. */
  function DeliverAll(st: State, batch: seq<nat>, bounces: set<nat>, remaining: int, day: int, limit: int): (r: Served)
    requires st.WellFormed() && forall i :: 0 <= i < |batch| ==> batch[i] < |st.recipients|
    ensures r.st.WellFormed() && |r.st.recipients| == |st.recipients| && |r.st.campaigns| == |st.campaigns|
    ensures r.st.enrollments == st.enrollments && st.unsubscribed <= r.st.unsubscribed
    decreases |batch|
  {
    if |batch| == 0 || remaining <= 0 then Served(st, remaining)
    else
      var ok := batch[0] !in bounces;
      DeliverAll(Deliver(st, batch[0], ok, day, limit), batch[1..], bounces,
                 if ok then remaining - 1 else remaining, day, limit)
  }

  function BatchSize(remaining: int): int {
    if remaining > BATCH then BATCH else remaining
  }

  /** One campaign in a tick: a batch of its recipients, or its completion. */
  function Serve(st: State, c: nat, bounces: set<nat>, remaining: int, day: int, limit: int): (r: Served)
    requires st.WellFormed() && c < |st.campaigns|
    ensures r.st.WellFormed() && |r.st.recipients| == |st.recipients| && |r.st.campaigns| == |st.campaigns|
    ensures r.st.enrollments == st.enrollments && st.unsubscribed <= r.st.unsubscribed
  {
    var batch := Batch(st.recipients, c, 0, BatchSize(remaining));
    if batch == []
    then Served(st.(campaigns := st.campaigns[c := st.campaigns[c].(status := CampaignCompleted)]), remaining)
    else DeliverAll(st, batch, bounces, remaining, day, limit)
  }

  function ServeAll(st: State, order: seq<nat>, bounces: set<nat>, remaining: int, day: int, limit: int): (r: Served)
    requires st.WellFormed() && forall i :: 0 <= i < |order| ==> order[i] < |st.campaigns|
    ensures r.st.WellFormed() && |r.st.recipients| == |st.recipients|
    ensures r.st.enrollments == st.enrollments && st.unsubscribed <= r.st.unsubscribed
    decreases |order|
  {
    if |order| == 0 || remaining <= 0 then Served(st, remaining)
    else
      var first := Serve(st, order[0], bounces, remaining, day, limit);
      ServeAll(first.st, order[1..], bounces, first.remaining, day, limit)
  }

  /** The campaigns that are being sent, in the order they were started. */
  predicate IsQueue(st: State, order: seq<nat>) {
    && (forall i :: 0 <= i < |order| ==> order[i] < |st.campaigns| && st.campaigns[order[i]].status == Sending)
    && (forall i, j :: 0 <= i < j < |order| ==> order[i] != order[j])
  }

  /** processQueue, within one quota day. */
  function QueueTick(st: State, order: seq<nat>, bounces: set<nat>, day: int, limit: int): (r: State)
    requires st.WellFormed() && IsQueue(st, order)
    ensures r.WellFormed() && |r.recipients| == |st.recipients|
    ensures r.enrollments == st.enrollments && st.unsubscribed <= r.unsubscribed
  {
    var remaining := Remaining(st.quotas, day, limit);
    if remaining <= 0 then Opened(st, day, limit)
    else ServeAll(Opened(st, day, limit), order, bounces, remaining, day, limit).st
  }

  predicate IsRecipient(recipients: seq<Recipient>, c: nat, email: string) {
    exists r :: 0 <= r < |recipients| && recipients[r].campaign == c && recipients[r].email == email
  }

  /** INSERT ... ON CONFLICT (campaign_id, email) DO NOTHING, one after the other. */
  function Inserted(recipients: seq<Recipient>, c: nat, emails: seq<string>): seq<Recipient> {
    if |emails| == 0 then recipients
    else
      var before := Inserted(recipients, c, emails[..|emails| - 1]);
      var email := emails[|emails| - 1];
      if IsRecipient(before, c, email) then before else before + [Recipient(c, email, Waiting)]
  }

  function Subscribed(unsubscribed: set<string>, emails: seq<string>): seq<string> {
    if |emails| == 0 then []
    else
      var last := emails[|emails| - 1];
      Subscribed(unsubscribed, emails[..|emails| - 1]) + if IsUnsubscribed(unsubscribed, last) then [] else [last]
  }

  /** SendCampaign; None when it is refused. */
  function Launched(st: State, c: nat, audience: seq<string>): Option<State>
    requires st.WellFormed()
  {
    if c >= |st.campaigns| || (st.campaigns[c].status != Draft && st.campaigns[c].status != Paused) then None
    else
      var emails := Subscribed(st.unsubscribed, audience);
      if |emails| == 0 then None
      else Some(st.(
        recipients := Inserted(st.recipients, c, emails),
        campaigns := st.campaigns[c := st.campaigns[c].(status := Sending, total := |emails|, pending := |emails|)]))
  }

  // ---------------------------------------------------------------- sequences

  /** What one call of processOneEnrollment meets. */
  datatype Conditions = Conditions(converted: bool, sendSucceeds: bool, now: int, day: int, limit: int)

  function WithEnrollment(st: State, e: nat, row: Enrollment): State
    requires e < |st.enrollments|
  {
    st.(enrollments := st.enrollments[e := row])
  }

  function FailedAttempt(st: State, e: nat, now: int): State
    requires e < |st.enrollments|
  {
    var row := st.enrollments[e];
    if row.attempts + 1 >= MAX_ATTEMPTS
    then WithEnrollment(st, e, row.(attempts := row.attempts + 1, status := GivenUp))
    else WithEnrollment(st, e, row.(attempts := row.attempts + 1, nextSendAt := now + HOUR))
  }

  predicate HasActive(enrollments: seq<Enrollment>, s: nat) {
    exists e :: 0 <= e < |enrollments| && enrollments[e].sequence == s && enrollments[e].status == Active
  }

  function MaybeCompleted(st: State, s: nat): State
    requires s < |st.sequences|
  {
    if HasActive(st.enrollments, s) then st
    else st.(sequences := st.sequences[s := st.sequences[s].(status := SequenceCompleted)])
  }

  /** processOneEnrollment. */
  function Processed(st: State, e: nat, now: Conditions): (r: State)
    requires st.WellFormed() && e < |st.enrollments|
  {
    var row := st.enrollments[e];
    var s := st.sequences[row.sequence];
    if IsUnsubscribed(st.unsubscribed, row.email) then WithEnrollment(st, e, row.(status := Unsubscribed))
    else if s.skipIfConverted && now.converted then WithEnrollment(st, e, row.(status := Converted))
    else if row.step >= |s.steps| then
      MaybeCompleted(WithEnrollment(st, e, row.(status := Finished)), row.sequence)
    else if !s.steps[row.step].templateExists then FailedAttempt(st, e, now.now)
    else
      var tokened := st.(unsubscribed := st.unsubscribed + {Address(row.email)}, mailed := st.mailed + [e]);
      if !now.sendSucceeds then FailedAttempt(tokened, e, now.now)
      else if row.step + 1 >= |s.steps| then
        var done := WithEnrollment(tokened, e, row.(step := row.step + 1, status := Finished));
        MaybeCompleted(done, row.sequence).(quotas := Counted(st.quotas, now.day, now.limit))
      else
        var start := if s.startedAt.Some? then s.startedAt.value else now.now;
        var due := start + s.steps[row.step + 1].offsetHours * HOUR;
        WithEnrollment(tokened, e, row.(step := row.step + 1, nextSendAt := due))
          .(quotas := Counted(st.quotas, now.day, now.limit))
  }

  predicate IsDue(st: State, e: nat, now: int)
    requires st.WellFormed() && e < |st.enrollments|
  {
    && st.enrollments[e].status == Active && st.enrollments[e].nextSendAt <= now
    && st.sequences[st.enrollments[e].sequence].status == Running
  }

  /** The due enrollments of a tick: different ones, no more than the batch and the quota. */
  predicate IsDueList(st: State, due: seq<nat>, now: Conditions)
    requires st.WellFormed()
  {
    && (forall i :: 0 <= i < |due| ==> due[i] < |st.enrollments| && IsDue(st, due[i], now.now))
    && (forall i, j :: 0 <= i < j < |due| ==> due[i] != due[j])
    && (|due| > 0 ==> |due| <= BatchSize(Remaining(st.quotas, now.day, now.limit)))
  }

  function ProcessedAll(st: State, due: seq<nat>, conditions: seq<Conditions>): (r: State)
    requires st.WellFormed() && |due| == |conditions| && forall i :: 0 <= i < |due| ==> due[i] < |st.enrollments|
    ensures r.WellFormed() && |r.enrollments| == |st.enrollments|
    ensures r.recipients == st.recipients && st.unsubscribed <= r.unsubscribed
    decreases |due|
  {
    if |due| == 0 then st
    else ProcessedAll(Processed(st, due[0], conditions[0]), due[1..], conditions[1..])
  }

  predicate IsEnrolled(enrollments: seq<Enrollment>, s: nat, email: string) {
    exists e :: 0 <= e < |enrollments| && enrollments[e].sequence == s && enrollments[e].email == email
  }

  function Enrolled(enrollments: seq<Enrollment>, s: nat, emails: seq<string>, due: int): seq<Enrollment> {
    if |emails| == 0 then enrollments
    else
      var before := Enrolled(enrollments, s, emails[..|emails| - 1], due);
      var email := emails[|emails| - 1];
      if IsEnrolled(before, s, email) then before else before + [Enrollment(s, email, 0, 0, due, Active)]
  }

  /** LaunchSequence; None when it is refused. */
  function SequenceLaunched(st: State, s: nat, audience: seq<string>, start: int, now: int): Option<State>
    requires st.WellFormed()
  {
    if s >= |st.sequences| || (st.sequences[s].status != SequenceDraft && st.sequences[s].status != SequencePaused)
       || |st.sequences[s].steps| == 0
    then None
    else
      var emails := Subscribed(st.unsubscribed, audience);
      if |emails| == 0 then None
      else
        var row := st.sequences[s];
        Some(st.(
          enrollments := Enrolled(st.enrollments, s, emails, start + row.steps[0].offsetHours * HOUR),
          sequences := st.sequences[s := row.(
            status := Running, startedAt := if row.startedAt.Some? then row.startedAt else Some(now))]))
  }
}
