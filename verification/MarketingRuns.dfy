/** What the marketing queue keeps over whole runs, and where it stops short of its intent. */
module MarketingRuns {
  import opened Domain
  import opened Marketing

  // ---------------------------------------------------------------- runs

  datatype Event =
    | CreatesCampaign
    | Launches(campaign: nat, audience: seq<string>)
    | Ticks(order: seq<nat>, bounces: set<nat>, day: int, limit: int)
    | CreatesSequence(skipIfConverted: bool, steps: seq<Marketing.Step>)
    | LaunchesSequence(sequence: nat, audience: seq<string>, start: int, at: int)
    | Pauses(sequence: nat)
    | Resumes(sequence: nat)
    | Cancels(sequence: nat)
    | SequenceTicks(due: seq<nat>, conditions: seq<Conditions>, now: Conditions)

  const EMPTY := State([], [], map[], {}, [], [], [])

  predicate Distinct<T(==)>(s: seq<T>) {
    forall i, j :: 0 <= i < j < |s| ==> s[i] != s[j]
  }

  /** What the database guarantees of a call: the audience is a set, the queue and the due
      list are those of the state, a tick stays within one day, and limits are not negative. */
  predicate Possible(st: State, e: Event)
    requires st.WellFormed()
  {
    match e
    case Launches(_, audience) => Distinct(audience)
    case Ticks(order, _, _, limit) => IsQueue(st, order) && limit >= 0
    case SequenceTicks(due, conditions, now) =>
      && IsDueList(st, due, now) && |due| == |conditions| && now.limit >= 0
      && forall i :: 0 <= i < |conditions| ==> conditions[i].day == now.day && conditions[i].limit == now.limit
    case _ => true
  }

  function WithStatus(st: State, s: nat, from: set<SequenceStatus>, to: SequenceStatus): State {
    if s < |st.sequences| && st.sequences[s].status in from
    then st.(sequences := st.sequences[s := st.sequences[s].(status := to)]) else st
  }

  function Step(st: State, e: Event): State
    requires st.WellFormed() && Possible(st, e)
  {
    match e
    case CreatesCampaign => st.(campaigns := st.campaigns + [Campaign(Draft, 0, 0, 0, 0)])
    case Launches(c, audience) => var r := Launched(st, c, audience); if r.Some? then r.value else st
    case Ticks(order, bounces, day, limit) => QueueTick(st, order, bounces, day, limit)
    case CreatesSequence(skip, steps) => st.(sequences := st.sequences + [Sequence(SequenceDraft, skip, steps, None)])
    case LaunchesSequence(s, audience, start, now) =>
      var r := SequenceLaunched(st, s, audience, start, now); if r.Some? then r.value else st
    case Pauses(s) => WithStatus(st, s, {Running}, SequencePaused)
    case Resumes(s) => WithStatus(st, s, {SequencePaused}, Running)
    case Cancels(s) => WithStatus(st, s, {Running, SequencePaused, SequenceDraft}, SequenceCancelled)
    case SequenceTicks(due, conditions, now) => ProcessedAll(Opened(st, now.day, now.limit), due, conditions)
  }

  // ---------------------------------------------------------------- the invariant

  function CountOf(recipients: seq<Recipient>, c: nat, status: RecipientStatus): nat {
    if |recipients| == 0 then 0
    else
      var last := recipients[|recipients| - 1];
      CountOf(recipients[..|recipients| - 1], c, status) + if last.campaign == c && last.status == status then 1 else 0
  }

  /** The counters of a campaign are the numbers of its recipients. */
  predicate Accounted(row: Campaign, recipients: seq<Recipient>, c: nat) {
    && row.sent == CountOf(recipients, c, Sent)
    && row.failed == CountOf(recipients, c, Bounced)
    && row.pending == CountOf(recipients, c, Waiting)
    && row.total == row.sent + row.failed + row.pending
    && row.status != Paused
    && (row.status == Draft ==> forall r :: 0 <= r < |recipients| ==> recipients[r].campaign != c)
    && (row.status == CampaignCompleted ==> row.pending == 0)
  }

  predicate QuotasOk(quotas: map<int, Quota>) {
    forall day :: day in quotas ==> 0 <= quotas[day].sent <= quotas[day].limit
  }

  predicate EnrollmentOk(row: Enrollment, sequences: seq<Sequence>) {
    row.sequence < |sequences|
    && (row.status == Active ==> sequences[row.sequence].status != SequenceCompleted && row.attempts < MAX_ATTEMPTS)
  }

  /** Every mailed address has a token row, and only an address with blanks around it can
      have been mailed twice. */
  predicate MailedOk(mailed: seq<nat>, enrollments: seq<Enrollment>, unsubscribed: set<string>) {
    && (forall i :: 0 <= i < |mailed| ==>
          mailed[i] < |enrollments| && Address(enrollments[mailed[i]].email) in unsubscribed)
    && (forall i, j :: 0 <= i < j < |mailed| && mailed[i] == mailed[j] ==>
          TrimSpace(enrollments[mailed[i]].email) != enrollments[mailed[i]].email)
  }

  /** Every address that a campaign has mailed has a token row. */
  predicate RecipientsOk(recipients: seq<Recipient>, unsubscribed: set<string>) {
    forall r :: 0 <= r < |recipients| && recipients[r].status != Waiting ==>
      Address(recipients[r].email) in unsubscribed
  }

  ghost predicate Ok(st: State) {
    && st.WellFormed()
    && (forall c :: 0 <= c < |st.campaigns| ==> Accounted(st.campaigns[c], st.recipients, c))
    && QuotasOk(st.quotas)
    && (forall e :: 0 <= e < |st.enrollments| ==> EnrollmentOk(st.enrollments[e], st.sequences))
    && MailedOk(st.mailed, st.enrollments, st.unsubscribed)
    && RecipientsOk(st.recipients, st.unsubscribed)
  }

  // ---------------------------------------------------------------- counting

  lemma {:induction false} CountUpdate(recipients: seq<Recipient>, r: nat, row: Recipient, c: nat,
                                       status: RecipientStatus)
    requires r < |recipients|
    ensures CountOf(recipients[r := row], c, status)
         == CountOf(recipients, c, status)
            - (if recipients[r].campaign == c && recipients[r].status == status then 1 else 0)
            + (if row.campaign == c && row.status == status then 1 else 0)
  {
    var n := |recipients| - 1;
    if r == n {
      assert recipients[r := row][..n] == recipients[..n];
    } else {
      assert recipients[r := row][..n] == recipients[..n][r := row];
      CountUpdate(recipients[..n], r, row, c, status);
    }
  }

  lemma CountAppend(recipients: seq<Recipient>, row: Recipient, c: nat, status: RecipientStatus)
    ensures CountOf(recipients + [row], c, status)
         == CountOf(recipients, c, status) + if row.campaign == c && row.status == status then 1 else 0
  {
    assert (recipients + [row])[..|recipients|] == recipients;
  }

  lemma {:induction false} CountNone(recipients: seq<Recipient>, c: nat, status: RecipientStatus)
    requires forall r :: 0 <= r < |recipients| ==> recipients[r].campaign != c || recipients[r].status != status
    ensures CountOf(recipients, c, status) == 0
  {
    if |recipients| > 0 {
      CountNone(recipients[..|recipients| - 1], c, status);
    }
  }

  lemma {:induction false} CountSome(recipients: seq<Recipient>, r: nat)
    requires r < |recipients|
    ensures CountOf(recipients, recipients[r].campaign, recipients[r].status) > 0
  {
    if r < |recipients| - 1 {
      CountSome(recipients[..|recipients| - 1], r);
    }
  }

  // ---------------------------------------------------------------- campaigns

  /** Rows keep their campaign and email, and leave `waiting` at most once. */
  predicate RecipientsEvolve(before: seq<Recipient>, after: seq<Recipient>) {
    && |before| <= |after|
    && forall r :: 0 <= r < |before| ==>
         && after[r].campaign == before[r].campaign && after[r].email == before[r].email
         && (before[r].status != Waiting ==> after[r].status == before[r].status)
  }

  lemma DeliverKeeps(st: State, r: nat, ok: bool, day: int, limit: int)
    requires Ok(st) && r < |st.recipients| && st.recipients[r].status == Waiting
    requires day in st.quotas && st.quotas[day].sent < st.quotas[day].limit
    ensures Ok(Deliver(st, r, ok, day, limit))
    ensures RecipientsEvolve(st.recipients, Deliver(st, r, ok, day, limit).recipients)
  {
    var after := Deliver(st, r, ok, day, limit);
    var p := st.recipients[r].campaign;
    CountSome(st.recipients, r);
    forall c | 0 <= c < |after.campaigns| ensures Accounted(after.campaigns[c], after.recipients, c) {
      assert Accounted(st.campaigns[c], st.recipients, c);
      CountUpdate(st.recipients, r, after.recipients[r], c, Sent);
      CountUpdate(st.recipients, r, after.recipients[r], c, Bounced);
      CountUpdate(st.recipients, r, after.recipients[r], c, Waiting);
      if after.campaigns[c].status == Draft {
        assert st.recipients[r].campaign != c;
      }
    }
  }

  /** The quota of the day covers what remains. */
  predicate Covers(quotas: map<int, Quota>, day: int, remaining: int) {
    day in quotas && remaining <= quotas[day].limit - quotas[day].sent
  }

  lemma {:induction false} DeliverAllKeeps(st: State, batch: seq<nat>, bounces: set<nat>, remaining: int,
                                           day: int, limit: int)
    requires Ok(st) && Covers(st.quotas, day, remaining) && Distinct(batch)
    requires forall i :: 0 <= i < |batch| ==> batch[i] < |st.recipients| && st.recipients[batch[i]].status == Waiting
    ensures var r := DeliverAll(st, batch, bounces, remaining, day, limit);
      Ok(r.st) && Covers(r.st.quotas, day, r.remaining) && RecipientsEvolve(st.recipients, r.st.recipients)
    ensures forall c :: 0 <= c < |st.campaigns| ==>
      DeliverAll(st, batch, bounces, remaining, day, limit).st.campaigns[c].status == st.campaigns[c].status
    decreases |batch|
  {
    if |batch| > 0 && remaining > 0 {
      var ok := batch[0] !in bounces;
      DeliverKeeps(st, batch[0], ok, day, limit);
      DeliverAllKeeps(Deliver(st, batch[0], ok, day, limit), batch[1..], bounces,
                      if ok then remaining - 1 else remaining, day, limit);
    }
  }

  lemma CompleteKeeps(st: State, c: nat)
    requires Ok(st) && c < |st.campaigns| && st.campaigns[c].status == Sending
    requires forall r :: 0 <= r < |st.recipients| ==>
               st.recipients[r].campaign != c || st.recipients[r].status != Waiting
    ensures Ok(st.(campaigns := st.campaigns[c := st.campaigns[c].(status := CampaignCompleted)]))
  {
    CountNone(st.recipients, c, Waiting);
    var after := st.(campaigns := st.campaigns[c := st.campaigns[c].(status := CampaignCompleted)]);
    forall d | 0 <= d < |after.campaigns| ensures Accounted(after.campaigns[d], after.recipients, d) {
      assert Accounted(st.campaigns[d], st.recipients, d);
    }
  }

  lemma ServeKeeps(st: State, c: nat, bounces: set<nat>, remaining: int, day: int, limit: int)
    requires Ok(st) && c < |st.campaigns| && st.campaigns[c].status == Sending
    requires Covers(st.quotas, day, remaining) && remaining > 0
    ensures var r := Serve(st, c, bounces, remaining, day, limit);
      && Ok(r.st) && Covers(r.st.quotas, day, r.remaining) && RecipientsEvolve(st.recipients, r.st.recipients)
      && forall d :: 0 <= d < |st.campaigns| && d != c ==> r.st.campaigns[d].status == st.campaigns[d].status
  {
    var batch := Batch(st.recipients, c, 0, BatchSize(remaining));
    if batch == [] {
      CompleteKeeps(st, c);
    } else {
      DeliverAllKeeps(st, batch, bounces, remaining, day, limit);
    }
  }

  lemma {:induction false} ServeAllKeeps(st: State, order: seq<nat>, bounces: set<nat>, remaining: int,
                                         day: int, limit: int)
    requires Ok(st) && IsQueue(st, order) && Covers(st.quotas, day, remaining)
    ensures var r := ServeAll(st, order, bounces, remaining, day, limit);
      Ok(r.st) && RecipientsEvolve(st.recipients, r.st.recipients)
    decreases |order|
  {
    if |order| > 0 && remaining > 0 {
      var first := Serve(st, order[0], bounces, remaining, day, limit);
      ServeKeeps(st, order[0], bounces, remaining, day, limit);
      assert IsQueue(first.st, order[1..]);
      ServeAllKeeps(first.st, order[1..], bounces, first.remaining, day, limit);
    }
  }

  lemma OpenedKeeps(st: State, day: int, limit: int)
    requires Ok(st) && limit >= 0
    ensures Ok(Opened(st, day, limit)) && Covers(Opened(st, day, limit).quotas, day, Remaining(st.quotas, day, limit))
  {
    var after := Opened(st, day, limit);
    forall c | 0 <= c < |after.campaigns| ensures Accounted(after.campaigns[c], after.recipients, c) {
      assert Accounted(st.campaigns[c], st.recipients, c);
    }
  }

  lemma QueueTickKeeps(st: State, order: seq<nat>, bounces: set<nat>, day: int, limit: int)
    requires Ok(st) && IsQueue(st, order) && limit >= 0
    ensures Ok(QueueTick(st, order, bounces, day, limit))
    ensures RecipientsEvolve(st.recipients, QueueTick(st, order, bounces, day, limit).recipients)
  {
    OpenedKeeps(st, day, limit);
    var remaining := Remaining(st.quotas, day, limit);
    if remaining > 0 {
      ServeAllKeeps(Opened(st, day, limit), order, bounces, remaining, day, limit);
    }
  }

  lemma {:induction false} DeliverAllKeepsSequences(st: State, batch: seq<nat>, bounces: set<nat>, remaining: int,
                                                    day: int, limit: int)
    requires st.WellFormed() && forall i :: 0 <= i < |batch| ==> batch[i] < |st.recipients|
    ensures DeliverAll(st, batch, bounces, remaining, day, limit).st.sequences == st.sequences
    decreases |batch|
  {
    if |batch| > 0 && remaining > 0 {
      var ok := batch[0] !in bounces;
      DeliverAllKeepsSequences(Deliver(st, batch[0], ok, day, limit), batch[1..], bounces,
                               if ok then remaining - 1 else remaining, day, limit);
    }
  }

  lemma {:induction false} ServeAllKeepsSequences(st: State, order: seq<nat>, bounces: set<nat>, remaining: int,
                                                  day: int, limit: int)
    requires st.WellFormed() && forall i :: 0 <= i < |order| ==> order[i] < |st.campaigns|
    ensures ServeAll(st, order, bounces, remaining, day, limit).st.sequences == st.sequences
    decreases |order|
  {
    if |order| > 0 && remaining > 0 {
      var first := Serve(st, order[0], bounces, remaining, day, limit);
      var batch := Batch(st.recipients, order[0], 0, BatchSize(remaining));
      DeliverAllKeepsSequences(st, batch, bounces, remaining, day, limit);
      ServeAllKeepsSequences(first.st, order[1..], bounces, first.remaining, day, limit);
    }
  }

  lemma QueueTickKeepsSequences(st: State, order: seq<nat>, bounces: set<nat>, day: int, limit: int)
    requires st.WellFormed() && IsQueue(st, order)
    ensures QueueTick(st, order, bounces, day, limit).sequences == st.sequences
  {
    ServeAllKeepsSequences(Opened(st, day, limit), order, bounces, Remaining(st.quotas, day, limit), day, limit);
  }

  lemma {:induction false} SubscribedAreDistinct(unsubscribed: set<string>, emails: seq<string>)
    requires Distinct(emails)
    ensures Distinct(Subscribed(unsubscribed, emails))
    ensures forall email :: email in Subscribed(unsubscribed, emails) ==> email in emails
  {
    if |emails| > 0 {
      var rest := emails[..|emails| - 1];
      SubscribedAreDistinct(unsubscribed, rest);
      var kept := Subscribed(unsubscribed, rest);
      forall i | 0 <= i < |kept| ensures kept[i] != emails[|emails| - 1] {
        assert kept[i] in rest;
      }
    }
  }

  /** Inserting distinct emails into a campaign without recipients adds one row for each. */
  lemma {:induction false} InsertedRows(recipients: seq<Recipient>, c: nat, emails: seq<string>, d: nat,
                                        status: RecipientStatus)
    requires Distinct(emails) && forall r :: 0 <= r < |recipients| ==> recipients[r].campaign != c
    ensures var after := Inserted(recipients, c, emails);
      && recipients <= after
      && (forall r :: |recipients| <= r < |after| ==>
            after[r].campaign == c && after[r].email in emails && after[r].status == Waiting)
      && CountOf(after, d, status)
         == CountOf(recipients, d, status) + if d == c && status == Waiting then |emails| else 0
  {
    if |emails| > 0 {
      var rest, email := emails[..|emails| - 1], emails[|emails| - 1];
      InsertedRows(recipients, c, rest, d, status);
      var before := Inserted(recipients, c, rest);
      assert !IsRecipient(before, c, email);
      CountAppend(before, Recipient(c, email, Waiting), d, status);
    }
  }

  /** Every campaign is accounted for after a launch, the launched one with all its new rows. */
  lemma LaunchAccounts(st: State, c: nat, audience: seq<string>, d: nat)
    requires Ok(st) && Distinct(audience) && Launched(st, c, audience).Some? && d < |st.campaigns|
    ensures Accounted(Launched(st, c, audience).value.campaigns[d], Launched(st, c, audience).value.recipients, d)
  {
    var emails := Subscribed(st.unsubscribed, audience);
    SubscribedAreDistinct(st.unsubscribed, audience);
    assert Accounted(st.campaigns[c], st.recipients, c);
    assert Accounted(st.campaigns[d], st.recipients, d);
    InsertedRows(st.recipients, c, emails, d, Sent);
    InsertedRows(st.recipients, c, emails, d, Bounced);
    InsertedRows(st.recipients, c, emails, d, Waiting);
    if d == c {
      CountNone(st.recipients, c, Sent);
      CountNone(st.recipients, c, Bounced);
      CountNone(st.recipients, c, Waiting);
    }
  }

  lemma LaunchKeeps(st: State, c: nat, audience: seq<string>)
    requires Ok(st) && Distinct(audience) && Launched(st, c, audience).Some?
    ensures Ok(Launched(st, c, audience).value)
    ensures RecipientsEvolve(st.recipients, Launched(st, c, audience).value.recipients)
  {
    var after := Launched(st, c, audience).value;
    assert Accounted(st.campaigns[c], st.recipients, c);
    SubscribedAreDistinct(st.unsubscribed, audience);
    InsertedRows(st.recipients, c, Subscribed(st.unsubscribed, audience), c, Waiting);
    forall d | 0 <= d < |after.campaigns| ensures Accounted(after.campaigns[d], after.recipients, d) {
      LaunchAccounts(st, c, audience, d);
    }
  }

  // ---------------------------------------------------------------- sequences

  lemma LowerIsIdempotent(s: string)
    ensures Lower(Lower(s)) == Lower(s)
  {
  }

  /** Once a token row exists, an address without blanks around it counts as unsubscribed. */
  lemma TokenUnsubscribes(unsubscribed: set<string>, email: string)
    requires Address(email) in unsubscribed && TrimSpace(email) == email
    ensures IsUnsubscribed(unsubscribed, email)
  {
    LowerIsIdempotent(email);
  }

  /** Rewriting one enrollment without bringing it to life. */
  lemma EnrollmentKeeps(st: State, after: State, e: nat, row: Enrollment)
    requires Ok(st) && e < |st.enrollments|
    requires row.sequence == st.enrollments[e].sequence && row.email == st.enrollments[e].email
    requires row.status == Active ==> st.enrollments[e].status == Active && row.attempts < MAX_ATTEMPTS
    requires after.enrollments == st.enrollments[e := row] && after.sequences == st.sequences
    requires after.campaigns == st.campaigns && after.recipients == st.recipients && QuotasOk(after.quotas)
    requires st.unsubscribed <= after.unsubscribed
    requires after.mailed == st.mailed
          || (after.mailed == st.mailed + [e] && Address(row.email) in after.unsubscribed
              && !IsUnsubscribed(st.unsubscribed, row.email))
    ensures Ok(after)
  {
    forall c | 0 <= c < |after.campaigns| ensures Accounted(after.campaigns[c], after.recipients, c) {
      assert Accounted(st.campaigns[c], st.recipients, c);
    }
    forall i | 0 <= i < |st.mailed| && st.mailed[i] == e && after.mailed != st.mailed
      ensures TrimSpace(row.email) != row.email
    {
      if TrimSpace(row.email) == row.email {
        TokenUnsubscribes(st.unsubscribed, row.email);
      }
    }
  }

  lemma MaybeCompletedKeeps(st: State, s: nat)
    requires Ok(st) && s < |st.sequences|
    ensures Ok(MaybeCompleted(st, s))
  {
    var after := MaybeCompleted(st, s);
    forall c | 0 <= c < |after.campaigns| ensures Accounted(after.campaigns[c], after.recipients, c) {
      assert Accounted(st.campaigns[c], st.recipients, c);
    }
    forall e | 0 <= e < |after.enrollments| ensures EnrollmentOk(after.enrollments[e], after.sequences) {
      assert EnrollmentOk(st.enrollments[e], st.sequences);
    }
  }

  /** The enrollment after one call. */
  function ProcessedRow(st: State, e: nat, now: Conditions): Enrollment
    requires st.WellFormed() && e < |st.enrollments|
  {
    Processed(st, e, now).enrollments[e]
  }

  lemma ProcessedKeeps(st: State, e: nat, now: Conditions)
    requires Ok(st) && e < |st.enrollments| && st.enrollments[e].status == Active
    requires now.day in st.quotas && st.quotas[now.day].sent < st.quotas[now.day].limit
    ensures Ok(Processed(st, e, now))
  {
    var after, row := Processed(st, e, now), ProcessedRow(st, e, now);
    assert EnrollmentOk(st.enrollments[e], st.sequences);
    var plain := after.(sequences := st.sequences);
    EnrollmentKeeps(st, plain, e, row);
    if after.sequences != st.sequences {
      MaybeCompletedKeeps(plain, row.sequence);
    }
  }

  /** What one call does to the rest: other enrollments are as they were, and the quota of the
      day counts at most one more. */
  lemma ProcessedFrame(st: State, e: nat, now: Conditions)
    requires st.WellFormed() && e < |st.enrollments| && now.day in st.quotas
    ensures var after := Processed(st, e, now);
      && after.WellFormed() && |after.enrollments| == |st.enrollments| && now.day in after.quotas
      && (forall f :: 0 <= f < |st.enrollments| && f != e ==> after.enrollments[f] == st.enrollments[f])
      && after.quotas[now.day].limit == st.quotas[now.day].limit
      && st.quotas[now.day].sent <= after.quotas[now.day].sent <= st.quotas[now.day].sent + 1
      && after.recipients == st.recipients
  {
  }

  lemma {:induction false} ProcessedAllKeeps(st: State, due: seq<nat>, conditions: seq<Conditions>, day: int)
    requires Ok(st) && |due| == |conditions| && Distinct(due) && Covers(st.quotas, day, |due|)
    requires forall i :: 0 <= i < |due| ==> due[i] < |st.enrollments| && st.enrollments[due[i]].status == Active
    requires forall i :: 0 <= i < |due| ==> conditions[i].day == day
    ensures Ok(ProcessedAll(st, due, conditions))
    ensures ProcessedAll(st, due, conditions).recipients == st.recipients
    decreases |due|
  {
    if |due| > 0 {
      ProcessedKeeps(st, due[0], conditions[0]);
      ProcessedFrame(st, due[0], conditions[0]);
      ProcessedAllKeeps(Processed(st, due[0], conditions[0]), due[1..], conditions[1..], day);
    }
  }

  lemma SequenceTickKeeps(st: State, due: seq<nat>, conditions: seq<Conditions>, now: Conditions)
    requires Ok(st) && Possible(st, SequenceTicks(due, conditions, now))
    ensures Ok(Step(st, SequenceTicks(due, conditions, now)))
    ensures Step(st, SequenceTicks(due, conditions, now)).recipients == st.recipients
  {
    OpenedKeeps(st, now.day, now.limit);
    if |due| > 0 {
      ProcessedAllKeeps(Opened(st, now.day, now.limit), due, conditions, now.day);
    }
  }

  lemma {:induction false} EnrolledRows(enrollments: seq<Enrollment>, s: nat, emails: seq<string>, due: int)
    ensures var after := Enrolled(enrollments, s, emails, due);
      && enrollments <= after
      && forall e :: |enrollments| <= e < |after| ==>
           after[e].sequence == s && after[e].status == Active && after[e].attempts == 0
  {
    if |emails| > 0 {
      EnrolledRows(enrollments, s, emails[..|emails| - 1], due);
    }
  }

  lemma SequenceLaunchKeeps(st: State, s: nat, audience: seq<string>, start: int, now: int)
    requires Ok(st) && SequenceLaunched(st, s, audience, start, now).Some?
    ensures Ok(SequenceLaunched(st, s, audience, start, now).value)
  {
    var after := SequenceLaunched(st, s, audience, start, now).value;
    EnrolledRows(st.enrollments, s, Subscribed(st.unsubscribed, audience),
                 start + st.sequences[s].steps[0].offsetHours * HOUR);
    SameCampaigns(st, after);
    forall e | 0 <= e < |after.enrollments| ensures EnrollmentOk(after.enrollments[e], after.sequences) {
      if e < |st.enrollments| {
        assert EnrollmentOk(st.enrollments[e], st.sequences);
      }
    }
    forall i | 0 <= i < |after.mailed| ensures after.mailed[i] < |st.enrollments| {
    }
  }

  lemma SameCampaigns(st: State, after: State)
    requires Ok(st) && after.campaigns == st.campaigns && after.recipients == st.recipients
    ensures forall c :: 0 <= c < |after.campaigns| ==> Accounted(after.campaigns[c], after.recipients, c)
  {
    forall c | 0 <= c < |after.campaigns| ensures Accounted(after.campaigns[c], after.recipients, c) {
      assert Accounted(st.campaigns[c], st.recipients, c);
    }
  }

  lemma SequenceRowsKeep(st: State, after: State)
    requires Ok(st) && after.(sequences := st.sequences) == st
    requires |st.sequences| <= |after.sequences|
    requires forall s :: 0 <= s < |st.sequences| ==>
               (after.sequences[s].status == SequenceCompleted ==> st.sequences[s].status == SequenceCompleted)
    ensures Ok(after)
  {
    SameCampaigns(st, after);
    forall e | 0 <= e < |after.enrollments| ensures EnrollmentOk(after.enrollments[e], after.sequences) {
      assert EnrollmentOk(st.enrollments[e], st.sequences);
    }
  }

  lemma CreateCampaignKeeps(st: State)
    requires Ok(st)
    ensures Ok(Step(st, CreatesCampaign))
  {
    var after, c := Step(st, CreatesCampaign), |st.campaigns|;
    CountNone(st.recipients, c, Sent);
    CountNone(st.recipients, c, Bounced);
    CountNone(st.recipients, c, Waiting);
    forall d | 0 <= d < |after.campaigns| ensures Accounted(after.campaigns[d], after.recipients, d) {
      if d < c {
        assert Accounted(st.campaigns[d], st.recipients, d);
      }
    }
  }

  lemma StepKeeps(st: State, e: Event)
    requires Ok(st) && Possible(st, e)
    ensures Ok(Step(st, e)) && RecipientsEvolve(st.recipients, Step(st, e).recipients)
  {
    match e
    case CreatesCampaign => CreateCampaignKeeps(st);
    case Launches(c, audience) => if Launched(st, c, audience).Some? { LaunchKeeps(st, c, audience); }
    case Ticks(order, bounces, day, limit) => QueueTickKeeps(st, order, bounces, day, limit);
    case CreatesSequence(_, _) => SequenceRowsKeep(st, Step(st, e));
    case LaunchesSequence(s, audience, start, now) =>
      if SequenceLaunched(st, s, audience, start, now).Some? { SequenceLaunchKeeps(st, s, audience, start, now); }
    case Pauses(_) => SequenceRowsKeep(st, Step(st, e));
    case Resumes(_) => SequenceRowsKeep(st, Step(st, e));
    case Cancels(_) => SequenceRowsKeep(st, Step(st, e));
    case SequenceTicks(due, conditions, now) => SequenceTickKeeps(st, due, conditions, now);
  }

  // ---------------------------------------------------------------- promises over runs

  /** The states that a run of possible events passes through, from first to last. */
  predicate IsRun(states: seq<State>, events: seq<Event>) {
    && |states| == |events| + 1
    && (forall i :: 0 <= i < |events| ==>
          states[i].WellFormed() && Possible(states[i], events[i]) && states[i + 1] == Step(states[i], events[i]))
  }

  lemma {:induction false} RunKeeps(states: seq<State>, events: seq<Event>, i: nat, j: nat)
    requires IsRun(states, events) && Ok(states[0]) && i <= j < |states|
    ensures Ok(states[i]) && Ok(states[j]) && RecipientsEvolve(states[i].recipients, states[j].recipients)
    decreases j
  {
    if j > 0 {
      if i < j {
        RunKeeps(states, events, i, j - 1);
        StepKeeps(states[j - 1], events[j - 1]);
        assert states[j] == Step(states[j - 1], events[j - 1]);
      } else {
        RunKeeps(states, events, j - 1, j - 1);
        StepKeeps(states[j - 1], events[j - 1]);
        assert states[j] == Step(states[j - 1], events[j - 1]);
      }
    }
  }

  /** The quota: over any run of ticks, campaigns and sequences together, the emails counted
      for a day never exceed the limit of its row. */
  lemma QuotaIsKept(states: seq<State>, events: seq<Event>, i: nat, day: int)
    requires IsRun(states, events) && states[0] == EMPTY && i < |states| && day in states[i].quotas
    ensures 0 <= states[i].quotas[day].sent <= states[i].quotas[day].limit
  {
    RunKeeps(states, events, 0, i);
  }

  /** The accounts: sent, failed and pending are the numbers of recipients in each status and
      add up to the total; a completed campaign has nobody waiting. */
  lemma CampaignsAreAccounted(states: seq<State>, events: seq<Event>, i: nat, c: nat)
    requires IsRun(states, events) && states[0] == EMPTY && i < |states| && c < |states[i].campaigns|
    ensures var row, recipients := states[i].campaigns[c], states[i].recipients;
      && row.sent == CountOf(recipients, c, Sent) && row.failed == CountOf(recipients, c, Bounced)
      && row.pending == CountOf(recipients, c, Waiting) && row.sent + row.failed + row.pending == row.total
      && (row.status == CampaignCompleted ==>
            forall r :: 0 <= r < |recipients| && recipients[r].campaign == c ==> recipients[r].status != Waiting)
  {
    RunKeeps(states, events, 0, i);
    var recipients := states[i].recipients;
    assert Accounted(states[i].campaigns[c], recipients, c);
    forall r | 0 <= r < |recipients| && recipients[r].campaign == c && recipients[r].status == Waiting
      ensures states[i].campaigns[c].status != CampaignCompleted
    {
      CountSome(recipients, r);
    }
  }

  /** No recipient leaves `waiting` twice: the first outcome stays. */
  lemma OutcomeIsFinal(states: seq<State>, events: seq<Event>, i: nat, j: nat, r: nat)
    requires IsRun(states, events) && states[0] == EMPTY && i <= j < |states|
    requires r < |states[i].recipients| && states[i].recipients[r].status != Waiting
    ensures r < |states[j].recipients| && states[j].recipients[r] == states[i].recipients[r]
  {
    RunKeeps(states, events, i, j);
  }

  /** A completed sequence has no active enrollment. */
  lemma CompletedSequenceIsDone(states: seq<State>, events: seq<Event>, i: nat, e: nat)
    requires IsRun(states, events) && states[0] == EMPTY && i < |states| && e < |states[i].enrollments|
    ensures var row, sequences := states[i].enrollments[e], states[i].sequences;
      && row.sequence < |sequences|
      && (sequences[row.sequence].status == SequenceCompleted ==> row.status != Active)
  {
    RunKeeps(states, events, 0, i);
    assert EnrollmentOk(states[i].enrollments[e], states[i].sequences);
  }

  /** A sequence mails an address at most once, whatever its number of steps and retries: the
      token row written for the first email reads as an unsubscription at the next call.
      Only an address with blanks around it is spared, because its token row has none. */
  lemma OneMailPerEnrollment(states: seq<State>, events: seq<Event>, i: nat, j: nat, k: nat)
    requires IsRun(states, events) && states[0] == EMPTY && i < |states|
    requires j < k < |states[i].mailed| && states[i].mailed[j] == states[i].mailed[k]
    ensures var e := states[i].mailed[j];
      e < |states[i].enrollments| && TrimSpace(states[i].enrollments[e].email) != states[i].enrollments[e].email
  {
    RunKeeps(states, events, 0, i);
  }

  // ---------------------------------------------------------------- one enrollment

  /** When the call for the second step mails again, after a first email that was sent. */
  lemma SecondStepExact(st: State, e: nat, first: Conditions, second: Conditions)
    requires st.WellFormed() && e < |st.enrollments|
    requires var row := st.enrollments[e]; var s := st.sequences[row.sequence];
      && row.status == Active && row.step + 1 < |s.steps|
      && s.steps[row.step].templateExists && s.steps[row.step + 1].templateExists
      && !IsUnsubscribed(st.unsubscribed, row.email) && !s.skipIfConverted
    requires first.sendSucceeds
    ensures var once := Processed(st, e, first);
      && once.WellFormed() && once.mailed == st.mailed + [e]
      && (Processed(once, e, second).mailed == once.mailed + [e] <==>
            TrimSpace(st.enrollments[e].email) != st.enrollments[e].email)
      && (Processed(once, e, second).enrollments[e].status == Unsubscribed <==>
            TrimSpace(st.enrollments[e].email) == st.enrollments[e].email)
  {
    var email := st.enrollments[e].email;
    var once := Processed(st, e, first);
    assert once.unsubscribed == st.unsubscribed + {Address(email)};
    LowerIsIdempotent(TrimSpace(email));
    if TrimSpace(email) == email {
      TokenUnsubscribes(once.unsubscribed, email);
    } else {
      assert |Lower(TrimSpace(email))| < |Lower(email)|;
      assert !IsUnsubscribed(once.unsubscribed, email);
    }
  }

  /** The steps left and the attempts left. */
  function Effort(st: State, e: nat): int
    requires st.WellFormed() && e < |st.enrollments|
  {
    var row := st.enrollments[e];
    |st.sequences[row.sequence].steps| - row.step + MAX_ATTEMPTS - row.attempts
  }

  /** Every call that leaves its enrollment active takes one off the effort that is left. */
  lemma EffortDescends(st: State, e: nat, now: Conditions)
    requires st.WellFormed() && e < |st.enrollments|
    ensures var after := Processed(st, e, now);
      && after.WellFormed() && |after.enrollments| == |st.enrollments|
      && (after.enrollments[e].status == Active && st.enrollments[e].status == Active ==>
            && Effort(after, e) == Effort(st, e) - 1
            && (st.enrollments[e].attempts < MAX_ATTEMPTS ==> after.enrollments[e].attempts < MAX_ATTEMPTS)
            && after.enrollments[e].step < |after.sequences[after.enrollments[e].sequence].steps|)
  {
  }

  datatype Call = Call(enrollment: nat, conditions: Conditions)

  /** How many of the calls are for enrollment e and leave it active. */
  function ActiveCalls(st: State, calls: seq<Call>, e: nat): nat
    requires st.WellFormed() && e < |st.enrollments|
    requires forall i :: 0 <= i < |calls| ==> calls[i].enrollment < |st.enrollments|
    decreases |calls|
  {
    if |calls| == 0 then 0
    else
      EffortDescends(st, calls[0].enrollment, calls[0].conditions);
      var after := Processed(st, calls[0].enrollment, calls[0].conditions);
      (if calls[0].enrollment == e && st.enrollments[e].status == Active
          && after.enrollments[e].status == Active then 1 else 0)
      + ActiveCalls(after, calls[1..], e)
  }

  /** However the calls for all enrollments are mixed, an active one is processed at most as
      often as it has steps and attempts left, and once more. */
  lemma {:induction false} EnrollmentEnds(st: State, calls: seq<Call>, e: nat)
    requires st.WellFormed() && e < |st.enrollments|
    requires forall i :: 0 <= i < |calls| ==> calls[i].enrollment < |st.enrollments|
    requires Effort(st, e) >= 0 && (st.enrollments[e].status == Active ==> st.enrollments[e].attempts < MAX_ATTEMPTS)
    ensures ActiveCalls(st, calls, e) <= Effort(st, e)
    decreases |calls|
  {
    if |calls| > 0 {
      var f, now := calls[0].enrollment, calls[0].conditions;
      EffortDescends(st, f, now);
      var after := Processed(st, f, now);
      EffortStays(st, f, now, e);
      if after.enrollments[e].status == Active {
        EnrollmentEnds(after, calls[1..], e);
      } else {
        InactiveIsNotCounted(after, calls[1..], e);
      }
    }
  }

  /** A call for one enrollment leaves the effort of the others as it is, and no call brings
      an enrollment to life. */
  lemma EffortStays(st: State, f: nat, now: Conditions, e: nat)
    requires st.WellFormed() && e < |st.enrollments| && f < |st.enrollments|
    ensures var after := Processed(st, f, now);
      && after.WellFormed() && |after.enrollments| == |st.enrollments|
      && (e != f ==> Effort(after, e) == Effort(st, e) && after.enrollments[e] == st.enrollments[e])
      && (st.enrollments[e].status != Active ==> after.enrollments[e].status != Active)
  {
  }

  lemma {:induction false} InactiveIsNotCounted(st: State, calls: seq<Call>, e: nat)
    requires st.WellFormed() && e < |st.enrollments| && st.enrollments[e].status != Active
    requires forall i :: 0 <= i < |calls| ==> calls[i].enrollment < |st.enrollments|
    ensures ActiveCalls(st, calls, e) == 0
    decreases |calls|
  {
    if |calls| > 0 {
      EffortStays(st, calls[0].enrollment, calls[0].conditions, e);
      InactiveIsNotCounted(Processed(st, calls[0].enrollment, calls[0].conditions), calls[1..], e);
    }
  }

  // ---------------------------------------------------------------- a sequence that never ends

  /** The call for enrollment e ends it as finished. */
  predicate WillFinish(st: State, e: nat, now: Conditions)
    requires st.WellFormed() && e < |st.enrollments|
  {
    var row, s := st.enrollments[e], st.sequences[st.enrollments[e].sequence];
    && !IsUnsubscribed(st.unsubscribed, row.email) && !(s.skipIfConverted && now.converted)
    && (|| row.step >= |s.steps|
        || (row.step + 1 == |s.steps| && s.steps[row.step].templateExists && now.sendSucceeds))
  }

  /** Running, with nobody left to mail. */
  predicate Abandoned(st: State, s: nat) {
    s < |st.sequences| && st.sequences[s].status == Running && !HasActive(st.enrollments, s)
  }

  /** The end of a sequence is noticed only by an enrollment that finishes: when the last
      active one leaves in any other way, the sequence stays running. */
  lemma SequenceEndExact(st: State, e: nat, now: Conditions)
    requires st.WellFormed() && e < |st.enrollments| && st.enrollments[e].status == Active
    requires var s := st.enrollments[e].sequence;
      && st.sequences[s].status == Running
      && forall f :: 0 <= f < |st.enrollments| && f != e && st.enrollments[f].sequence == s ==>
           st.enrollments[f].status != Active
    ensures var after, s := Processed(st, e, now), st.enrollments[e].sequence;
      && (after.sequences[s].status == SequenceCompleted <==> WillFinish(st, e, now))
      && (Abandoned(after, s) <==> after.enrollments[e].status != Active && !WillFinish(st, e, now))
  {
  }

  /** Calls for enrollments of other sequences pass an abandoned one by. */
  lemma {:induction false} ProcessedAllPassBy(st: State, due: seq<nat>, conditions: seq<Conditions>, s: nat)
    requires st.WellFormed() && Abandoned(st, s) && |due| == |conditions|
    requires forall i :: 0 <= i < |due| ==> due[i] < |st.enrollments| && st.enrollments[due[i]].sequence != s
    ensures Abandoned(ProcessedAll(st, due, conditions), s)
    decreases |due|
  {
    if |due| > 0 {
      var next := Processed(st, due[0], conditions[0]);
      ProcessedSequences(st, due[0], conditions[0], s);
      ProcessedAllPassBy(next, due[1..], conditions[1..], s);
    }
  }

  /** One call leaves every enrollment in its sequence, and other sequences and the enrollments
      in them as they are. */
  lemma ProcessedSequences(st: State, e: nat, now: Conditions, s: nat)
    requires st.WellFormed() && e < |st.enrollments| && s < |st.sequences| && st.enrollments[e].sequence != s
    ensures var after := Processed(st, e, now);
      && |after.sequences| == |st.sequences| && after.sequences[s] == st.sequences[s]
      && |after.enrollments| == |st.enrollments|
      && (forall f :: 0 <= f < |st.enrollments| ==>
            && after.enrollments[f].sequence == st.enrollments[f].sequence
            && (f != e ==> after.enrollments[f] == st.enrollments[f]))
  {
  }

  lemma StepPassesBy(st: State, e: Event, s: nat)
    requires st.WellFormed() && Possible(st, e) && Abandoned(st, s) && e != Pauses(s) && e != Cancels(s)
    ensures Abandoned(Step(st, e), s)
  {
    match e
    case LaunchesSequence(l, audience, start, now) =>
      if SequenceLaunched(st, l, audience, start, now).Some? {
        EnrolledRows(st.enrollments, l, Subscribed(st.unsubscribed, audience),
                     start + st.sequences[l].steps[0].offsetHours * HOUR);
      }
    case SequenceTicks(due, conditions, now) =>
      ProcessedAllPassBy(Opened(st, now.day, now.limit), due, conditions, s);
    case Ticks(order, bounces, day, limit) => QueueTickKeepsSequences(st, order, bounces, day, limit);
    case _ =>
  }

  /** From then on the sequence stays running, whatever happens, until it is paused or canceled. */
  lemma {:induction false} AbandonedStaysRunning(states: seq<State>, events: seq<Event>, i: nat, j: nat, s: nat)
    requires IsRun(states, events) && i <= j < |states| && Abandoned(states[i], s)
    requires forall k :: i <= k < j ==> events[k] != Pauses(s) && events[k] != Cancels(s)
    ensures Abandoned(states[j], s)
    decreases j
  {
    if i < j {
      AbandonedStaysRunning(states, events, i, j - 1, s);
      StepPassesBy(states[j - 1], events[j - 1], s);
      assert states[j] == Step(states[j - 1], events[j - 1]);
    }
  }

  const AT_LAUNCH := Conditions(false, true, 0, 0, 10)
  const AN_HOUR_LATER := Conditions(false, true, HOUR, 0, 10)

  /** An ordinary sequence of two emails to one address, with nothing going wrong. */
  const TWO_EMAILS := [
    CreatesSequence(false, [Marketing.Step(true, 0), Marketing.Step(true, 1)]),
    LaunchesSequence(0, ["a"], 0, 0),
    SequenceTicks([0], [AT_LAUNCH], AT_LAUNCH),
    SequenceTicks([0], [AN_HOUR_LATER], AN_HOUR_LATER)]

  const NEW_SEQUENCE := Sequence(SequenceDraft, false, [Marketing.Step(true, 0), Marketing.Step(true, 1)], None)
  const IN_DRAFT := EMPTY.(sequences := [NEW_SEQUENCE])

  function InSequence(row: Enrollment): State {
    EMPTY.(sequences := [NEW_SEQUENCE.(status := Running, startedAt := Some(0))], enrollments := [row])
  }

  const LAUNCHED := InSequence(Enrollment(0, "a", 0, 0, 0, Active))

  function MailedOnce(row: Enrollment): State {
    InSequence(row).(unsubscribed := {"a"}, mailed := [0], quotas := map[0 := Quota(1, 10)])
  }

  const MAILED := MailedOnce(Enrollment(0, "a", 1, 0, HOUR, Active))
  const LEFT := MailedOnce(Enrollment(0, "a", 1, 0, HOUR, Unsubscribed))

  lemma OneSubscriber(email: string)
    ensures Subscribed({}, [email]) == [email]
  {
    assert [email][..0] == [];
  }

  lemma OneEnrolled(email: string, due: int)
    ensures Enrolled([], 0, [email], due) == [Enrollment(0, email, 0, 0, due, Active)]
  {
    assert [email][..0] == [];
    assert Enrolled([], 0, [], due) == [];
  }

  lemma TwoEmailsLaunch()
    ensures Step(EMPTY, TWO_EMAILS[0]) == IN_DRAFT
    ensures Possible(IN_DRAFT, TWO_EMAILS[1]) && Step(IN_DRAFT, TWO_EMAILS[1]) == LAUNCHED
  {
    OneSubscriber("a");
    OneEnrolled("a", 0);
  }

  lemma AddressOfA()
    ensures Address("a") == "a"
  {
    assert TrimLeft("a") == "a" && TrimRight("a") == "a";
    assert Lower("a") == "a";
  }

  const READY := LAUNCHED.(quotas := map[0 := Quota(0, 10)])

  lemma FirstCall()
    ensures Processed(READY, 0, AT_LAUNCH) == MAILED
  {
    AddressOfA();
    assert !IsUnsubscribed({}, "a");
  }

  lemma TwoEmailsFirst()
    ensures Possible(LAUNCHED, TWO_EMAILS[2]) && Step(LAUNCHED, TWO_EMAILS[2]) == MAILED
  {
    FirstCall();
    assert [0][1..] == [] && [AT_LAUNCH][1..] == [];
    assert ProcessedAll(READY, [0], [AT_LAUNCH]) == MAILED;
  }

  lemma TwoEmailsSecond()
    ensures Possible(MAILED, TWO_EMAILS[3]) && Step(MAILED, TWO_EMAILS[3]) == LEFT
  {
    assert "a" in MAILED.unsubscribed;
    assert Processed(MAILED, 0, AN_HOUR_LATER) == LEFT;
    assert [0][1..] == [] && [AN_HOUR_LATER][1..] == [];
    assert ProcessedAll(MAILED, [0], [AN_HOUR_LATER]) == LEFT;
  }

  predicate Follows(st: State, e: Event, next: State) {
    st.WellFormed() && Possible(st, e) && next == Step(st, e)
  }

  lemma FourSteps(a: State, b: State, c: State, d: State, e: State, events: seq<Event>)
    requires |events| == 4
    requires Follows(a, events[0], b) && Follows(b, events[1], c)
    requires Follows(c, events[2], d) && Follows(d, events[3], e)
    ensures IsRun([a, b, c, d, e], events)
  {
    var states := [a, b, c, d, e];
    forall i | 0 <= i < 4 ensures Follows(states[i], events[i], states[i + 1]) {
    }
  }

  /** It is abandoned: the second call finds the token row of the first email. */
  lemma TwoEmailsAreAbandoned()
    ensures IsRun([EMPTY, IN_DRAFT, LAUNCHED, MAILED, LEFT], TWO_EMAILS)
    ensures Abandoned(LEFT, 0) && LEFT.mailed == [0]
  {
    TwoEmailsLaunch();
    TwoEmailsFirst();
    TwoEmailsSecond();
    FourSteps(EMPTY, IN_DRAFT, LAUNCHED, MAILED, LEFT, TWO_EMAILS);
  }

  // ---------------------------------------------------------------- audiences after the first email

  /** A campaign or a sequence has sent this recipient something, or tried to. */
  predicate WasMailed(st: State, email: string) {
    || (exists r :: 0 <= r < |st.recipients| && st.recipients[r].email == email && st.recipients[r].status != Waiting)
    || (exists k :: 0 <= k < |st.mailed| && st.mailed[k] < |st.enrollments|
                    && st.enrollments[st.mailed[k]].email == email)
  }

  lemma MailedHasToken(st: State, email: string)
    requires Ok(st) && WasMailed(st, email)
    ensures Address(email) in st.unsubscribed
  {
  }

  lemma {:induction false} SubscribedAreNotUnsubscribed(unsubscribed: set<string>, emails: seq<string>, email: string)
    requires email in Subscribed(unsubscribed, emails)
    ensures !IsUnsubscribed(unsubscribed, email)
  {
    var last := emails[|emails| - 1];
    if email in Subscribed(unsubscribed, emails[..|emails| - 1]) {
      SubscribedAreNotUnsubscribed(unsubscribed, emails[..|emails| - 1], email);
    } else {
      assert email == last;
    }
  }

  lemma {:induction false} InsertedFrom(recipients: seq<Recipient>, c: nat, emails: seq<string>)
    ensures var after := Inserted(recipients, c, emails);
      && |recipients| <= |after|
      && forall r :: |recipients| <= r < |after| ==> after[r].email in emails
  {
    if |emails| > 0 {
      InsertedFrom(recipients, c, emails[..|emails| - 1]);
      assert emails[|emails| - 1] in emails;
    }
  }

  lemma {:induction false} EnrolledFrom(enrollments: seq<Enrollment>, s: nat, emails: seq<string>, due: int)
    ensures var after := Enrolled(enrollments, s, emails, due);
      && |enrollments| <= |after|
      && forall e :: |enrollments| <= e < |after| ==> after[e].email in emails
  {
    if |emails| > 0 {
      EnrolledFrom(enrollments, s, emails[..|emails| - 1], due);
      assert emails[|emails| - 1] in emails;
    }
  }

  /** One event adds nobody who is unsubscribed, and takes nobody off the list. */
  lemma StepAddsSubscribers(st: State, e: Event)
    requires st.WellFormed() && Possible(st, e)
    ensures var after := Step(st, e);
      && st.unsubscribed <= after.unsubscribed
      && (forall r :: |st.recipients| <= r < |after.recipients| ==>
            !IsUnsubscribed(st.unsubscribed, after.recipients[r].email))
      && (forall f :: |st.enrollments| <= f < |after.enrollments| ==>
            !IsUnsubscribed(st.unsubscribed, after.enrollments[f].email))
  {
    match e
    case Launches(c, audience) =>
      var emails := Subscribed(st.unsubscribed, audience);
      InsertedFrom(st.recipients, c, emails);
      forall email | email in emails ensures !IsUnsubscribed(st.unsubscribed, email) {
        SubscribedAreNotUnsubscribed(st.unsubscribed, audience, email);
      }
    case LaunchesSequence(s, audience, start, now) =>
      var emails := Subscribed(st.unsubscribed, audience);
      if SequenceLaunched(st, s, audience, start, now).Some? {
        EnrolledFrom(st.enrollments, s, emails, start + st.sequences[s].steps[0].offsetHours * HOUR);
      }
      forall email | email in emails ensures !IsUnsubscribed(st.unsubscribed, email) {
        SubscribedAreNotUnsubscribed(st.unsubscribed, audience, email);
      }
    case _ =>
  }

  lemma {:induction false} UnsubscribedGrows(states: seq<State>, events: seq<Event>, i: nat, j: nat)
    requires IsRun(states, events) && i <= j < |states|
    ensures states[i].unsubscribed <= states[j].unsubscribed
    decreases j
  {
    if i < j {
      UnsubscribedGrows(states, events, i, j - 1);
      StepAddsSubscribers(states[j - 1], events[j - 1]);
      assert states[j] == Step(states[j - 1], events[j - 1]);
    }
  }

  /** The token row of an email takes its address out of every later audience: nothing that is
      launched later, campaign or sequence, has a row for it. Letter case does not matter; only
      an address that was written with blanks around it is still let in. */
  lemma MailedIsNeverAddressedAgain(states: seq<State>, events: seq<Event>, i: nat, j: nat, email: string)
    requires IsRun(states, events) && states[0] == EMPTY && i <= j < |events| && WasMailed(states[i], email)
    ensures var before, after := states[j], states[j + 1];
      && (forall r :: |before.recipients| <= r < |after.recipients| ==>
            Lower(after.recipients[r].email) != Address(email))
      && (forall f :: |before.enrollments| <= f < |after.enrollments| ==>
            Lower(after.enrollments[f].email) != Address(email))
      && (TrimSpace(email) == email ==> IsUnsubscribed(before.unsubscribed, email))
  {
    RunKeeps(states, events, 0, i);
    MailedHasToken(states[i], email);
    UnsubscribedGrows(states, events, i, j);
    StepAddsSubscribers(states[j], events[j]);
    assert states[j + 1] == Step(states[j], events[j]);
    LowerIsIdempotent(TrimSpace(email));
    assert Address(email) in states[j].unsubscribed;
  }
}
