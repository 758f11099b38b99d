/**
 * The two birthday actions: collecting messages a week ahead (`chunk`,
 * `triggerBirthdayCollection`) and publishing the thread on the day
 * (`postBirthdayThread`). Each action is a method on the Slack client and the
 * store, proved against a specification function that gives the exact posts
 * it makes, in order, for every pattern of failing Slack calls.
 */
module BirthdayService {
  import opened Wrappers
  import opened Slack
  import opened Database

  /** The number of predefined greetings. */
  const GreetingCount: nat := 12

  /** `birthdayGreetings[i]`: the predefined greetings one of which heads a thread's digest. */
  function BirthdayGreeting(i: nat): string
    requires i < GreetingCount
  {
    match i
    case 0 => "\U{1F389} Happy birthday! Wishing you a year full of success and joy!"
    case 1 => "Hope your special day is amazing. Happy birthday!"
    case 2 => "Cheers to another fantastic year ahead. Happy birthday!"
    case 3 => "May your birthday be as awesome as you are!"
    case 4 => "Wishing you lots of cake and laughter today!"
    case 5 => "Have a wonderful birthday and a brilliant year ahead!"
    case 6 => "Sending you our best wishes on your birthday!"
    case 7 => "May all your dreams come true this year. Happy birthday!"
    case 8 => "Enjoy your day to the fullest. Happy birthday!"
    case 9 => "Here's to a day filled with celebration. Happy birthday!"
    case 10 => "Warmest wishes for a very happy birthday!"
    case _ => "Have an incredible birthday and a fantastic year!"
  }

  /** Slack's own bot user, never asked for a message. */
  const SlackbotId: string := "USLACKBOT"

  /** Recipients are asked in batches of this size. */
  const BatchSize: nat := 10

  /** The statement the collection calls after its summary; the store does not define it. */
  const MissingUpdateStatement: string := "updateLastNotificationDate"

  /**
   * `generateBirthdayMessage`: one of the predefined greetings, chosen at
   * random; `choice` is the index `Math.random` picks.
   */
  method GenerateBirthdayMessage() returns (choice: nat, greeting: string)
    ensures choice < GreetingCount && greeting == BirthdayGreeting(choice)
  {
    choice :| choice < GreetingCount;
    greeting := BirthdayGreeting(choice);
  }

  // ----- chunk -----

  /** The chunks laid end to end. */
  function Flatten<T>(chunks: seq<seq<T>>): seq<T>
  {
    if chunks == [] then [] else Flatten(chunks[..|chunks| - 1]) + chunks[|chunks| - 1]
  }

  lemma FlattenSnoc<T>(chunks: seq<seq<T>>, c: seq<T>)
    ensures Flatten(chunks + [c]) == Flatten(chunks) + c
  {
    assert (chunks + [c])[..|chunks|] == chunks;
  }

  /** The number of pieces of size `size` that `n` elements fill: the ceiling of n / size. */
  lemma CeilingQuotient(n: nat, size: nat, c: nat)
    requires size > 0
    requires c * size >= n
    requires c == 0 || (c - 1) * size < n
    ensures c == (n + size - 1) / size
  {
    if c > 0 {
      assert (c - 1) * size == c * size - size;
    }
    QuotientBetween(n + size - 1, size, c);
  }

  /** A number between two consecutive multiples of `size` has the lower one's factor as quotient. */
  lemma QuotientBetween(x: int, size: nat, c: int)
    requires size > 0
    requires c * size <= x < c * size + size
    ensures x / size == c
  {
    var q := x / size;
    var r := x % size;
    assert x == q * size + r && 0 <= r < size;
    if q < c {
      MultiplyMonotonic(q + 1, c, size);
    } else if q > c {
      MultiplyMonotonic(c + 1, q, size);
    }
  }

  lemma MultiplyMonotonic(a: int, b: int, s: nat)
    requires a <= b
    ensures a * s <= b * s
  {
    var diff: nat := b - a;
    assert b * s == a * s + diff * s;
  }

  /**
   * `chunk(array, size)`: consecutive slices of `size` elements, the last one
   * possibly shorter. Size 0 would never advance, so it is excluded.
   */
  method Chunk<T>(a: seq<T>, size: nat) returns (chunks: seq<seq<T>>)
    requires size > 0
    ensures Flatten(chunks) == a
    ensures forall k :: 0 <= k < |chunks| ==> 0 < |chunks[k]| <= size
    ensures forall k :: 0 <= k < |chunks| - 1 ==> |chunks[k]| == size
    ensures |chunks| == (|a| + size - 1) / size
  {
    chunks := [];
    var i := 0;
    while i < |a|
      invariant i == |chunks| * size
      invariant i <= |a| ==> Flatten(chunks) == a[..i]
      invariant i > |a| ==> Flatten(chunks) == a
      invariant i > |a| ==> |chunks| > 0 && i - size < |a|
      invariant forall k :: 0 <= k < |chunks| ==> 0 < |chunks[k]| <= size
      invariant i <= |a| ==> forall k :: 0 <= k < |chunks| ==> |chunks[k]| == size
      invariant forall k :: 0 <= k < |chunks| - 1 ==> |chunks[k]| == size
    {
      var end := if i + size <= |a| then i + size else |a|;
      FlattenSnoc(chunks, a[i..end]);
      assert a[..i] + a[i..end] == a[..end];
      assert (|chunks| + 1) * size == i + size;
      chunks := chunks + [a[i..end]];
      i := i + size;
    }
    if i == |a| {
      assert a[..i] == a;
      if |chunks| > 0 {
        assert (|chunks| - 1) * size == i - size;
      }
    } else {
      assert (|chunks| - 1) * size == i - size;
    }
    CeilingQuotient(|a|, size, |chunks|);
  }

  // ----- triggerBirthdayCollection -----

  /** The recipient filter: active, unrestricted humans other than the celebrant and Slackbot. */
  predicate Eligible(m: Member, celebrant: string) {
    !m.isBot && !m.deleted && !m.isRestricted && !m.isUltraRestricted
    && m.id != celebrant && m.id != SlackbotId
  }

  /** `result.members.filter(...)`: the eligible members in directory order. */
  function Recipients(members: seq<Member>, celebrant: string): (users: seq<Member>)
    ensures |users| <= |members|
    ensures forall m :: m in users <==> m in members && Eligible(m, celebrant)
  {
    if members == [] then []
    else (if Eligible(members[0], celebrant) then [members[0]] else []) + Recipients(members[1..], celebrant)
  }

  /** The filter keeps directory order: filtering a concatenation concatenates the filtered parts. */
  lemma {:induction false} RecipientsAppend(a: seq<Member>, b: seq<Member>, celebrant: string)
    ensures Recipients(a + b, celebrant) == Recipients(a, celebrant) + Recipients(b, celebrant)
  {
    if a == [] {
      assert a + b == b;
    } else {
      assert (a + b)[1..] == a[1..] + b;
      RecipientsAppend(a[1..], b, celebrant);
    }
  }

  /** The trace after one more post, made as call number `|t|`. */
  function Posted(t: seq<Effect>, channel: Channel, content: Content, failing: set<nat>): seq<Effect>
  {
    t + [Post(channel, None, content, |t| !in failing)]
  }

  /** The outcome of an action: the trace after it, and whether an error escaped its `catch`. */
  datatype Outcome = Outcome(trace: seq<Effect>, escaped: bool)

  /** The trace `t` followed by one collection DM to each of `users`, in order. */
  function Requested(t: seq<Effect>, users: seq<Member>, celebrant: string, failing: set<nat>): seq<Effect>
    decreases |users|
  {
    if users == [] then t
    else Posted(Requested(t, users[..|users| - 1], celebrant, failing),
                User(users[|users| - 1].id), CollectionRequest(celebrant), failing)
  }

  lemma RequestedSnoc(t: seq<Effect>, users: seq<Member>, u: Member, celebrant: string, failing: set<nat>)
    ensures Requested(t, users + [u], celebrant, failing)
      == Posted(Requested(t, users, celebrant, failing), User(u.id), CollectionRequest(celebrant), failing)
  {
    assert (users + [u])[..|users|] == users;
  }

  /** Asking two groups one after the other is asking their concatenation. */
  lemma {:induction false} RequestedAppend(t: seq<Effect>, a: seq<Member>, b: seq<Member>, celebrant: string, failing: set<nat>)
    ensures Requested(t, a + b, celebrant, failing) == Requested(Requested(t, a, celebrant, failing), b, celebrant, failing)
    decreases |b|
  {
    if b == [] {
      assert a + b == a;
    } else {
      var init := b[..|b| - 1];
      assert (a + b)[..|a + b| - 1] == a + init;
      RequestedAppend(t, a, init, celebrant, failing);
    }
  }

  /** Every user gets exactly one DM attempt, in order, after what the trace already held. */
  lemma {:induction false} RequestedShape(t: seq<Effect>, users: seq<Member>, celebrant: string, failing: set<nat>)
    ensures var r := Requested(t, users, celebrant, failing);
      |r| == |t| + |users| && r[..|t|] == t
      && forall i :: 0 <= i < |users| ==>
           r[|t| + i] == Post(User(users[i].id), None, CollectionRequest(celebrant), |t| + i !in failing)
    decreases |users|
  {
    if users != [] {
      var init := users[..|users| - 1];
      RequestedShape(t, init, celebrant, failing);
      var r0 := Requested(t, init, celebrant, failing);
      assert r0[..|t|] == t;
      forall j | |t| <= j < |t| + |init|
        ensures Requested(t, users, celebrant, failing)[j] == r0[j]
      {
      }
    }
  }

  /** The `catch` of the collection: one admin post naming the fault. */
  function CollectionFailure(t: seq<Effect>, celebrant: string, fault: Fault, failing: set<nat>): Outcome
  {
    Outcome(Posted(t, Admin, CollectionError(celebrant, fault), failing), |t| in failing)
  }

  /**
   * What `triggerBirthdayCollection` does to the trace `t`: `row` is the
   * celebrant's stored birthday, `members` and `listFails` what `users.list`
   * answers, `failing` the positions of the message calls that fail.
   */
  function CollectionOutcome(row: Option<BirthdayRow>, celebrant: string, today: string,
                             members: seq<Member>, listFails: bool, failing: set<nat>, t: seq<Effect>): Outcome
  {
    if row.None? then CollectionFailure(t, celebrant, UserMissing, failing)
    else if row.value.lastNotificationDate == Some(today) then Outcome(t, false)
    else if listFails then CollectionFailure(t, celebrant, ApiError, failing)
    else
      var users := Recipients(members, celebrant);
      var asked := Requested(t, users, celebrant, failing);
      var fault := if |asked| in failing then ApiError else MissingStatement(MissingUpdateStatement);
      CollectionFailure(Posted(asked, Admin, CollectionSummary(|users|, celebrant), failing), celebrant, fault, failing)
  }

  /** A celebrant without a birthday row gets no DMs and exactly one admin error post. */
  lemma CollectionUnknownCelebrant(celebrant: string, today: string, members: seq<Member>,
                                   listFails: bool, failing: set<nat>, t: seq<Effect>)
    ensures var o := CollectionOutcome(None, celebrant, today, members, listFails, failing, t);
      o.trace == t + [Post(Admin, None, CollectionError(celebrant, UserMissing), |t| !in failing)]
      && o.escaped == (|t| in failing)
  {
  }

  /** When the last notification date is today, nothing is posted at all. */
  lemma CollectionSameDay(row: BirthdayRow, celebrant: string, today: string, members: seq<Member>,
                          listFails: bool, failing: set<nat>, t: seq<Effect>)
    requires row.lastNotificationDate == Some(today)
    ensures CollectionOutcome(Some(row), celebrant, today, members, listFails, failing, t) == Outcome(t, false)
  {
  }

  /**
   * The fan-out: every recipient gets exactly one DM attempt, in directory order,
   * whichever DMs fail; then one summary with the recipient count goes to the
   * admin channel, and the run always ends in the admin error post, because the
   * statement that would record the notification date does not exist.
   */
  lemma CollectionFanOut(row: BirthdayRow, celebrant: string, today: string, members: seq<Member>,
                         failing: set<nat>, t: seq<Effect>)
    requires row.lastNotificationDate != Some(today)
    ensures var users := Recipients(members, celebrant);
      var o := CollectionOutcome(Some(row), celebrant, today, members, false, failing, t);
      var n := |t| + |users|;
      |o.trace| == n + 2 && o.trace[..|t|] == t
      && (forall i :: 0 <= i < |users| ==>
            o.trace[|t| + i] == Post(User(users[i].id), None, CollectionRequest(celebrant), |t| + i !in failing))
      && o.trace[n] == Post(Admin, None, CollectionSummary(|users|, celebrant), n !in failing)
      && o.trace[n + 1] == Post(Admin, None, CollectionError(celebrant, if n in failing then ApiError
                                                                        else MissingStatement(MissingUpdateStatement)),
                                n + 1 !in failing)
      && o.escaped == (n + 1 in failing)
  {
    var users := Recipients(members, celebrant);
    RequestedShape(t, users, celebrant, failing);
    var asked := Requested(t, users, celebrant, failing);
    var o := CollectionOutcome(Some(row), celebrant, today, members, false, failing, t);
    assert o.trace[..|asked|] == asked;
    forall j | |t| <= j < |t| + |users|
      ensures o.trace[j] == asked[j]
    {
    }
  }

  /** No DM of a collection is ever addressed to the celebrant or to Slackbot. */
  lemma CollectionNeverAsksCelebrant(row: Option<BirthdayRow>, celebrant: string, today: string,
                                     members: seq<Member>, listFails: bool, failing: set<nat>, t: seq<Effect>, m: Member)
    requires m in members
    requires m.id == celebrant || m.id == SlackbotId
    ensures var o := CollectionOutcome(row, celebrant, today, members, listFails, failing, t);
      forall j :: |t| <= j < |o.trace| ==> o.trace[j].channel != User(m.id)
  {
    var o := CollectionOutcome(row, celebrant, today, members, listFails, failing, t);
    if row.Some? && row.value.lastNotificationDate != Some(today) && !listFails {
      var users := Recipients(members, celebrant);
      CollectionFanOut(row.value, celebrant, today, members, failing, t);
      forall j | |t| <= j < |o.trace| ensures o.trace[j].channel != User(m.id) {
        if j < |t| + |users| {
          assert users[j - |t|] in users;
        }
      }
    }
  }

  /** `Promise.all(batch.map(...))`: one DM attempt per user of the batch; a failing DM is caught and logged. */
  method AskBatch(client: SlackClient, batch: seq<Member>, celebrant: string)
    modifies client
    ensures client.trace == Requested(old(client.trace), batch, celebrant, client.failing)
  {
    var k := 0;
    while k < |batch|
      invariant 0 <= k <= |batch|
      invariant client.trace == Requested(old(client.trace), batch[..k], celebrant, client.failing)
    {
      var _, _ := client.PostMessage(User(batch[k].id), None, CollectionRequest(celebrant));
      RequestedSnoc(old(client.trace), batch[..k], batch[k], celebrant, client.failing);
      assert batch[..k + 1] == batch[..k] + [batch[k]];
      k := k + 1;
    }
    assert batch[..k] == batch;
  }

  /** The `catch` of the collection, as it runs: the admin error post. */
  method ReportCollectionError(client: SlackClient, celebrant: string, fault: Fault) returns (escaped: bool)
    modifies client
    ensures var f := CollectionFailure(old(client.trace), celebrant, fault, client.failing);
      client.trace == f.trace && escaped == f.escaped
  {
    var ok, _ := client.PostMessage(Admin, None, CollectionError(celebrant, fault));
    escaped := !ok;
  }

  /**
   * `triggerBirthdayCollection(client, celebrantId)` on the day `today`: the
   * calls are exactly those of CollectionOutcome, and the store is left as it was.
   */
  method TriggerBirthdayCollection(client: SlackClient, store: BirthdayStore, celebrant: string, today: string)
    returns (escaped: bool)
    requires store.Valid()
    modifies client
    ensures var o := CollectionOutcome(Find(store.birthdays, celebrant), celebrant, today,
                                       client.members, client.listFails, client.failing, old(client.trace));
      client.trace == o.trace && escaped == o.escaped
  {
    var count := store.CheckUserExists(celebrant);
    if count == 0 {
      escaped := ReportCollectionError(client, celebrant, UserMissing);
      return;
    }
    var birthday := store.GetBirthday(celebrant);
    FindUnique(store.birthdays, celebrant);
    if birthday.value.lastNotificationDate == Some(today) {
      return false;
    }
    if client.listFails {
      escaped := ReportCollectionError(client, celebrant, ApiError);
      return;
    }
    var users := Recipients(client.members, celebrant);
    var batches := Chunk(users, BatchSize);
    var b := 0;
    while b < |batches|
      invariant 0 <= b <= |batches|
      invariant client.trace == Requested(old(client.trace), Flatten(batches[..b]), celebrant, client.failing)
    {
      AskBatch(client, batches[b], celebrant);
      RequestedAppend(old(client.trace), Flatten(batches[..b]), batches[b], celebrant, client.failing);
      assert batches[..b + 1] == batches[..b] + [batches[b]];
      FlattenSnoc(batches[..b], batches[b]);
      b := b + 1;
    }
    assert batches[..b] == batches;
    var summaryOk, _ := client.PostMessage(Admin, None, CollectionSummary(|users|, celebrant));
    var fault := if summaryOk then MissingStatement(MissingUpdateStatement) else ApiError;
    escaped := ReportCollectionError(client, celebrant, fault);
  }

  // ----- postBirthdayThread -----

  /** A post the thread publisher is about to make. */
  datatype Draft = Draft(channel: Channel, thread: Option<nat>, content: Content)

  /** The post of draft `d` as the call at trace position `at`. */
  function Sent(d: Draft, at: nat, failing: set<nat>): Effect {
    Post(d.channel, d.thread, d.content, at !in failing)
  }

  /** The `n` calls made from trace position `pos` on all succeed. */
  predicate AllSucceed(pos: nat, n: nat, failing: set<nat>)
    decreases n
  {
    n == 0 || (pos !in failing && AllSucceed(pos + 1, n - 1, failing))
  }

  /** Calls succeed over a stretch exactly when they succeed over both of its parts. */
  lemma {:induction false} AllSucceedSplit(pos: nat, a: nat, b: nat, failing: set<nat>)
    ensures AllSucceed(pos, a + b, failing) <==> AllSucceed(pos, a, failing) && AllSucceed(pos + a, b, failing)
    decreases a
  {
    if a > 0 {
      AllSucceedSplit(pos + 1, a - 1, b, failing);
    }
  }


  /**
   * The trace `t` followed by the drafts posted one after the other, stopping
   * after the first call that fails (an `await` that throws).
   */
  function Attempt(t: seq<Effect>, drafts: seq<Draft>, failing: set<nat>): seq<Effect>
    decreases |drafts|
  {
    if drafts == [] then t
    else
      var next := t + [Sent(drafts[0], |t|, failing)];
      if |t| in failing then next else Attempt(next, drafts[1..], failing)
  }

  lemma AttemptOne(t: seq<Effect>, d: Draft, failing: set<nat>)
    ensures Attempt(t, [d], failing) == t + [Sent(d, |t|, failing)]
  {
    assert [d][1..] == [];
  }

  /** When every call succeeds, each draft is posted, in order, as delivered, after what the trace held. */
  lemma {:induction false} AttemptAllSucceed(t: seq<Effect>, drafts: seq<Draft>, failing: set<nat>)
    requires AllSucceed(|t|, |drafts|, failing)
    ensures var r := Attempt(t, drafts, failing);
      |r| == |t| + |drafts| && r[..|t|] == t
      && forall i :: 0 <= i < |drafts| ==> r[|t| + i] == Post(drafts[i].channel, drafts[i].thread, drafts[i].content, true)
    decreases |drafts|
  {
    if drafts != [] {
      var next := t + [Sent(drafts[0], |t|, failing)];
      AttemptAllSucceed(next, drafts[1..], failing);
      var r := Attempt(t, drafts, failing);
      assert r[..|t|] == r[..|next|][..|t|];
      forall j | |t| < j < |t| + |drafts|
        ensures r[j] == Post(drafts[j - |t|].channel, drafts[j - |t|].thread, drafts[j - |t|].content, true)
      {
        assert drafts[1..][j - |next|] == drafts[j - |t|];
      }
    }
  }

  /** When call `k` is the first to fail, exactly `k + 1` drafts are posted and the last is not delivered. */
  lemma {:induction false} AttemptFailure(t: seq<Effect>, drafts: seq<Draft>, failing: set<nat>, k: nat)
    requires k < |drafts|
    requires AllSucceed(|t|, k, failing) && |t| + k in failing
    ensures var r := Attempt(t, drafts, failing);
      |r| == |t| + k + 1 && r[|t| + k] == Post(drafts[k].channel, drafts[k].thread, drafts[k].content, false)
    decreases k
  {
    if k > 0 {
      AttemptFailure(t + [Sent(drafts[0], |t|, failing)], drafts[1..], failing, k - 1);
    }
  }

  /** Posting a concatenation posts the first part, and then the second only when the first went through. */
  lemma {:induction false} AttemptAppend(t: seq<Effect>, a: seq<Draft>, b: seq<Draft>, failing: set<nat>)
    ensures AllSucceed(|t|, |a|, failing) ==> Attempt(t, a + b, failing) == Attempt(Attempt(t, a, failing), b, failing)
    ensures !AllSucceed(|t|, |a|, failing) ==> Attempt(t, a + b, failing) == Attempt(t, a, failing)
    decreases |a|
  {
    if a == [] {
      assert a + b == b;
    } else {
      assert (a + b)[1..] == a[1..] + b;
      AttemptAppend(t + [Sent(a[0], |t|, failing)], a[1..], b, failing);
    }
  }

  /** One more post in a run of successful calls, and where the run ends if that post fails. */
  lemma AttemptStep(t: seq<Effect>, drafts: seq<Draft>, k: nat, failing: set<nat>)
    requires k < |drafts| && AllSucceed(|t|, k, failing)
    ensures |Attempt(t, drafts[..k], failing)| == |t| + k
    ensures Attempt(t, drafts[..k + 1], failing) == Attempt(t, drafts[..k], failing) + [Sent(drafts[k], |t| + k, failing)]
    ensures AllSucceed(|t|, k + 1, failing) == (|t| + k !in failing)
    ensures |t| + k in failing ==>
      Attempt(t, drafts, failing) == Attempt(t, drafts[..k + 1], failing) && !AllSucceed(|t|, |drafts|, failing)
  {
    assert drafts[..k + 1] == drafts[..k] + [drafts[k]];
    AttemptAllSucceed(t, drafts[..k], failing);
    AttemptAppend(t, drafts[..k], [drafts[k]], failing);
    AttemptOne(Attempt(t, drafts[..k], failing), drafts[k], failing);
    AllSucceedSplit(|t|, k, 1, failing);
    AllSucceedSplit(|t|, k + 1, |drafts| - k - 1, failing);
    AttemptAppend(t, drafts[..k + 1], drafts[k + 1..], failing);
    assert drafts[..k + 1] + drafts[k + 1..] == drafts;
  }

  /** One line of the digest: `• message _- sender_`. */
  function DigestLine(d: Contribution): string {
    "• " + d.body + " _- " + d.senderName + "_\n"
  }

  /** The digest lines of `descriptions`, in the order given. */
  function DigestLines(descriptions: seq<Contribution>): string
  {
    if descriptions == [] then []
    else DigestLines(descriptions[..|descriptions| - 1]) + DigestLine(descriptions[|descriptions| - 1])
  }

  const DigestHeader: string := "*Here's what your colleagues say about you:*\n\n"

  /** The digest keeps query order: the lines of a concatenation are the concatenated lines. */
  lemma {:induction false} DigestLinesAppend(a: seq<Contribution>, b: seq<Contribution>)
    ensures DigestLines(a + b) == DigestLines(a) + DigestLines(b)
    decreases |b|
  {
    if b == [] {
      assert a + b == a;
    } else {
      var b' := b[..|b| - 1];
      var last := b[|b| - 1];
      assert (a + b)[..|a + b| - 1] == a + b';
      assert (a + b)[|a + b| - 1] == last;
      DigestLinesAppend(a, b');
      calc {
        DigestLines(a + b);
        DigestLines(a + b') + DigestLine(last);
        DigestLines(a) + DigestLines(b') + DigestLine(last);
        DigestLines(a) + DigestLines(b);
      }
    }
  }

  /** Each description contributes exactly its own line. */
  lemma DigestLinesSingle(d: Contribution)
    ensures DigestLines([d]) == DigestLine(d)
  {
    assert [d][..0] == [];
  }

  /** The `descriptionMessage +=` loop. */
  method BuildDigest(descriptions: seq<Contribution>) returns (text: string)
    ensures text == DigestHeader + DigestLines(descriptions)
  {
    text := DigestHeader;
    var i := 0;
    while i < |descriptions|
      invariant 0 <= i <= |descriptions|
      invariant text == DigestHeader + DigestLines(descriptions[..i])
    {
      assert descriptions[..i + 1][..i] == descriptions[..i];
      text := text + DigestLine(descriptions[i]);
      i := i + 1;
    }
    assert descriptions[..i] == descriptions;
  }

  /** `if (message.media_url)`: a URL that is present and not empty. */
  predicate HasMedia(m: Contribution) {
    m.mediaUrl.Some? && m.mediaUrl.value != ""
  }

  /** The threaded reply for one collected message. */
  function ReplyContent(m: Contribution): (c: Content)
    ensures c.Reply?
    ensures c.image.Some? <==> HasMedia(m)
    ensures HasMedia(m) ==> c.image == m.mediaUrl && c.text == m.senderName + " says:\n" + m.body + "\n" + m.mediaUrl.value
    ensures !HasMedia(m) ==> c.text == m.senderName + " says:\n" + m.body
  {
    var text := m.senderName + " says:\n" + m.body;
    if HasMedia(m) then Reply(text + "\n" + m.mediaUrl.value, m.mediaUrl) else Reply(text, None)
  }

  /** The replies, one per message, in the given order, threaded under `root`. */
  function ReplyDrafts(messages: seq<Contribution>, root: nat): seq<Draft>
  {
    seq(|messages|, i requires 0 <= i < |messages| => Draft(Birthday, Some(root), ReplyContent(messages[i])))
  }

  /** The greeting and digest, threaded under `root`, when there are descriptions. */
  function DescriptionDrafts(descriptions: seq<Contribution>, greeting: string, root: nat): seq<Draft>
  {
    if descriptions == [] then []
    else [Draft(Birthday, Some(root), Greeting(greeting)),
          Draft(Birthday, Some(root), Text(DigestHeader + DigestLines(descriptions)))]
  }

  /** Every post the publisher would make if no call failed; the root post is at position `root`. */
  function ThreadDrafts(messages: seq<Contribution>, descriptions: seq<Contribution>,
                        greeting: string, celebrant: string, root: nat): seq<Draft>
  {
    if messages == [] then [Draft(Birthday, None, DefaultCelebration(celebrant))]
    else [Draft(Birthday, None, ThreadRoot(celebrant))]
         + DescriptionDrafts(descriptions, greeting, root) + ReplyDrafts(messages, root)
  }


  /** The outcome of the thread publisher, and which of the two tables it marks as sent. */
  datatype ThreadResult = ThreadResult(trace: seq<Effect>, escaped: bool,
                                       markDescriptions: bool, markMessages: bool)

  /**
   * What `postBirthdayThread` does to the trace `t`, given the celebrant's
   * unsent messages and descriptions in query order: its drafts are posted
   * until the first failing call, which is followed by the admin error post.
   */
  function ThreadOutcome(messages: seq<Contribution>, descriptions: seq<Contribution>, greeting: string,
                         celebrant: string, failing: set<nat>, t: seq<Effect>): ThreadResult
  {
    DraftsOutcome(ThreadDrafts(messages, descriptions, greeting, celebrant, |t|),
                  messages != [], descriptions != [], celebrant, failing, t)
  }

  /**
   * Posting `drafts` after `t`: all of them, or up to the first failing call
   * and then the admin error post. Descriptions are marked once the first three
   * posts went through, messages once all did.
   */
  function DraftsOutcome(drafts: seq<Draft>, hasMessages: bool, hasDescriptions: bool,
                         celebrant: string, failing: set<nat>, t: seq<Effect>): ThreadResult
  {
    var sent := Attempt(t, drafts, failing);
    var descriptionsMarked := hasMessages && hasDescriptions && AllSucceed(|t|, 3, failing);
    if AllSucceed(|t|, |drafts|, failing) then
      ThreadResult(sent, false, descriptionsMarked, hasMessages)
    else
      ThreadResult(Posted(sent, Admin, ThreadError(celebrant, ApiError), failing), |sent| in failing,
                   descriptionsMarked, false)
  }

  /** Without unsent messages: one default post, nothing threaded, nothing marked. */
  lemma ThreadWithoutMessages(descriptions: seq<Contribution>, greeting: string, celebrant: string,
                              failing: set<nat>, t: seq<Effect>)
    requires |t| !in failing
    ensures var r := ThreadOutcome([], descriptions, greeting, celebrant, failing, t);
      r.trace == t + [Post(Birthday, None, DefaultCelebration(celebrant), true)]
      && !r.escaped && !r.markDescriptions && !r.markMessages
  {
    AttemptOne(t, Draft(Birthday, None, DefaultCelebration(celebrant)), failing);
  }

  /** The drafts of a thread with messages: root, then greeting and digest when there are descriptions, then the replies. */
  lemma ThreadDraftsShape(messages: seq<Contribution>, descriptions: seq<Contribution>, greeting: string,
                          celebrant: string, root: nat)
    requires messages != []
    ensures var drafts := ThreadDrafts(messages, descriptions, greeting, celebrant, root);
      var d := if descriptions == [] then 0 else 2;
      |drafts| == 1 + d + |messages|
      && drafts[0] == Draft(Birthday, None, ThreadRoot(celebrant))
      && (descriptions != [] ==>
            drafts[1] == Draft(Birthday, Some(root), Greeting(greeting))
            && drafts[2] == Draft(Birthday, Some(root), Text(DigestHeader + DigestLines(descriptions))))
      && (forall i :: 0 <= i < |messages| ==> drafts[1 + d + i] == Draft(Birthday, Some(root), ReplyContent(messages[i])))
  {
  }

  /**
   * When every call succeeds: the root post, then (when there are descriptions)
   * the greeting and the digest, then one reply per message in query order, all
   * threaded under the root; both tables are marked.
   */
  lemma ThreadOrder(messages: seq<Contribution>, descriptions: seq<Contribution>, greeting: string,
                    celebrant: string, failing: set<nat>, t: seq<Effect>)
    requires messages != []
    requires AllSucceed(|t|, (if descriptions == [] then 1 else 3) + |messages|, failing)
    ensures var r := ThreadOutcome(messages, descriptions, greeting, celebrant, failing, t);
      var d := if descriptions == [] then 0 else 2;
      var root := |t|;
      |r.trace| == |t| + 1 + d + |messages| && r.trace[..|t|] == t
      && r.trace[root] == Post(Birthday, None, ThreadRoot(celebrant), true)
      && (descriptions != [] ==>
            r.trace[root + 1] == Post(Birthday, Some(root), Greeting(greeting), true)
            && r.trace[root + 2] == Post(Birthday, Some(root), Text(DigestHeader + DigestLines(descriptions)), true))
      && (forall i :: 0 <= i < |messages| ==>
            r.trace[root + 1 + d + i] == Post(Birthday, Some(root), ReplyContent(messages[i]), true))
      && !r.escaped && r.markMessages && r.markDescriptions == (descriptions != [])
  {
    var drafts := ThreadDrafts(messages, descriptions, greeting, celebrant, |t|);
    ThreadDraftsShape(messages, descriptions, greeting, celebrant, |t|);
    AttemptAllSucceed(t, drafts, failing);
    if descriptions != [] {
      AllSucceedSplit(|t|, 3, |messages|, failing);
    }
  }

  /** AllSucceed over three calls names the three calls. */
  lemma AllSucceedThree(pos: nat, failing: set<nat>)
    ensures AllSucceed(pos, 3, failing) <==> pos !in failing && pos + 1 !in failing && pos + 2 !in failing
  {
    assert AllSucceed(pos + 2, 1, failing) <==> pos + 2 !in failing;
  }

  /**
   * Messages are marked sent only when every post of the thread went through,
   * and descriptions only when the root, greeting and digest did.
   */
  lemma ThreadMarksAfterPosting(messages: seq<Contribution>, descriptions: seq<Contribution>, greeting: string,
                                celebrant: string, failing: set<nat>, t: seq<Effect>)
    ensures var r := ThreadOutcome(messages, descriptions, greeting, celebrant, failing, t);
      r.markMessages <==> messages != [] && AllSucceed(|t|, (if descriptions == [] then 1 else 3) + |messages|, failing)
    ensures var r := ThreadOutcome(messages, descriptions, greeting, celebrant, failing, t);
      r.markDescriptions <==>
        messages != [] && descriptions != [] && |t| !in failing && |t| + 1 !in failing && |t| + 2 !in failing
  {
    if messages != [] {
      ThreadDraftsShape(messages, descriptions, greeting, celebrant, |t|);
    }
    AllSucceedThree(|t|, failing);
  }

  /** The publisher stopped at the failed call number `at`: that post was not delivered, the error post follows, messages stay unsent. */
  predicate StoppedAt(r: ThreadResult, at: nat, celebrant: string, failing: set<nat>) {
    |r.trace| == at + 2 && r.trace[at].Post? && !r.trace[at].delivered && !r.markMessages
    && r.trace[at + 1] == Post(Admin, None, ThreadError(celebrant, ApiError), at + 1 !in failing)
    && r.escaped == (at + 1 in failing)
  }

  /** When a post fails, the calls stop there and one admin error post follows. */
  lemma ThreadStopsAtFailure(messages: seq<Contribution>, descriptions: seq<Contribution>, greeting: string,
                             celebrant: string, failing: set<nat>, t: seq<Effect>, k: nat)
    requires k < |ThreadDrafts(messages, descriptions, greeting, celebrant, |t|)|
    requires AllSucceed(|t|, k, failing)
    requires |t| + k in failing
    ensures StoppedAt(ThreadOutcome(messages, descriptions, greeting, celebrant, failing, t), |t| + k, celebrant, failing)
  {
    DraftsStopAtFailure(ThreadDrafts(messages, descriptions, greeting, celebrant, |t|),
                        messages != [], descriptions != [], celebrant, failing, t, k);
  }

  /** Posting drafts stops at the first failing call, and the error post follows. */
  lemma DraftsStopAtFailure(drafts: seq<Draft>, hasMessages: bool, hasDescriptions: bool,
                            celebrant: string, failing: set<nat>, t: seq<Effect>, k: nat)
    requires k < |drafts| && AllSucceed(|t|, k, failing) && |t| + k in failing
    ensures StoppedAt(DraftsOutcome(drafts, hasMessages, hasDescriptions, celebrant, failing, t), |t| + k, celebrant, failing)
  {
    var sent := Attempt(t, drafts, failing);
    AttemptFailure(t, drafts, failing, k);
    AllSucceedSplit(|t|, k, |drafts| - k, failing);
    assert !AllSucceed(|t| + k, |drafts| - k, failing);
    assert DraftsOutcome(drafts, hasMessages, hasDescriptions, celebrant, failing, t).trace[|t| + k] == sent[|t| + k];
  }

  /** A failing first post is followed by the admin error post alone. */
  lemma ThreadFirstPostFails(messages: seq<Contribution>, descriptions: seq<Contribution>, greeting: string,
                             celebrant: string, failing: set<nat>, t: seq<Effect>)
    requires |t| in failing
    ensures var r := ThreadOutcome(messages, descriptions, greeting, celebrant, failing, t);
      var first := if messages == [] then DefaultCelebration(celebrant) else ThreadRoot(celebrant);
      r.trace == Posted(t + [Post(Birthday, None, first, false)], Admin, ThreadError(celebrant, ApiError), failing)
      && r.escaped == (|t| + 1 in failing) && !r.markMessages && !r.markDescriptions
  {
    var drafts := ThreadDrafts(messages, descriptions, greeting, celebrant, |t|);
    AttemptAppend(t, [drafts[0]], drafts[1..], failing);
    assert [drafts[0]] + drafts[1..] == drafts;
    AttemptOne(t, drafts[0], failing);
  }

  /**
   * After a successful root post the rest of the thread is the body (greeting,
   * digest, replies) posted under the root, followed by the error post when
   * one of those fails.
   */
  lemma ThreadAfterRoot(messages: seq<Contribution>, descriptions: seq<Contribution>, greeting: string,
                        celebrant: string, failing: set<nat>, t: seq<Effect>)
    requires messages != [] && |t| !in failing
    ensures var rooted := t + [Post(Birthday, None, ThreadRoot(celebrant), true)];
      var body := DescriptionDrafts(descriptions, greeting, |t|) + ReplyDrafts(messages, |t|);
      var sent := Attempt(rooted, body, failing);
      var r := ThreadOutcome(messages, descriptions, greeting, celebrant, failing, t);
      (AllSucceed(|rooted|, |body|, failing) ==> r.trace == sent && !r.escaped)
      && (!AllSucceed(|rooted|, |body|, failing) ==>
            r.trace == Posted(sent, Admin, ThreadError(celebrant, ApiError), failing) && r.escaped == (|sent| in failing))
      && r.markMessages == AllSucceed(|rooted|, |body|, failing)
      && r.markDescriptions == (descriptions != [] && AllSucceed(|rooted|, 2, failing))
  {
    var rootDraft := Draft(Birthday, None, ThreadRoot(celebrant));
    var body := DescriptionDrafts(descriptions, greeting, |t|) + ReplyDrafts(messages, |t|);
    var drafts := ThreadDrafts(messages, descriptions, greeting, celebrant, |t|);
    assert drafts == [rootDraft] + body;
    AttemptOne(t, rootDraft, failing);
    AttemptAppend(t, [rootDraft], body, failing);
    AllSucceedSplit(|t|, 1, |body|, failing);
    AllSucceedSplit(|t|, 1, 2, failing);
  }

  /** The `catch` of the publisher, as it runs: the admin error post. */
  method ReportThreadError(client: SlackClient, celebrant: string) returns (escaped: bool)
    modifies client
    ensures client.trace == Posted(old(client.trace), Admin, ThreadError(celebrant, ApiError), client.failing)
    ensures escaped == (|old(client.trace)| in client.failing)
  {
    var ok, _ := client.PostMessage(Admin, None, ThreadError(celebrant, ApiError));
    escaped := !ok;
  }

  /** Posts one draft and tells whether it went through. */
  method PostDraft(client: SlackClient, d: Draft) returns (ok: bool)
    modifies client
    ensures client.trace == old(client.trace) + [Sent(d, |old(client.trace)|, client.failing)]
    ensures ok == (|old(client.trace)| !in client.failing)
  {
    var ts;
    ok, ts := client.PostMessage(d.channel, d.thread, d.content);
  }

  /**
   * The `for (const message of messages)` loop: one threaded reply per message,
   * in order, until the first failing call.
   */
  method PostReplies(client: SlackClient, messages: seq<Contribution>, root: nat) returns (ok: bool)
    modifies client
    ensures client.trace == Attempt(old(client.trace), ReplyDrafts(messages, root), client.failing)
    ensures ok == AllSucceed(|old(client.trace)|, |messages|, client.failing)
  {
    ghost var t := client.trace;
    ghost var drafts := ReplyDrafts(messages, root);
    assert drafts[..0] == [];
    var k := 0;
    while k < |messages|
      invariant 0 <= k <= |messages|
      invariant AllSucceed(|t|, k, client.failing)
      invariant client.trace == Attempt(t, drafts[..k], client.failing)
    {
      ok := PostDraft(client, Draft(Birthday, Some(root), ReplyContent(messages[k])));
      AttemptStep(t, drafts, k, client.failing);
      if !ok {
        return;
      }
      k := k + 1;
    }
    assert drafts[..k] == drafts;
    ok := true;
  }

  /**
   * The greeting and the digest, posted under `root` when there are
   * descriptions, and the descriptions marked sent once both went through.
   */
  method PostDescriptions(client: SlackClient, store: BirthdayStore, celebrant: string, root: nat)
    returns (ok: bool, choice: nat)
    requires store.Valid()
    modifies client, store
    ensures store.Valid()
    ensures choice < GreetingCount
    ensures var drafts := DescriptionDrafts(Unsent(old(store.descriptions), celebrant), BirthdayGreeting(choice), root);
      client.trace == Attempt(old(client.trace), drafts, client.failing)
      && ok == AllSucceed(|old(client.trace)|, |drafts|, client.failing)
    ensures store.descriptions
      == if Unsent(old(store.descriptions), celebrant) != [] && AllSucceed(|old(client.trace)|, 2, client.failing)
         then MarkSent(old(store.descriptions), celebrant) else old(store.descriptions)
    ensures store.birthdays == old(store.birthdays) && store.messages == old(store.messages)
    ensures store.nextMessageId == old(store.nextMessageId) && store.nextDescriptionId == old(store.nextDescriptionId)
  {
    choice := 0;
    ghost var t := client.trace;
    ghost var failing := client.failing;
    var descriptions := store.GetDescriptionMessages(celebrant);
    if |descriptions| == 0 {
      return true, choice;
    }
    var greeting;
    choice, greeting := GenerateBirthdayMessage();
    var greetingDraft := Draft(Birthday, Some(root), Greeting(greeting));
    ghost var digestDraft := Draft(Birthday, Some(root), Text(DigestHeader + DigestLines(descriptions)));
    assert DescriptionDrafts(descriptions, BirthdayGreeting(choice), root) == [greetingDraft] + [digestDraft];
    AttemptOne(t, greetingDraft, failing);
    AttemptAppend(t, [greetingDraft], [digestDraft], failing);
    AllSucceedSplit(|t|, 1, 1, failing);
    ok := PostDraft(client, greetingDraft);
    if !ok {
      return;
    }
    ghost var greeted := client.trace;
    AttemptOne(greeted, digestDraft, failing);
    var digest := BuildDigest(descriptions);
    ok := PostDraft(client, Draft(Birthday, Some(root), Text(digest)));
    if !ok {
      return;
    }
    store.MarkDescriptionMessagesAsSent(celebrant);
  }

  /**
   * Everything after a successful root post: the descriptions' greeting and
   * digest, then the replies, then the messages marked sent. `ok` tells whether
   * every one of these posts went through.
   */
  method PostThreadBody(client: SlackClient, store: BirthdayStore, celebrant: string,
                        messages: seq<Contribution>, root: nat)
    returns (ok: bool, choice: nat)
    requires store.Valid()
    modifies client, store
    ensures store.Valid()
    ensures choice < GreetingCount
    ensures var body := DescriptionDrafts(Unsent(old(store.descriptions), celebrant), BirthdayGreeting(choice), root)
                        + ReplyDrafts(messages, root);
      client.trace == Attempt(old(client.trace), body, client.failing)
      && ok == AllSucceed(|old(client.trace)|, |body|, client.failing)
    ensures store.descriptions
      == if Unsent(old(store.descriptions), celebrant) != [] && AllSucceed(|old(client.trace)|, 2, client.failing)
         then MarkSent(old(store.descriptions), celebrant) else old(store.descriptions)
    ensures store.messages == if ok then MarkSent(old(store.messages), celebrant) else old(store.messages)
    ensures store.birthdays == old(store.birthdays)
    ensures store.nextMessageId == old(store.nextMessageId) && store.nextDescriptionId == old(store.nextDescriptionId)
  {
    ghost var t := client.trace;
    ghost var failing := client.failing;
    ghost var descriptions := Unsent(store.descriptions, celebrant);
    var describedOk;
    describedOk, choice := PostDescriptions(client, store, celebrant, root);
    ghost var described := DescriptionDrafts(descriptions, BirthdayGreeting(choice), root);
    ghost var replies := ReplyDrafts(messages, root);
    AttemptAppend(t, described, replies, failing);
    AllSucceedSplit(|t|, |described|, |replies|, failing);
    if !describedOk {
      return false, choice;
    }
    AttemptAllSucceed(t, described, failing);
    ok := PostReplies(client, messages, root);
    if !ok {
      return;
    }
    store.MarkMessagesAsSent(celebrant);
  }

  /**
   * The publisher once the celebrant has unsent messages: the root post, then
   * the body under it, then the admin error post when a call failed.
   */
  method PostThread(client: SlackClient, store: BirthdayStore, celebrant: string, messages: seq<Contribution>)
    returns (escaped: bool, choice: nat)
    requires store.Valid()
    requires messages != [] && messages == Unsent(store.messages, celebrant)
    modifies client, store
    ensures store.Valid()
    ensures choice < GreetingCount
    ensures var r := ThreadOutcome(messages, Unsent(old(store.descriptions), celebrant),
                                   BirthdayGreeting(choice), celebrant, client.failing, old(client.trace));
      client.trace == r.trace && escaped == r.escaped
      && store.messages == (if r.markMessages then MarkSent(old(store.messages), celebrant) else old(store.messages))
      && store.descriptions
         == (if r.markDescriptions then MarkSent(old(store.descriptions), celebrant) else old(store.descriptions))
    ensures store.birthdays == old(store.birthdays)
    ensures store.nextMessageId == old(store.nextMessageId) && store.nextDescriptionId == old(store.nextDescriptionId)
  {
    choice := 0;
    ghost var t := client.trace;
    ghost var failing := client.failing;
    ghost var descriptions := Unsent(store.descriptions, celebrant);
    var rootOk, root := client.PostMessage(Birthday, None, ThreadRoot(celebrant));
    if !rootOk {
      ThreadFirstPostFails(messages, descriptions, BirthdayGreeting(choice), celebrant, failing, t);
      escaped := ReportThreadError(client, celebrant);
      return;
    }
    ghost var rooted := client.trace;
    assert rooted == t + [Post(Birthday, None, ThreadRoot(celebrant), true)];
    var bodyOk;
    bodyOk, choice := PostThreadBody(client, store, celebrant, messages, root);
    ThreadAfterRoot(messages, descriptions, BirthdayGreeting(choice), celebrant, failing, t);
    if !bodyOk {
      escaped := ReportThreadError(client, celebrant);
      return;
    }
    escaped := false;
  }

  /**
   * `postBirthdayThread(client, celebrantId)`: the calls are exactly those of
   * ThreadOutcome on the celebrant's unsent rows, and the tables it marks are
   * marked for that celebrant only.
   */
  method PostBirthdayThread(client: SlackClient, store: BirthdayStore, celebrant: string)
    returns (escaped: bool, choice: nat)
    requires store.Valid()
    modifies client, store
    ensures store.Valid()
    ensures choice < GreetingCount
    ensures var r := ThreadOutcome(Unsent(old(store.messages), celebrant), Unsent(old(store.descriptions), celebrant),
                                   BirthdayGreeting(choice), celebrant, client.failing, old(client.trace));
      client.trace == r.trace && escaped == r.escaped
      && store.messages == (if r.markMessages then MarkSent(old(store.messages), celebrant) else old(store.messages))
      && store.descriptions
         == (if r.markDescriptions then MarkSent(old(store.descriptions), celebrant) else old(store.descriptions))
    ensures store.birthdays == old(store.birthdays)
    ensures store.nextMessageId == old(store.nextMessageId) && store.nextDescriptionId == old(store.nextDescriptionId)
  {
    choice := 0;
    var messages := store.GetBirthdayMessages(celebrant);
    if |messages| == 0 {
      ghost var t := client.trace;
      ghost var descriptions := Unsent(store.descriptions, celebrant);
      var ok, _ := client.PostMessage(Birthday, None, DefaultCelebration(celebrant));
      if !ok {
        ThreadFirstPostFails(messages, descriptions, BirthdayGreeting(choice), celebrant, client.failing, t);
        escaped := ReportThreadError(client, celebrant);
      } else {
        ThreadWithoutMessages(descriptions, BirthdayGreeting(choice), celebrant, client.failing, t);
        escaped := false;
      }
      return;
    }
    escaped, choice := PostThread(client, store, celebrant, messages);
  }
}
