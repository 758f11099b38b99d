/**
 * The daily scheduler: once a day at 09:00 it reads every birthday record,
 * places the record's day and month in the current year, counts the days from
 * now to that date (rounding up), and acts on the count: 7 starts the message
 * collection, 1 asks for the number of collected messages, 0 publishes the
 * birthday thread. An exception anywhere ends the whole run of that day.
 */
module BirthdayCron {
  import opened Wrappers
  import opened Slack
  import opened Database
  import opened BirthdayService
  import opened DayCount

  /** What does not change during a run: the clock, the records read, and the Slack workspace. */
  datatype Env = Env(clock: Clock, birthdays: seq<BirthdayRow>, members: seq<Member>, listFails: bool, failing: set<nat>)

  /** The state a run threads from record to record: the Slack trace, the two contribution tables, the actions so far, and whether it has stopped. */
  datatype TickState = TickState(
    trace: seq<Effect>,
    messages: seq<Contribution>,
    descriptions: seq<Contribution>,
    handled: seq<Action>,
    aborted: bool)

  /** The action the day count selects for each record, in table order. */
  function Plans(rows: seq<BirthdayRow>, c: Clock): (actions: seq<Action>)
    ensures |actions| == |rows|
  {
    seq(|rows|, i requires 0 <= i < |rows| => Plan(rows[i], c))
  }

  /**
   * One record and the action selected for it: nothing after the run has
   * stopped; otherwise that action. The count of collected messages reads a
   * statement the database does not define, so it always throws and stops the
   * run. `choice` is the greeting picked for a thread.
   */
  function Step(s: TickState, row: BirthdayRow, action: Action, e: Env, choice: nat): TickState
    requires choice < GreetingCount
  {
    if s.aborted then s
    else match action
      case Idle => s.(handled := s.handled + [Idle])
      case CountPost => s.(handled := s.handled + [CountPost], aborted := true)
      case Collect =>
        var o := CollectionOutcome(Find(e.birthdays, row.userId), row.userId, e.clock.isoToday,
                                   e.members, e.listFails, e.failing, s.trace);
        s.(trace := o.trace, handled := s.handled + [Collect], aborted := o.escaped)
      case Publish =>
        var r := ThreadOutcome(Unsent(s.messages, row.userId), Unsent(s.descriptions, row.userId),
                               BirthdayGreeting(choice), row.userId, e.failing, s.trace);
        TickState(
          r.trace,
          if r.markMessages then MarkSent(s.messages, row.userId) else s.messages,
          if r.markDescriptions then MarkSent(s.descriptions, row.userId) else s.descriptions,
          s.handled + [Publish],
          r.escaped)
  }

  /** How one record extends the actions taken, and when it stops the run. */
  lemma StepBookkeeping(s: TickState, row: BirthdayRow, action: Action, e: Env, choice: nat)
    requires choice < GreetingCount
    ensures s.aborted ==> Step(s, row, action, e, choice) == s
    ensures !s.aborted ==> Step(s, row, action, e, choice).handled == s.handled + [action]
    ensures !s.aborted && action == CountPost ==> Step(s, row, action, e, choice).aborted
    ensures !s.aborted && action == Idle ==> Step(s, row, action, e, choice) == s.(handled := s.handled + [Idle])
  {
  }

  predicate ValidChoices(choices: seq<nat>) {
    forall i :: 0 <= i < |choices| ==> choices[i] < GreetingCount
  }

  /** The first `n` records, in the order the table returns them. */
  function Run(s: TickState, rows: seq<BirthdayRow>, actions: seq<Action>, e: Env, choices: seq<nat>, n: nat): TickState
    requires n <= |rows| && n <= |actions| && n <= |choices| && ValidChoices(choices)
  {
    if n == 0 then s
    else Step(Run(s, rows, actions, e, choices, n - 1), rows[n - 1], actions[n - 1], e, choices[n - 1])
  }

  /** Only the greetings picked for the records already visited matter. */
  lemma {:induction false} RunChoicesPrefix(s: TickState, rows: seq<BirthdayRow>, actions: seq<Action>, e: Env,
                                            choices: seq<nat>, more: seq<nat>, n: nat)
    requires n <= |rows| && n <= |actions| && n <= |choices| && ValidChoices(choices + more)
    ensures ValidChoices(choices)
    ensures Run(s, rows, actions, e, choices + more, n) == Run(s, rows, actions, e, choices, n)
  {
    assert forall i :: 0 <= i < |choices| ==> (choices + more)[i] == choices[i];
    if n > 0 {
      RunChoicesPrefix(s, rows, actions, e, choices, more, n - 1);
    }
  }

  /** One more record, with its greeting, extends a run by one step. */
  lemma RunSnoc(s: TickState, rows: seq<BirthdayRow>, actions: seq<Action>, e: Env, choices: seq<nat>, choice: nat, n: nat)
    requires n < |rows| && n < |actions| && n == |choices| && ValidChoices(choices) && choice < GreetingCount
    ensures ValidChoices(choices + [choice])
    ensures Run(s, rows, actions, e, choices + [choice], n + 1)
            == Step(Run(s, rows, actions, e, choices, n), rows[n], actions[n], e, choice)
  {
    RunChoicesPrefix(s, rows, actions, e, choices, [choice], n);
  }

  /** The actions taken are the first ones planned; all of them unless the run stopped, and at least one if it did. */
  predicate VisitedInOrder(r: TickState, actions: seq<Action>, n: nat)
    requires n <= |actions|
  {
    |r.handled| <= n
    && r.handled == actions[..|r.handled|]
    && (!r.aborted ==> |r.handled| == n)
    && (r.aborted ==> |r.handled| > 0)
  }

  /** No count request was followed by another record. */
  predicate NoCountBeforeLast(handled: seq<Action>) {
    forall i :: 0 <= i < |handled| - 1 ==> handled[i] != CountPost
  }

  /** A run whose last action is a count request has stopped. */
  predicate CountLastAborts(r: TickState) {
    r.handled != [] && r.handled[|r.handled| - 1] == CountPost ==> r.aborted
  }

  /** How a step relates the state before and after it, as far as the actions taken are concerned. */
  predicate Advances(r0: TickState, r: TickState, a: Action) {
    (r0.aborted ==> r == r0)
    && (!r0.aborted ==> r.handled == r0.handled + [a])
    && (!r0.aborted && a == CountPost ==> r.aborted)
  }

  /** One step keeps the run in plan order. */
  lemma VisitedStep(r0: TickState, r: TickState, actions: seq<Action>, n: nat)
    requires 0 < n <= |actions| && VisitedInOrder(r0, actions, n - 1) && Advances(r0, r, actions[n - 1])
    ensures VisitedInOrder(r, actions, n)
  {
    if !r0.aborted {
      assert actions[..n] == actions[..n - 1] + [actions[n - 1]];
    }
  }

  /** One step keeps count requests last. */
  lemma CountStep(r0: TickState, r: TickState, a: Action)
    requires NoCountBeforeLast(r0.handled) && CountLastAborts(r0) && Advances(r0, r, a)
    ensures NoCountBeforeLast(r.handled) && CountLastAborts(r)
  {
    if !r0.aborted {
      assert forall i :: 0 <= i < |r.handled| - 1 ==> r.handled[i] == r0.handled[i];
    }
  }

  /**
   * The records are visited in table order, each gets the action selected for
   * it, and a run stops early only through an exception.
   */
  lemma {:induction false} RunVisitsInOrder(s: TickState, rows: seq<BirthdayRow>, actions: seq<Action>, e: Env,
                                            choices: seq<nat>, n: nat)
    requires n <= |rows| && n <= |actions| && n <= |choices| && ValidChoices(choices)
    requires s.handled == [] && !s.aborted
    ensures VisitedInOrder(Run(s, rows, actions, e, choices, n), actions, n)
  {
    if n > 0 {
      var r0 := Run(s, rows, actions, e, choices, n - 1);
      RunVisitsInOrder(s, rows, actions, e, choices, n - 1);
      StepBookkeeping(r0, rows[n - 1], actions[n - 1], e, choices[n - 1]);
      VisitedStep(r0, Step(r0, rows[n - 1], actions[n - 1], e, choices[n - 1]), actions, n);
    }
  }

  /** Every record but the last one visited ran to completion: a count request always ends the run. */
  lemma {:induction false} CountRequestEndsRun(s: TickState, rows: seq<BirthdayRow>, actions: seq<Action>, e: Env,
                                               choices: seq<nat>, n: nat)
    requires n <= |rows| && n <= |actions| && n <= |choices| && ValidChoices(choices)
    requires s.handled == [] && !s.aborted
    ensures NoCountBeforeLast(Run(s, rows, actions, e, choices, n).handled)
    ensures CountLastAborts(Run(s, rows, actions, e, choices, n))
  {
    if n > 0 {
      var r0 := Run(s, rows, actions, e, choices, n - 1);
      CountRequestEndsRun(s, rows, actions, e, choices, n - 1);
      StepBookkeeping(r0, rows[n - 1], actions[n - 1], e, choices[n - 1]);
      CountStep(r0, Step(r0, rows[n - 1], actions[n - 1], e, choices[n - 1]), actions[n - 1]);
    }
  }

  /** A stopped run stays stopped: the records after the stop are not visited. */
  lemma {:induction false} RunStaysAborted(s: TickState, rows: seq<BirthdayRow>, actions: seq<Action>, e: Env,
                                           choices: seq<nat>, k: nat, n: nat)
    requires k <= n <= |rows| && n <= |actions| && n <= |choices| && ValidChoices(choices)
    requires Run(s, rows, actions, e, choices, k).aborted
    ensures Run(s, rows, actions, e, choices, n) == Run(s, rows, actions, e, choices, k)
    decreases n
  {
    if k < n {
      var r0 := Run(s, rows, actions, e, choices, n - 1);
      RunStaysAborted(s, rows, actions, e, choices, k, n - 1);
      assert r0.aborted;
      StepBookkeeping(r0, rows[n - 1], actions[n - 1], e, choices[n - 1]);
    }
  }

  /** A day on which no record is due posts nothing and changes no table. */
  lemma {:induction false} QuietDay(s: TickState, rows: seq<BirthdayRow>, actions: seq<Action>, e: Env,
                                    choices: seq<nat>, n: nat)
    requires n <= |rows| && n <= |actions| && n <= |choices| && ValidChoices(choices)
    requires !s.aborted
    requires forall i :: 0 <= i < n ==> actions[i] == Idle
    ensures var r := Run(s, rows, actions, e, choices, n);
      r.trace == s.trace && r.messages == s.messages && r.descriptions == s.descriptions && !r.aborted
  {
    if n > 0 {
      QuietDay(s, rows, actions, e, choices, n - 1);
      StepBookkeeping(Run(s, rows, actions, e, choices, n - 1), rows[n - 1], actions[n - 1], e, choices[n - 1]);
    }
  }

  /** One iteration of the loop over the records. */
  method HandleRecord(client: SlackClient, store: BirthdayStore, row: BirthdayRow, c: Clock,
                      ghost e: Env, ghost before: TickState)
    returns (action: Action, aborted: bool, choice: nat)
    requires store.Valid()
    requires e == Env(c, store.birthdays, client.members, client.listFails, client.failing)
    requires before == TickState(client.trace, store.messages, store.descriptions, before.handled, false)
    modifies client, store
    ensures store.Valid()
    ensures action == Plan(row, c) && choice < GreetingCount
    ensures Step(before, row, action, e, choice)
            == TickState(client.trace, store.messages, store.descriptions, before.handled + [action], aborted)
    ensures store.birthdays == old(store.birthdays)
    ensures store.nextMessageId == old(store.nextMessageId) && store.nextDescriptionId == old(store.nextDescriptionId)
  {
    action := Dispatch(OffsetOf(row.birthDate, c));
    choice := 0;
    if action == Collect {
      aborted := TriggerBirthdayCollection(client, store, row.userId, c.isoToday);
    } else if action == CountPost {
      // `statements.getBirthdayMessageCount` is undefined: calling `.get` on it throws.
      aborted := true;
    } else if action == Publish {
      aborted, choice := PostBirthdayThread(client, store, row.userId);
    } else {
      aborted := false;
    }
  }

  /**
   * One run of the daily job: the records in table order until the first
   * exception, which the job's `catch` swallows. `choices` are the greetings
   * picked, one per visited record.
   */
  method Tick(client: SlackClient, store: BirthdayStore, c: Clock)
    returns (handled: seq<Action>, aborted: bool, choices: seq<nat>)
    requires store.Valid()
    modifies client, store
    ensures store.Valid()
    ensures store.birthdays == old(store.birthdays)
    ensures |choices| <= |store.birthdays| && ValidChoices(choices)
    ensures |choices| < |store.birthdays| ==> aborted
    ensures Run(TickState(old(client.trace), old(store.messages), old(store.descriptions), [], false),
                store.birthdays, Plans(store.birthdays, c),
                Env(c, store.birthdays, client.members, client.listFails, client.failing), choices, |choices|)
            == TickState(client.trace, store.messages, store.descriptions, handled, aborted)
  {
    var rows := store.GetAllBirthdays();
    ghost var s0 := TickState(client.trace, store.messages, store.descriptions, [], false);
    ghost var actions := Plans(rows, c);
    ghost var e := Env(c, rows, client.members, client.listFails, client.failing);
    handled, aborted, choices := [], false, [];
    var i := 0;
    while i < |rows| && !aborted
      invariant 0 <= i <= |rows| && |choices| == i && ValidChoices(choices)
      invariant store.Valid() && store.birthdays == rows
      invariant Run(s0, rows, actions, e, choices, i)
                == TickState(client.trace, store.messages, store.descriptions, handled, aborted)
    {
      ghost var before := TickState(client.trace, store.messages, store.descriptions, handled, false);
      var action, stop, choice := HandleRecord(client, store, rows[i], c, e, before);
      assert actions[i] == action;
      RunSnoc(s0, rows, actions, e, choices, choice, i);
      handled, aborted, choices := handled + [action], stop, choices + [choice];
      i := i + 1;
    }
  }
}
