/**
 * The Slack Web API as the bot sees it: a directory of workspace members
 * (`users.list`, `users.info`) and message calls (`chat.postMessage`,
 * `chat.delete`). Every message call is recorded, in call order, in an effect
 * trace together with whether it succeeded; which calls fail is fixed in
 * advance by the set of their positions in the trace. The position of a post
 * also serves as its message timestamp `ts`, the handle replies are threaded under.
 */
module Slack {
  import opened Wrappers

  /** A workspace member as `users.list` and `users.info` report it. */
  datatype Member = Member(
    id: string,
    name: string,
    realName: string,
    firstName: string,
    isBot: bool,
    deleted: bool,
    isRestricted: bool,
    isUltraRestricted: bool)

  /** Where a message goes: the two configured channels, a user's DMs, or a conversation by id. */
  datatype Channel = Admin | Birthday | User(userId: string) | Conversation(channelId: string)

  /** Why a `try` block of the bot was left through its `catch`. */
  datatype Fault =
    | UserMissing             // 'User does not exist in birthdays table'
    | MissingStatement(name: string)  // a call on an undefined prepared statement (TypeError)
    | ApiError                // a Slack Web API call that failed

  /** What a message says; fixed templates are named by their parameters. */
  datatype Content =
    | CollectionRequest(celebrant: string)      // DM with the form; its Submit button's value is `celebrant`
    | CollectionSummary(count: nat, celebrant: string)
    | CollectionError(celebrant: string, fault: Fault)
    | DefaultCelebration(celebrant: string)     // the birthday post when no messages were collected
    | ThreadRoot(celebrant: string)             // the birthday post that the collected messages reply to
    | Greeting(greeting: string)                // `*${greeting}*`
    | Text(text: string)                        // a literal text, or a text built by the bot
    | Reply(text: string, image: Option<string>)  // a collected message, with an image block when it has media
    | ThreadError(celebrant: string, fault: Fault)
    | CouldNotFind(mention: string)
    | BirthdaySet(firstName: string, birthDate: string)
    | Calendar(months: seq<MonthGroup>)

  /** One month of the birthday calendar: month 1-12 and its (day, name) lines. */
  datatype MonthGroup = MonthGroup(month: int, entries: seq<Entry>)
  datatype Entry = Entry(day: int, name: string)

  /** One recorded API call and whether it succeeded. */
  datatype Effect =
    | Post(channel: Channel, thread: Option<nat>, content: Content, delivered: bool)
    | Delete(channel: Channel, ts: string, done: bool)

  /** The first member with the given id (`users.info`), None when there is none. */
  function Lookup(members: seq<Member>, id: string): (r: Option<Member>)
    ensures r.Some? ==> r.value in members && r.value.id == id
    ensures r.None? ==> forall m :: m in members ==> m.id != id
  {
    if members == [] then None
    else if members[0].id == id then Some(members[0])
    else Lookup(members[1..], id)
  }

  /** The display name the bot uses: `real_name || name`. */
  function DisplayName(m: Member): string {
    if m.realName != "" then m.realName else m.name
  }

  class SlackClient {
    /** What `users.list` returns and `users.info` looks up. */
    const members: seq<Member>
    /** Whether `users.list` fails. */
    const listFails: bool
    /** The positions in the trace of the message calls that fail. */
    const failing: set<nat>
    /** Every message call made so far. */
    var trace: seq<Effect>

    constructor (members: seq<Member>, listFails: bool, failing: set<nat>)
      ensures this.members == members && this.listFails == listFails && this.failing == failing
      ensures trace == []
    {
      this.members := members;
      this.listFails := listFails;
      this.failing := failing;
      trace := [];
    }

    /** `chat.postMessage`: the call is recorded; `ts` is its position, `ok` whether it went through. */
    method PostMessage(channel: Channel, thread: Option<nat>, content: Content) returns (ok: bool, ts: nat)
      modifies this
      ensures ts == |old(trace)| && ok == (ts !in failing)
      ensures trace == old(trace) + [Post(channel, thread, content, ok)]
    {
      ts := |trace|;
      ok := ts !in failing;
      trace := trace + [Post(channel, thread, content, ok)];
    }

    /** `chat.delete`. */
    method DeleteMessage(channel: Channel, ts: string) returns (ok: bool)
      modifies this
      ensures ok == (|old(trace)| !in failing)
      ensures trace == old(trace) + [Delete(channel, ts, ok)]
    {
      ok := |trace| !in failing;
      trace := trace + [Delete(channel, ts, ok)];
    }
  }
}
