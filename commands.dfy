/**
 * The slash commands and the Submit button of the collection form:
 * `/set-birthday`, `/see-birthdays`, `/collect-birthday-messages`,
 * `/post-birthday-thread` and the `submit_birthday_content` action. Each
 * handler is a method on the Slack client and the store, proved against
 * functions that give its exact calls. A `say` reply is a post to the
 * conversation the command was typed in.
 */
module Commands {
  import opened Wrappers
  import opened Text
  import opened JsDate
  import opened Slack
  import opened Database
  import opened BirthdayService
  import opened DayCount

  // ----- isValidDate -----

  /** `^\d{2}-\d{2}$`: two digits, a hyphen, two digits and nothing else. */
  predicate DateShape(s: string) {
    |s| == 5 && AllDigits(s[..2]) && s[2] == '-' && AllDigits(s[3..])
  }

  /**
   * `isValidDate`: the shape, a month from 1 to 12, and a day from 1 to the
   * date of `new Date(2000, month, 0)`, the last day of that month in 2000.
   */
  predicate IsValidDate(s: string) {
    DateShape(s)
    && var day, month := Decimal(s[..2]), Decimal(s[3..]);
       1 <= month <= 12 && 1 <= day <= DateOf(2000, month, 0).day
  }

  /** A date is accepted iff it is `DD-MM` naming a day of the leap year 2000. */
  lemma IsValidDateMeans(s: string)
    ensures IsValidDate(s) <==>
      DateShape(s)
      && var day, month := Decimal(s[..2]), Decimal(s[3..]);
         1 <= month <= 12 && 1 <= day <= DaysInMonth(2000, month - 1)
  {
    if DateShape(s) && 1 <= Decimal(s[3..]) <= 12 {
      DayZeroIsLastOfPreviousMonth(2000, Decimal(s[3..]));
    }
  }

  /** The same for a date given by its four digits. */
  lemma ValidDateOfDigits(a: char, b: char, c: char, d: char)
    requires '0' <= a <= '9' && '0' <= b <= '9' && '0' <= c <= '9' && '0' <= d <= '9'
    ensures var day, month := DigitOf(a) * 10 + DigitOf(b), DigitOf(c) * 10 + DigitOf(d);
      IsValidDate([a, b, '-', c, d]) <==> 1 <= month <= 12 && 1 <= day <= DaysInMonth(2000, month - 1)
  {
    var s := [a, b, '-', c, d];
    assert s[..2] == [a, b] && s[3..] == [c, d];
    DecimalTwo([a, b]);
    DecimalTwo([c, d]);
    IsValidDateMeans(s);
  }

  /** The 29th of February is accepted whatever the year. */
  lemma LeapDayAccepted()
    ensures IsValidDate("29-02")
  {
    ValidDateOfDigits('2', '9', '0', '2');
  }

  /** The 30th of February, the 31st of April and day 0 are refused. */
  lemma ImpossibleDatesRefused()
    ensures !IsValidDate("30-02") && !IsValidDate("31-04") && !IsValidDate("00-05")
  {
    ValidDateOfDigits('3', '0', '0', '2');
    ValidDateOfDigits('3', '1', '0', '4');
    ValidDateOfDigits('0', '0', '0', '5');
  }

  /** An accepted date has no space in it, so it stays one token of the command. */
  lemma ValidDateHasNoSpace(s: string)
    requires DateShape(s)
    ensures ' ' !in s && s != [] && !IsSpace(s[|s| - 1])
  {
    assert s == s[..2] + "-" + s[3..];
    assert ' ' !in s[..2] && ' ' !in s[3..];
    assert s[|s| - 1] == s[3..][1];
  }

  /**
   * A date the command accepts is the date the scheduler celebrates: it falls
   * on that very day of any year where the day exists (1900 + `year` for a
   * two-digit year, as the `Date` constructor reads it).
   */
  lemma AcceptedDateIsCelebrated(s: string, year: int)
    requires IsValidDate(s)
    requires Decimal(s[..2]) <= DaysInMonth(FullYear(year), Decimal(s[3..]) - 1)
    requires -MaxDays <= DayFromYear(FullYear(year)) && DayFromYear(FullYear(year) + 1) <= MaxDays
    ensures NominalDay(s, year) == Some(DayNumber(FullYear(year), Decimal(s[3..]) - 1, Decimal(s[..2])))
  {
    var dd, mm := s[..2], s[3..];
    assert s == dd + "-" + mm;
    IsValidDateMeans(s);
    DayNumberWithinYear(FullYear(year), Decimal(mm) - 1, Decimal(dd));
    NominalDayOfCalendarDate(dd, mm, year);
  }

  // ----- mentions -----

  predicate IsMentionMark(c: char) {
    c == '<' || c == '@' || c == '>'
  }

  /** `replace(/[<@>]/g, '')`. */
  function StripMention(s: string): (r: string)
    ensures |r| <= |s|
  {
    if s == [] then []
    else (if IsMentionMark(s[0]) then [] else [s[0]]) + StripMention(s[1..])
  }

  /** Every `<`, `@` and `>` is removed, and every other character is kept. */
  lemma {:induction false} StripMentionMembers(s: string)
    ensures forall c :: c in StripMention(s) <==> c in s && !IsMentionMark(c)
  {
    if s != [] {
      StripMentionMembers(s[1..]);
      assert forall c :: c in s <==> c == s[0] || c in s[1..];
    }
  }

  /** Stripping works character by character: it distributes over concatenation. */
  lemma {:induction false} StripMentionAppend(a: string, b: string)
    ensures StripMention(a + b) == StripMention(a) + StripMention(b)
  {
    if a != [] {
      var h := if IsMentionMark(a[0]) then [] else [a[0]];
      assert a + b == [a[0]] + (a[1..] + b);
      StripMentionCons(a[0], a[1..] + b);
      StripMentionAppend(a[1..], b);
      calc {
        StripMention(a + b);
        h + StripMention(a[1..] + b);
        h + (StripMention(a[1..]) + StripMention(b));
        (h + StripMention(a[1..])) + StripMention(b);
        StripMention(a) + StripMention(b);
      }
    } else {
      assert a + b == b;
    }
  }

  lemma {:induction false} StripMentionCons(c: char, s: string)
    ensures StripMention([c] + s) == (if IsMentionMark(c) then [] else [c]) + StripMention(s)
  {
    assert ([c] + s)[1..] == s;
  }

  /** A string without `<`, `@` or `>` is left as it is. */
  lemma {:induction false} StripMentionUnmarked(s: string)
    requires forall i :: 0 <= i < |s| ==> !IsMentionMark(s[i])
    ensures StripMention(s) == s
  {
    if s != [] {
      StripMentionUnmarked(s[1..]);
    }
  }

  /** Stripping twice is stripping once. */
  lemma {:induction false} StripMentionIdempotent(s: string)
    ensures StripMention(StripMention(s)) == StripMention(s)
  {
    var r := StripMention(s);
    StripMentionMembers(s);
    forall i | 0 <= i < |r| ensures !IsMentionMark(r[i]) {
      assert r[i] in r;
    }
    StripMentionUnmarked(r);
  }

  /** Only marks: nothing is left. */
  lemma {:induction false} StripMentionAllMarks(s: string)
    requires forall i :: 0 <= i < |s| ==> IsMentionMark(s[i])
    ensures StripMention(s) == []
  {
    if s != [] {
      StripMentionAllMarks(s[1..]);
    }
  }

  /** An unmarked string between marks is what remains. */
  lemma {:induction false} StripMentionBetweenMarks(pre: string, id: string, post: string)
    requires forall i :: 0 <= i < |pre| ==> IsMentionMark(pre[i])
    requires forall i :: 0 <= i < |post| ==> IsMentionMark(post[i])
    requires forall i :: 0 <= i < |id| ==> !IsMentionMark(id[i])
    ensures StripMention(pre + id + post) == id
  {
    StripMentionAppend(pre + id, post);
    StripMentionAppend(pre, id);
    StripMentionAllMarks(pre);
    StripMentionAllMarks(post);
    StripMentionUnmarked(id);
  }

  /** The mention `<@id>` Slack inserts for a user yields that user's id. */
  lemma {:induction false} StripMentionOfMention(id: string)
    requires forall i :: 0 <= i < |id| ==> !IsMentionMark(id[i])
    ensures StripMention("<@" + id + ">") == id
  {
    StripMentionBetweenMarks("<@", id, ">");
  }

  /** `findUserFromMention`: `users.info` on the stripped mention; None for `null`. */
  function FindUser(members: seq<Member>, mention: string): (u: Option<Member>)
    ensures u.Some? ==> u.value in members && u.value.id == StripMention(mention)
    ensures u.None? ==> forall m :: m in members ==> m.id != StripMention(mention)
  {
    Lookup(members, StripMention(mention))
  }

  // ----- say -----

  /** `say(content)` inside a handler's `try`: when the reply fails, the `catch` says `apology`. */
  function Replied(t: seq<Effect>, channel: string, content: Content, apology: string, failing: set<nat>): seq<Effect>
  {
    var said := Posted(t, Conversation(channel), content, failing);
    if |t| in failing then Posted(said, Conversation(channel), Text(apology), failing) else said
  }

  /** A reply is one post to the command's conversation, or two when the first fails. */
  lemma RepliedInConversation(t: seq<Effect>, channel: string, content: Content, apology: string, failing: set<nat>)
    ensures var r := Replied(t, channel, content, apology, failing);
      r[..|t|] == t
      && r[|t|] == Post(Conversation(channel), None, content, |t| !in failing)
      && |r| == |t| + (if |t| in failing then 2 else 1)
      && forall j :: |t| <= j < |r| ==> r[j].Post? && r[j].channel == Conversation(channel)
  {
  }

  method Say(client: SlackClient, channel: string, content: Content, apology: string)
    modifies client
    ensures client.trace == Replied(old(client.trace), channel, content, apology, client.failing)
  {
    var ok, _ := client.PostMessage(Conversation(channel), None, content);
    if !ok {
      var _, _ := client.PostMessage(Conversation(channel), None, Text(apology));
    }
  }

  // ----- /set-birthday -----

  const SetBirthdayUsage: string := "Please use the format: `/set-birthday @user DD-MM`"
  const InvalidDateReply: string := "Please provide a valid date in DD-MM format (e.g., 11-02 for February 11th)"
  const SetBirthdayApology: string := "Sorry, there was an error setting the birthday. Please try again."

  /** What `/set-birthday` decides from its text and the directory. */
  datatype SetBirthdayDecision =
    | Usage
    | BadDate
    | NoSuchUser(mention: string)
    | Save(user: Member, birthDate: string)

  /** `profile.first_name || real_name.split(' ')[0]`. */
  function FirstName(u: Member): string {
    if u.firstName != "" then u.firstName else Split(u.realName, ' ')[0]
  }

  /**
   * The text trimmed and split on single spaces must give two tokens, the
   * second an accepted date; the first, stripped, must name a member.
   */
  function DecideSetBirthday(text: string, members: seq<Member>): SetBirthdayDecision {
    var parts := Split(Trim(text), ' ');
    if |parts| != 2 then Usage
    else if !IsValidDate(parts[1]) then BadDate
    else match FindUser(members, StripMention(parts[0]))
      case None => NoSuchUser(parts[0])
      case Some(u) => Save(u, parts[1])
  }

  function SetBirthdayReply(d: SetBirthdayDecision): Content {
    match d
    case Usage => Text(SetBirthdayUsage)
    case BadDate => Text(InvalidDateReply)
    case NoSuchUser(mention) => CouldNotFind(mention)
    case Save(u, birthDate) => BirthdaySet(FirstName(u), birthDate)
  }

  /** The record `/set-birthday` writes, if any. */
  function SetBirthdayWrite(rows: seq<BirthdayRow>, d: SetBirthdayDecision): seq<BirthdayRow> {
    if d.Save? then Upsert(rows, NewBirthday(d.user.id, Some(d.birthDate))) else rows
  }

  /**
   * The usage and the date are checked on the text alone, before the
   * directory is consulted: their replies do not depend on the members.
   */
  lemma SetBirthdayChecksBeforeLookup(text: string, members: seq<Member>, others: seq<Member>)
    ensures DecideSetBirthday(text, members) == Usage <==> |Split(Trim(text), ' ')| != 2
    ensures DecideSetBirthday(text, members) == Usage <==> DecideSetBirthday(text, others) == Usage
    ensures DecideSetBirthday(text, members) == BadDate <==> DecideSetBirthday(text, others) == BadDate
  {
  }

  /**
   * A save is made only for an accepted date and a member of the directory,
   * the one whose id is the stripped first token; the text was exactly the
   * two tokens joined by a space.
   */
  lemma {:induction false} SetBirthdaySavesValidDate(text: string, members: seq<Member>)
    ensures var d := DecideSetBirthday(text, members);
      d.Save? ==>
        var parts := Split(Trim(text), ' ');
        IsValidDate(d.birthDate) && d.user in members
        && d.user.id == StripMention(parts[0]) && Trim(text) == parts[0] + " " + d.birthDate
  {
    var d := DecideSetBirthday(text, members);
    if d.Save? {
      var parts := Split(Trim(text), ' ');
      StripMentionIdempotent(parts[0]);
      JoinSplit(Trim(text), ' ');
      assert Join(parts, ' ') == parts[0] + [' '] + Join(parts[1..], ' ');
      assert parts[1..] == [parts[1]];
    }
  }

  /** Slack's mention `<@id>` of an id without spaces is one token. */
  lemma MentionIsOneToken(id: string)
    requires ' ' !in id
    ensures var m := "<@" + id + ">"; ' ' !in m && m[0] == '<'
  {
    var m := "<@" + id + ">";
    forall i | 0 <= i < |m| ensures m[i] != ' ' {
      if 2 <= i < 2 + |id| {
        assert m[i] == id[i - 2];
      }
    }
  }

  /** A mention token, a space and an accepted date split into those two tokens. */
  lemma CommandTokens(mention: string, date: string)
    requires ' ' !in mention && mention != [] && mention[0] == '<'
    requires DateShape(date)
    ensures Split(Trim(mention + " " + date), ' ') == [mention, date]
  {
    var text := mention + " " + date;
    ValidDateHasNoSpace(date);
    assert text == mention + [' '] + date;
    assert text[0] == '<' && text[|text| - 1] == date[|date| - 1];
    TrimUnpadded(text);
    SplitAfterPiece(mention, date, ' ');
    SplitNoSeparator(date, ' ');
  }

  /**
   * `/set-birthday <@id> DD-MM` for a member `id` and an accepted date saves
   * that member with that date, and the stored record has its flags reset.
   */
  lemma {:induction false} SetBirthdayFromMention(id: string, date: string, members: seq<Member>, rows: seq<BirthdayRow>)
    requires ' ' !in id && forall i :: 0 <= i < |id| ==> !IsMentionMark(id[i])
    requires IsValidDate(date)
    requires Lookup(members, id).Some?
    requires UniqueKeys(rows)
    ensures var d := DecideSetBirthday("<@" + id + "> " + date, members);
      d == Save(Lookup(members, id).value, date)
      && Find(SetBirthdayWrite(rows, d), id) == Some(BirthdayRow(id, date, false, None))
  {
    var mention := "<@" + id + ">";
    MentionIsOneToken(id);
    CommandTokens(mention, date);
    assert mention + " " + date == "<@" + id + "> " + date;
    StripMentionOfMention(id);
    StripMentionIdempotent(mention);
    UpsertSemantics(rows, NewBirthday(id, Some(date)), id);
  }

  /**
   * `/set-birthday`: the reply, and the record written only when the date is
   * accepted and the user found. The reply failing does not undo the write.
   */
  method SetBirthday(client: SlackClient, store: BirthdayStore, text: string, channel: string)
    requires store.Valid()
    modifies client, store
    ensures store.Valid()
    ensures store.birthdays == SetBirthdayWrite(old(store.birthdays), DecideSetBirthday(text, client.members))
    ensures client.trace == Replied(old(client.trace), channel, SetBirthdayReply(DecideSetBirthday(text, client.members)),
                                    SetBirthdayApology, client.failing)
    ensures store.messages == old(store.messages) && store.descriptions == old(store.descriptions)
    ensures store.nextMessageId == old(store.nextMessageId) && store.nextDescriptionId == old(store.nextDescriptionId)
  {
    var d := ReadSetBirthday(text, client.members);
    match d {
      case Usage =>
        Say(client, channel, Text(SetBirthdayUsage), SetBirthdayApology);
      case BadDate =>
        Say(client, channel, Text(InvalidDateReply), SetBirthdayApology);
      case NoSuchUser(mention) =>
        Say(client, channel, CouldNotFind(mention), SetBirthdayApology);
      case Save(user, birthDate) =>
        store.InsertBirthday(user.id, Some(birthDate));
        Say(client, channel, BirthdaySet(FirstName(user), birthDate), SetBirthdayApology);
    }
  }

  /** The checks of `/set-birthday`, in the handler's order: token count, date, then the directory. */
  method ReadSetBirthday(text: string, members: seq<Member>) returns (d: SetBirthdayDecision)
    ensures d == DecideSetBirthday(text, members)
  {
    var parts := Split(Trim(text), ' ');
    if |parts| != 2 {
      return Usage;
    }
    var mention, birthDate := parts[0], parts[1];
    if !IsValidDate(birthDate) {
      return BadDate;
    }
    var user := FindUser(members, StripMention(mention));
    if user.None? {
      return NoSuchUser(mention);
    }
    return Save(user.value, birthDate);
  }

  // ----- submit_birthday_content -----

  const MissingCelebrantReply: string :=
    "Sorry, there was an error submitting your content. The celebrant ID was missing. Please contact the administrator."
  const EmptySubmissionReply: string := "Please enter either a birthday message or a description before submitting!"
  const SubmissionApology: string := "Sorry, there was an error submitting your content. Please contact the administrator."

  /**
   * What the Submit button delivers: its value (the celebrant), the clicking
   * user, the channel and timestamp of the form message, and the three inputs,
   * each "" when left empty.
   */
  datatype Submission = Submission(
    celebrant: string,
    sender: string,
    formChannel: string,
    formTs: string,
    message: string,
    description: string,
    media: string)

  /** `media_input.value || null`. */
  function MediaUrl(s: Submission): Option<string> {
    if s.media == "" then None else Some(s.media)
  }

  /** What the confirmation says was submitted. */
  function SubmittedParts(hasMessage: bool, hasDescription: bool): (r: string)
    requires hasMessage || hasDescription
    ensures r == "birthday message and description" <==> hasMessage && hasDescription
    ensures r == "birthday message" <==> hasMessage && !hasDescription
    ensures r == "description" <==> !hasMessage && hasDescription
  {
    if hasMessage && hasDescription then "birthday message and description"
    else if hasMessage then "birthday message"
    else "description"
  }

  function Confirmation(s: Submission): string
    requires s.message != "" || s.description != ""
  {
    "Thanks for submitting your " + SubmittedParts(s.message != "", s.description != "")
    + " for <@" + s.celebrant + ">! \U{1F389}"
  }

  /** The handler's `catch`: an error DM to the sender, whose own failure is swallowed. */
  function Apologized(t: seq<Effect>, sender: string, failing: set<nat>): seq<Effect> {
    Posted(t, User(sender), Text(SubmissionApology), failing)
  }

  /** A DM to the sender inside the `try`: when it fails, the `catch` apologises. */
  function Notified(t: seq<Effect>, sender: string, text: string, failing: set<nat>): seq<Effect> {
    var sent := Posted(t, User(sender), Text(text), failing);
    if |t| in failing then Apologized(sent, sender, failing) else sent
  }

  /** The calls of a submission and the rows it appends to the two tables. */
  datatype SubmitResult = SubmitResult(trace: seq<Effect>, newMessages: seq<Contribution>, newDescriptions: seq<Contribution>)

  /**
   * The Submit button pressed: `registered` tells whether the celebrant has a
   * birthday record, `senderInfo` is what `users.info` answers for the sender,
   * and the next ids are those the two tables hand out.
   */
  function SubmitOutcome(s: Submission, registered: bool, senderInfo: Option<Member>,
                         nextMessageId: nat, nextDescriptionId: nat, failing: set<nat>, t: seq<Effect>): SubmitResult
  {
    if s.celebrant == "" then SubmitResult(Notified(t, s.sender, MissingCelebrantReply, failing), [], [])
    else if !registered || senderInfo.None? then SubmitResult(Apologized(t, s.sender, failing), [], [])
    else if s.message == "" && s.description == "" then
      SubmitResult(Notified(t, s.sender, EmptySubmissionReply, failing), [], [])
    else Accepted(s, DisplayName(senderInfo.value), nextMessageId, nextDescriptionId, failing, t)
  }

  /** A submission with something to store: the rows, then the form deleted, then the thanks. */
  function Accepted(s: Submission, senderName: string, nextMessageId: nat, nextDescriptionId: nat,
                    failing: set<nat>, t: seq<Effect>): SubmitResult
    requires s.message != "" || s.description != ""
  {
    var messages := if s.message != "" then
      [Contribution(nextMessageId, s.celebrant, s.sender, senderName, s.message, MediaUrl(s), false)] else [];
    var descriptions := if s.description != "" then
      [Contribution(nextDescriptionId, s.celebrant, s.sender, senderName, s.description, None, false)] else [];
    var deleted := t + [Delete(Conversation(s.formChannel), s.formTs, |t| !in failing)];
    var trace := if |t| in failing then Apologized(deleted, s.sender, failing)
                 else Notified(deleted, s.sender, Confirmation(s), failing);
    SubmitResult(trace, messages, descriptions)
  }

  /**
   * Without a celebrant id, or for a celebrant without a birthday record,
   * nothing is stored and the sender gets only error DMs.
   */
  lemma SubmitForUnknownCelebrant(s: Submission, registered: bool, senderInfo: Option<Member>,
                                  nextMessageId: nat, nextDescriptionId: nat, failing: set<nat>, t: seq<Effect>)
    requires s.celebrant == "" || !registered
    ensures var r := SubmitOutcome(s, registered, senderInfo, nextMessageId, nextDescriptionId, failing, t);
      r.newMessages == [] && r.newDescriptions == []
      && r.trace[..|t|] == t && |r.trace| > |t|
      && forall j :: |t| <= j < |r.trace| ==>
           r.trace[j].Post? && r.trace[j].channel == User(s.sender)
           && (r.trace[j].content == Text(MissingCelebrantReply) || r.trace[j].content == Text(SubmissionApology))
  {
  }

  /** With both texts empty nothing is stored, whatever the media field holds, and the sender is prompted. */
  lemma SubmitNothingToStore(s: Submission, senderInfo: Option<Member>,
                             nextMessageId: nat, nextDescriptionId: nat, failing: set<nat>, t: seq<Effect>)
    requires s.celebrant != "" && senderInfo.Some?
    requires s.message == "" && s.description == ""
    ensures var r := SubmitOutcome(s, true, senderInfo, nextMessageId, nextDescriptionId, failing, t);
      r.newMessages == [] && r.newDescriptions == []
      && r.trace[..|t|] == t
      && r.trace[|t|] == Post(User(s.sender), None, Text(EmptySubmissionReply), |t| !in failing)
  {
  }

  /**
   * A message row is written iff there is message text, and it carries the
   * media URL; a description row iff there is description text, without media.
   */
  lemma SubmitStoresWhatWasGiven(s: Submission, senderInfo: Option<Member>,
                                 nextMessageId: nat, nextDescriptionId: nat, failing: set<nat>, t: seq<Effect>)
    requires s.celebrant != "" && senderInfo.Some?
    ensures var r := SubmitOutcome(s, true, senderInfo, nextMessageId, nextDescriptionId, failing, t);
      var name := DisplayName(senderInfo.value);
      (r.newMessages != [] <==> s.message != "")
      && (r.newDescriptions != [] <==> s.description != "")
      && (s.message != "" ==>
            r.newMessages == [Contribution(nextMessageId, s.celebrant, s.sender, name, s.message, MediaUrl(s), false)])
      && (s.description != "" ==>
            r.newDescriptions == [Contribution(nextDescriptionId, s.celebrant, s.sender, name, s.description, None, false)])
  {
  }

  /**
   * When the form message is deleted and the DM goes through, the sender is
   * thanked once, for exactly the parts that were stored.
   */
  lemma SubmitConfirmed(s: Submission, senderInfo: Option<Member>,
                        nextMessageId: nat, nextDescriptionId: nat, failing: set<nat>, t: seq<Effect>)
    requires s.celebrant != "" && senderInfo.Some? && (s.message != "" || s.description != "")
    requires |t| !in failing && |t| + 1 !in failing
    ensures var r := SubmitOutcome(s, true, senderInfo, nextMessageId, nextDescriptionId, failing, t);
      r.trace == t + [Delete(Conversation(s.formChannel), s.formTs, true),
                      Post(User(s.sender), None, Text(Confirmation(s)), true)]
      && (r.newMessages != [] && r.newDescriptions != [] <==>
            SubmittedParts(s.message != "", s.description != "") == "birthday message and description")
  {
  }

  /** The stored rows wait, last in line, for the celebrant's thread. */
  lemma SubmittedRowsAwaitThread(s: Submission, registered: bool, senderInfo: Option<Member>,
                                 nextMessageId: nat, nextDescriptionId: nat, failing: set<nat>, t: seq<Effect>,
                                 messages: seq<Contribution>, descriptions: seq<Contribution>)
    ensures var r := SubmitOutcome(s, registered, senderInfo, nextMessageId, nextDescriptionId, failing, t);
      Unsent(messages + r.newMessages, s.celebrant) == Unsent(messages, s.celebrant) + r.newMessages
      && Unsent(descriptions + r.newDescriptions, s.celebrant) == Unsent(descriptions, s.celebrant) + r.newDescriptions
  {
    var r := SubmitOutcome(s, registered, senderInfo, nextMessageId, nextDescriptionId, failing, t);
    if r.newMessages != [] {
      UnsentAppend(messages, r.newMessages[0], s.celebrant);
    } else {
      assert messages + r.newMessages == messages;
    }
    if r.newDescriptions != [] {
      UnsentAppend(descriptions, r.newDescriptions[0], s.celebrant);
    } else {
      assert descriptions + r.newDescriptions == descriptions;
    }
  }

  method Apologize(client: SlackClient, sender: string)
    modifies client
    ensures client.trace == Apologized(old(client.trace), sender, client.failing)
  {
    var _, _ := client.PostMessage(User(sender), None, Text(SubmissionApology));
  }

  method Notify(client: SlackClient, sender: string, text: string)
    modifies client
    ensures client.trace == Notified(old(client.trace), sender, text, client.failing)
  {
    var ok, _ := client.PostMessage(User(sender), None, Text(text));
    if !ok {
      Apologize(client, sender);
    }
  }

  /** The part of the handler after the checks: store, delete the form, thank the sender. */
  method StoreSubmission(client: SlackClient, store: BirthdayStore, s: Submission, senderName: string)
    requires store.Valid()
    requires s.message != "" || s.description != ""
    modifies client, store
    ensures store.Valid()
    ensures var r := Accepted(s, senderName, old(store.nextMessageId), old(store.nextDescriptionId),
                              client.failing, old(client.trace));
      client.trace == r.trace
      && store.messages == old(store.messages) + r.newMessages
      && store.descriptions == old(store.descriptions) + r.newDescriptions
      && store.nextMessageId == old(store.nextMessageId) + |r.newMessages|
      && store.nextDescriptionId == old(store.nextDescriptionId) + |r.newDescriptions|
    ensures store.birthdays == old(store.birthdays)
  {
    if s.message != "" {
      store.InsertBirthdayMessage(s.celebrant, s.sender, senderName, s.message, MediaUrl(s));
    }
    if s.description != "" {
      store.InsertDescriptionMessage(s.celebrant, s.sender, senderName, s.description);
    }
    var deleted := client.DeleteMessage(Conversation(s.formChannel), s.formTs);
    if !deleted {
      Apologize(client, s.sender);
      return;
    }
    Notify(client, s.sender, Confirmation(s));
  }

  /** The `submit_birthday_content` action handler. */
  method SubmitContent(client: SlackClient, store: BirthdayStore, s: Submission)
    requires store.Valid()
    modifies client, store
    ensures store.Valid()
    ensures var r := SubmitOutcome(s, Find(old(store.birthdays), s.celebrant).Some?, Lookup(client.members, s.sender),
                                   old(store.nextMessageId), old(store.nextDescriptionId), client.failing, old(client.trace));
      client.trace == r.trace
      && store.messages == old(store.messages) + r.newMessages
      && store.descriptions == old(store.descriptions) + r.newDescriptions
      && store.nextMessageId == old(store.nextMessageId) + |r.newMessages|
      && store.nextDescriptionId == old(store.nextDescriptionId) + |r.newDescriptions|
    ensures store.birthdays == old(store.birthdays)
  {
    if s.celebrant == "" {
      Notify(client, s.sender, MissingCelebrantReply);
      assert store.messages + [] == store.messages && store.descriptions + [] == store.descriptions;
      return;
    }
    var count := store.CheckUserExists(s.celebrant);
    if count == 0 {
      assert Find(store.birthdays, s.celebrant).None?;
      Apologize(client, s.sender);
      assert store.messages + [] == store.messages && store.descriptions + [] == store.descriptions;
      return;
    }
    var senderInfo := Lookup(client.members, s.sender);
    if senderInfo.None? {
      Apologize(client, s.sender);
      assert store.messages + [] == store.messages && store.descriptions + [] == store.descriptions;
      return;
    }
    assert Find(store.birthdays, s.celebrant).Some? by {
      var i :| 0 <= i < |store.birthdays| && store.birthdays[i].userId == s.celebrant;
      assert store.birthdays[i] in store.birthdays;
    }
    if s.message == "" && s.description == "" {
      Notify(client, s.sender, EmptySubmissionReply);
      assert store.messages + [] == store.messages && store.descriptions + [] == store.descriptions;
      return;
    }
    StoreSubmission(client, store, s, DisplayName(senderInfo.value));
  }

  // ----- /see-birthdays -----

  const NoBirthdaysReply: string := "No birthdays have been set yet!"
  const ListingApology: string := "Sorry, there was an error listing the birthdays."

  /** The name a record is listed under: `real_name || name`, or a mention of the id when the lookup finds nobody. */
  function ShownName(members: seq<Member>, userId: string): string {
    match FindUser(members, userId)
    case Some(u) => DisplayName(u)
    case None => "<@" + userId + ">"
  }

  /**
   * The month (0-11) of `new Date(2000, month - 1, day)` for the date's day and
   * month fields, and the day printed; None for an Invalid Date, whose month
   * name is none of the twelve the listing prints.
   */
  function ListingKey(birthDate: string): (k: Option<(int, int)>)
    ensures k.Some? ==> 0 <= k.value.0 < 12
  {
    var f := DayMonthFields(birthDate);
    if NominalDay(birthDate, 2000).None? then None
    else Some((DateOf(2000, f.month.value - 1, f.day.value).month, f.day.value))
  }

  /** Where a record is listed: its month and its line; None when it is left out. */
  function Listing(r: BirthdayRow, members: seq<Member>): (l: Option<(int, Entry)>)
    ensures l.Some? ==> 0 <= l.value.0 < 12
  {
    if r.birthDate == UnknownDate then None
    else match ListingKey(r.birthDate)
      case None => None
      case Some(k) => Some((k.0, Entry(k.1, ShownName(members, r.userId))))
  }

  /** Where each record is listed, in table order. */
  function Listings(rows: seq<BirthdayRow>, members: seq<Member>): (ls: seq<Option<(int, Entry)>>)
    ensures |ls| == |rows|
  {
    seq(|rows|, i requires 0 <= i < |rows| => Listing(rows[i], members))
  }

  /** `acc[monthName]` after the reduce: the lines listed in month `mo`, in table order. */
  function Bucket(listed: seq<Option<(int, Entry)>>, mo: int): seq<Entry>
  {
    if listed == [] then []
    else
      var l := listed[|listed| - 1];
      Bucket(listed[..|listed| - 1], mo) + (if l.Some? && l.value.0 == mo then [l.value.1] else [])
  }

  /** The twelve buckets. */
  function Buckets(rows: seq<BirthdayRow>, members: seq<Member>): (b: seq<seq<Entry>>)
    ensures |b| == 12
  {
    seq(12, mo requires 0 <= mo < 12 => Bucket(Listings(rows, members), mo))
  }

  /** A line is in a month's bucket iff it is listed in that month. */
  lemma {:induction false} BucketMembers(listed: seq<Option<(int, Entry)>>, mo: int, e: Entry)
    ensures e in Bucket(listed, mo) <==> exists i :: 0 <= i < |listed| && listed[i] == Some((mo, e))
  {
    if listed != [] {
      var init := listed[..|listed| - 1];
      BucketMembers(init, mo, e);
      if e in Bucket(init, mo) {
        var i :| 0 <= i < |init| && init[i] == Some((mo, e));
        assert listed[i] == init[i];
      }
      if exists i :: 0 <= i < |listed| && listed[i] == Some((mo, e)) {
        var i :| 0 <= i < |listed| && listed[i] == Some((mo, e));
        if i < |init| {
          assert init[i] == listed[i];
        }
      }
    }
  }

  /**
   * The lines of month `mo` are those of the records with a real date whose
   * `new Date(2000, month - 1, day)` falls in that month: the sentinel date of
   * a record without a birthday never reaches the listing.
   */
  lemma ListedRecords(rows: seq<BirthdayRow>, members: seq<Member>, mo: int, e: Entry)
    ensures e in Bucket(Listings(rows, members), mo) <==>
      exists i :: 0 <= i < |rows| && rows[i].birthDate != UnknownDate
        && ListingKey(rows[i].birthDate) == Some((mo, e.day)) && e.name == ShownName(members, rows[i].userId)
  {
    var ls := Listings(rows, members);
    BucketMembers(ls, mo, e);
    if e in Bucket(ls, mo) {
      var i :| 0 <= i < |ls| && ls[i] == Some((mo, e));
      ListingOf(rows[i], members, mo, e);
    }
    if exists i :: 0 <= i < |rows| && rows[i].birthDate != UnknownDate
         && ListingKey(rows[i].birthDate) == Some((mo, e.day)) && e.name == ShownName(members, rows[i].userId)
    {
      var i :| 0 <= i < |rows| && rows[i].birthDate != UnknownDate
         && ListingKey(rows[i].birthDate) == Some((mo, e.day)) && e.name == ShownName(members, rows[i].userId);
      ListingOf(rows[i], members, mo, e);
      assert ls[i] == Some((mo, e));
    }
  }

  lemma ListingOf(r: BirthdayRow, members: seq<Member>, mo: int, e: Entry)
    ensures Listing(r, members) == Some((mo, e)) <==>
      r.birthDate != UnknownDate && ListingKey(r.birthDate) == Some((mo, e.day)) && e.name == ShownName(members, r.userId)
  {
  }

  /** A date `/set-birthday` accepts is listed under its own month, with its own day. */
  lemma AcceptedDateListed(s: string)
    requires IsValidDate(s)
    ensures ListingKey(s) == Some((Decimal(s[3..]) - 1, Decimal(s[..2])))
  {
    var dd, mm := s[..2], s[3..];
    assert s == dd + "-" + mm;
    IsValidDateMeans(s);
    DayNumberWithinYear(2000, Decimal(mm) - 1, Decimal(dd));
    NominalDayOfCalendarDate(dd, mm, 2000);
    SplitDayMonth(dd, mm);
    ParseDecimal(dd);
    ParseDecimal(mm);
  }

  predicate SortedByDay(es: seq<Entry>) {
    forall i, j :: 0 <= i < j < |es| ==> es[i].day <= es[j].day
  }

  /** One line placed after every line of a day not later than its own. */
  function InsertByDay(sorted: seq<Entry>, e: Entry): (r: seq<Entry>)
    ensures multiset(r) == multiset(sorted) + multiset{e}
  {
    if sorted == [] || sorted[|sorted| - 1].day <= e.day then sorted + [e]
    else
      assert sorted == sorted[..|sorted| - 1] + [sorted[|sorted| - 1]];
      InsertByDay(sorted[..|sorted| - 1], e) + [sorted[|sorted| - 1]]
  }

  /** `sort((a, b) => a.day - b.day)`: a stable sort by day. */
  function SortByDay(es: seq<Entry>): (r: seq<Entry>)
    ensures multiset(r) == multiset(es)
  {
    if es == [] then []
    else
      assert es == es[..|es| - 1] + [es[|es| - 1]];
      InsertByDay(SortByDay(es[..|es| - 1]), es[|es| - 1])
  }

  lemma {:induction false} InsertByDaySorted(sorted: seq<Entry>, e: Entry)
    requires SortedByDay(sorted)
    ensures SortedByDay(InsertByDay(sorted, e))
  {
    if sorted != [] && sorted[|sorted| - 1].day > e.day {
      var init, last := sorted[..|sorted| - 1], sorted[|sorted| - 1];
      InsertByDaySorted(init, e);
      var r0 := InsertByDay(init, e);
      forall i | 0 <= i < |r0| ensures r0[i].day <= last.day {
        assert r0[i] in multiset(r0);
        assert r0[i] in multiset(init) || r0[i] == e;
        if r0[i] != e {
          var k :| 0 <= k < |init| && init[k] == r0[i];
          assert sorted[k] == init[k];
        }
      }
    }
  }

  /** The lines for day `d`, in their order in `es`. */
  function OfDay(es: seq<Entry>, d: int): seq<Entry> {
    if es == [] then []
    else OfDay(es[..|es| - 1], d) + (if es[|es| - 1].day == d then [es[|es| - 1]] else [])
  }

  lemma {:induction false} OfDayAppend(s: seq<Entry>, t: seq<Entry>, d: int)
    ensures OfDay(s + t, d) == OfDay(s, d) + OfDay(t, d)
    decreases |t|
  {
    if t == [] {
      assert s + t == s;
    } else {
      var init := t[..|t| - 1];
      assert s + t == (s + init) + [t[|t| - 1]];
      assert (s + t)[..|s + t| - 1] == s + init;
      OfDayAppend(s, init, d);
    }
  }

  lemma OfDaySingle(x: Entry, d: int)
    ensures OfDay([x], d) == if x.day == d then [x] else []
  {
    assert [x][..0] == [];
  }

  lemma SwapPastEmpty(a: seq<Entry>, x: seq<Entry>, y: seq<Entry>)
    requires x == [] || y == []
    ensures a + x + y == a + y + x
  {
    if x == [] {
      assert a + x == a && a + y + x == a + y;
    } else {
      assert a + x + y == a + x && a + y == a;
    }
  }

  /** Inserting a line moves it only past lines of a later day, so lines of one day keep their order. */
  lemma {:induction false} InsertByDayStable(sorted: seq<Entry>, e: Entry, d: int)
    ensures OfDay(InsertByDay(sorted, e), d) == OfDay(sorted, d) + OfDay([e], d)
  {
    if sorted == [] || sorted[|sorted| - 1].day <= e.day {
      OfDayAppend(sorted, [e], d);
    } else {
      var init, last := sorted[..|sorted| - 1], sorted[|sorted| - 1];
      var r0 := InsertByDay(init, e);
      assert InsertByDay(sorted, e) == r0 + [last];
      assert init + [last] == sorted;
      InsertByDayStable(init, e, d);
      OfDayAppend(r0, [last], d);
      OfDayAppend(init, [last], d);
      OfDaySingle(e, d);
      OfDaySingle(last, d);
      SwapPastEmpty(OfDay(init, d), OfDay([e], d), OfDay([last], d));
    }
  }

  /**
   * The sort is stable, as `Array.prototype.sort` is: the lines of any one day
   * keep the order they had in the table.
   */
  lemma {:induction false} SortByDayStable(es: seq<Entry>, d: int)
    ensures OfDay(SortByDay(es), d) == OfDay(es, d)
  {
    if es != [] {
      var init, x := es[..|es| - 1], es[|es| - 1];
      SortByDayStable(init, d);
      InsertByDayStable(SortByDay(init), x, d);
      OfDaySingle(x, d);
    }
  }

  /** The lines of a month come out in ascending order of day, and none is lost or added. */
  lemma {:induction false} SortByDaySorts(es: seq<Entry>)
    ensures SortedByDay(SortByDay(es)) && multiset(SortByDay(es)) == multiset(es)
  {
    if es != [] {
      SortByDaySorts(es[..|es| - 1]);
      InsertByDaySorted(SortByDay(es[..|es| - 1]), es[|es| - 1]);
    }
  }

  /** The months of the calendar up to month `n` (1-12), January first, each with its lines sorted. */
  function CalendarMonths(buckets: seq<seq<Entry>>, n: nat): seq<MonthGroup>
    requires n <= |buckets|
  {
    if n == 0 then []
    else
      var b := buckets[n - 1];
      CalendarMonths(buckets, n - 1) + (if b == [] then [] else [MonthGroup(n, SortByDay(b))])
  }

  /** The sections are for months 1 to `n`, in increasing month order. */
  predicate MonthsIncreasing(cal: seq<MonthGroup>, n: nat) {
    (forall i :: 0 <= i < |cal| ==> 1 <= cal[i].month <= n)
    && forall i, j :: 0 <= i < j < |cal| ==> cal[i].month < cal[j].month
  }

  /** The calendar lists months in order from January, and no month beyond `n`. */
  lemma {:induction false} CalendarMonthsOrdered(buckets: seq<seq<Entry>>, n: nat)
    requires n <= |buckets|
    ensures MonthsIncreasing(CalendarMonths(buckets, n), n)
  {
    if n > 0 {
      CalendarMonthsOrdered(buckets, n - 1);
      var prev := CalendarMonths(buckets, n - 1);
      var cal := CalendarMonths(buckets, n);
      if buckets[n - 1] == [] {
        assert cal == prev;
        MonthsIncreasingAppend(prev, [], n);
      } else {
        var g := MonthGroup(n, SortByDay(buckets[n - 1]));
        assert cal == prev + [g];
        MonthsIncreasingAppend(prev, [g], n);
      }
    }
  }

  /** Appending a section for month `n` (or nothing) to sections for months before `n` keeps them increasing. */
  lemma MonthsIncreasingAppend(prev: seq<MonthGroup>, last: seq<MonthGroup>, n: nat)
    requires n > 0 && MonthsIncreasing(prev, n - 1)
    requires last == [] || (|last| == 1 && last[0].month == n)
    ensures MonthsIncreasing(prev + last, n)
  {
    var cal := prev + last;
    forall i | 0 <= i < |cal| ensures 1 <= cal[i].month <= n {
      if i < |prev| {
        assert cal[i] == prev[i];
      }
    }
    forall i, j | 0 <= i < j < |cal| ensures cal[i].month < cal[j].month {
      assert cal[i] == prev[i];
      if j < |prev| {
        assert cal[j] == prev[j];
      }
    }
  }

  /** A month section that is non-empty, sorted by day, and holds exactly its month's bucket. */
  predicate SortedSection(g: MonthGroup, buckets: seq<seq<Entry>>) {
    1 <= g.month <= |buckets| && g.entries != [] && SortedByDay(g.entries)
    && multiset(g.entries) == multiset(buckets[g.month - 1])
  }

  /** Every section is a sorted section. */
  predicate SortedSections(cal: seq<MonthGroup>, buckets: seq<seq<Entry>>) {
    forall i :: 0 <= i < |cal| ==> SortedSection(cal[i], buckets)
  }

  /** Each month listed has lines, sorted by day, and they are exactly that month's lines. */
  lemma {:induction false} CalendarMonthsSorted(buckets: seq<seq<Entry>>, n: nat)
    requires n <= |buckets|
    ensures SortedSections(CalendarMonths(buckets, n), buckets)
  {
    if n > 0 {
      CalendarMonthsSorted(buckets, n - 1);
      var prev := CalendarMonths(buckets, n - 1);
      var cal := CalendarMonths(buckets, n);
      var b := buckets[n - 1];
      if b == [] {
        assert cal == prev;
      } else {
        var g := MonthGroup(n, SortByDay(b));
        assert SortedSection(g, buckets) by {
          SortByDaySorts(b);
          assert |multiset(SortByDay(b))| == |multiset(b)|;
        }
        assert cal == prev + [g];
        SortedSectionsAppend(prev, g, buckets);
      }
    }
  }

  /** A sorted section appended to sorted sections. */
  lemma SortedSectionsAppend(prev: seq<MonthGroup>, g: MonthGroup, buckets: seq<seq<Entry>>)
    requires SortedSections(prev, buckets) && SortedSection(g, buckets)
    ensures SortedSections(prev + [g], buckets)
  {
    forall i | 0 <= i < |prev + [g]| ensures SortedSection((prev + [g])[i], buckets) {
      if i < |prev| {
        assert (prev + [g])[i] == prev[i];
      }
    }
  }

  /** Month `month` (1-12) has a group in the calendar. */
  predicate HasMonth(cal: seq<MonthGroup>, month: int) {
    exists i :: 0 <= i < |cal| && cal[i].month == month
  }

  /** Every month with at least one line appears. */
  lemma {:induction false} CalendarMonthsComplete(buckets: seq<seq<Entry>>, n: nat)
    requires n <= |buckets|
    ensures forall mo :: 0 <= mo < n && buckets[mo] != [] ==> HasMonth(CalendarMonths(buckets, n), mo + 1)
  {
    if n > 0 {
      CalendarMonthsComplete(buckets, n - 1);
      var prev := CalendarMonths(buckets, n - 1);
      var cal := CalendarMonths(buckets, n);
      assert cal == prev + (if buckets[n - 1] == [] then [] else [MonthGroup(n, SortByDay(buckets[n - 1]))]);
      forall mo | 0 <= mo < n && buckets[mo] != []
        ensures HasMonth(cal, mo + 1)
      {
        if mo < n - 1 {
          var i :| 0 <= i < |prev| && prev[i].month == mo + 1;
          assert cal[i] == prev[i];
        } else {
          assert cal == prev + [MonthGroup(n, SortByDay(buckets[n - 1]))];
          assert cal[|prev|].month == mo + 1;
        }
      }
    }
  }

  /** The month groups `/see-birthdays` shows when there are records. */
  function ListingCalendar(rows: seq<BirthdayRow>, members: seq<Member>): seq<MonthGroup> {
    CalendarMonths(Buckets(rows, members), 12)
  }

  /** The reply to `/see-birthdays`. */
  function ListingReply(rows: seq<BirthdayRow>, members: seq<Member>): Content {
    if rows == [] then Text(NoBirthdaysReply) else Calendar(ListingCalendar(rows, members))
  }

  /** Line `e` is shown under month `month` (1-12). */
  predicate ShownUnder(cal: seq<MonthGroup>, month: int, e: Entry) {
    exists k :: 0 <= k < |cal| && cal[k].month == month && e in cal[k].entries
  }

  /** A line in the bucket of month `mo` is shown in the section of that month. */
  lemma BucketEntryShown(buckets: seq<seq<Entry>>, mo: int, e: Entry)
    requires |buckets| == 12 && 0 <= mo < 12 && e in buckets[mo]
    ensures ShownUnder(CalendarMonths(buckets, 12), mo + 1, e)
  {
    var cal := CalendarMonths(buckets, 12);
    CalendarMonthsComplete(buckets, 12);
    CalendarMonthsSorted(buckets, 12);
    SectionShowsBucket(cal, buckets, mo, e);
  }

  /** When sorted sections include one for month `mo + 1`, every line of that month's bucket is shown there. */
  lemma SectionShowsBucket(cal: seq<MonthGroup>, buckets: seq<seq<Entry>>, mo: int, e: Entry)
    requires 0 <= mo < |buckets| && e in buckets[mo]
    requires SortedSections(cal, buckets) && HasMonth(cal, mo + 1)
    ensures ShownUnder(cal, mo + 1, e)
  {
    var k :| 0 <= k < |cal| && cal[k].month == mo + 1;
    assert SortedSection(cal[k], buckets);
    assert e in multiset(cal[k].entries);
  }

  /** A line in the bucket of month `mo` is shown under that month. */
  lemma BucketLineIsShown(rows: seq<BirthdayRow>, members: seq<Member>, mo: int, e: Entry)
    requires 0 <= mo < 12 && e in Bucket(Listings(rows, members), mo)
    ensures ShownUnder(ListingCalendar(rows, members), mo + 1, e)
  {
    var buckets := Buckets(rows, members);
    assert e in buckets[mo];
    BucketEntryShown(buckets, mo, e);
  }

  /**
   * A record whose date `/set-birthday` would accept is shown under its own
   * month, with its own day and the member's name.
   */
  lemma SetDateIsShown(rows: seq<BirthdayRow>, members: seq<Member>, i: int)
    requires 0 <= i < |rows| && IsValidDate(rows[i].birthDate)
    ensures ListingReply(rows, members).Calendar?
    ensures ShownUnder(ListingCalendar(rows, members), Decimal(rows[i].birthDate[3..]),
                       Entry(Decimal(rows[i].birthDate[..2]), ShownName(members, rows[i].userId)))
  {
    var s := rows[i].birthDate;
    var mo, e := Decimal(s[3..]) - 1, Entry(Decimal(s[..2]), ShownName(members, rows[i].userId));
    AcceptedDateListed(s);
    assert s != UnknownDate by { assert |s| == 5; }
    ListedRecords(rows, members, mo, e);
    BucketLineIsShown(rows, members, mo, e);
  }

  /** Every line shown comes from a record listed in that month, under the member's name. */
  lemma ShownLinesComeFromRecords(rows: seq<BirthdayRow>, members: seq<Member>, k: int, e: Entry)
    requires 0 <= k < |ListingCalendar(rows, members)| && e in ListingCalendar(rows, members)[k].entries
    ensures exists i :: (0 <= i < |rows| && rows[i].birthDate != UnknownDate
      && ListingKey(rows[i].birthDate) == Some((ListingCalendar(rows, members)[k].month - 1, e.day))
      && e.name == ShownName(members, rows[i].userId))
  {
    var buckets := Buckets(rows, members);
    var cal := ListingCalendar(rows, members);
    CalendarMonthsSorted(buckets, 12);
    var mo := cal[k].month - 1;
    assert e in multiset(buckets[mo]);
    ListedRecords(rows, members, mo, e);
  }

  /** One more record adds its line to its own month's bucket only. */
  lemma BucketSnoc(listed: seq<Option<(int, Entry)>>, i: nat, mo: int)
    requires i < |listed|
    ensures Bucket(listed[..i + 1], mo) ==
      Bucket(listed[..i], mo) + (if listed[i].Some? && listed[i].value.0 == mo then [listed[i].value.1] else [])
  {
    assert listed[..i + 1][..i] == listed[..i];
  }

  /** The `reduce` into one bucket per month, visiting the records in table order. */
  method GroupByMonth(rows: seq<BirthdayRow>, members: seq<Member>) returns (byMonth: seq<seq<Entry>>)
    ensures byMonth == Buckets(rows, members)
  {
    ghost var listed := Listings(rows, members);
    byMonth := seq(12, _ => []);
    var i := 0;
    while i < |rows|
      invariant 0 <= i <= |rows| && |byMonth| == 12
      invariant forall mo :: 0 <= mo < 12 ==> byMonth[mo] == Bucket(listed[..i], mo)
    {
      var l := Listing(rows[i], members);
      assert l == listed[i];
      if l.Some? {
        var mo := l.value.0;
        byMonth := byMonth[mo := byMonth[mo] + [l.value.1]];
      }
      forall mo | 0 <= mo < 12 ensures byMonth[mo] == Bucket(listed[..i + 1], mo) {
        BucketSnoc(listed, i, mo);
      }
      i := i + 1;
    }
    assert listed[..i] == listed;
    assert forall mo :: 0 <= mo < 12 ==> byMonth[mo] == Buckets(rows, members)[mo];
  }

  /** The months visited from January to December, each non-empty one with its lines sorted by day. */
  method MonthSections(byMonth: seq<seq<Entry>>) returns (months: seq<MonthGroup>)
    requires |byMonth| == 12
    ensures months == CalendarMonths(byMonth, 12)
  {
    months := [];
    var m := 0;
    while m < 12
      invariant 0 <= m <= 12
      invariant months == CalendarMonths(byMonth, m)
    {
      if byMonth[m] != [] {
        months := months + [MonthGroup(m + 1, SortByDay(byMonth[m]))];
      }
      m := m + 1;
    }
  }

  /** `/see-birthdays`: the records grouped by month, then the months listed in calendar order. */
  method SeeBirthdays(client: SlackClient, store: BirthdayStore, channel: string)
    requires store.Valid()
    modifies client
    ensures client.trace == Replied(old(client.trace), channel, ListingReply(store.birthdays, client.members),
                                    ListingApology, client.failing)
  {
    var rows := store.GetAllBirthdays();
    if |rows| == 0 {
      Say(client, channel, Text(NoBirthdaysReply), ListingApology);
      return;
    }
    var byMonth := GroupByMonth(rows, client.members);
    var months := MonthSections(byMonth);
    Say(client, channel, Calendar(months), ListingApology);
  }

  // ----- /collect-birthday-messages and /post-birthday-thread -----

  const CollectPrompt: string := "Please provide a user mention, e.g., `/collect-birthday-messages @user`"
  const CollectApology: string := "An error occurred while starting the birthday message collection."
  const ThreadPrompt: string := "Please provide a user mention, e.g., `/post-birthday-thread @user`"
  const ThreadApology: string := "An error occurred while posting the birthday thread."

  function CollectStarted(id: string): string {
    ":mailbox_with_mail: Birthday message collection for <@" + id + "> has been initiated!"
  }

  function ThreadPosted(id: string): string {
    ":tada: Birthday thread for <@" + id + "> has been posted!"
  }

  /** The user a command's text names: the trimmed text, looked up; None when it is empty or names nobody. */
  function Mentioned(text: string, members: seq<Member>): Option<Member> {
    var mention := Trim(text);
    if mention == "" then None else FindUser(members, mention)
  }

  /** The reply when the text names nobody: the prompt for an empty text, else that the user was not found. */
  function Unmentioned(text: string, prompt: string): string {
    var mention := Trim(text);
    if mention == "" then prompt else "Could not find user " + mention + "."
  }

  /** After the service call: its error reaches the command's `catch`, otherwise the success reply is said. */
  function Concluded(t: seq<Effect>, escaped: bool, channel: string, success: string, apology: string,
                     failing: set<nat>): seq<Effect>
  {
    if escaped then Posted(t, Conversation(channel), Text(apology), failing)
    else Replied(t, channel, Text(success), apology, failing)
  }

  /**
   * A command whose text names no user only replies in its own conversation:
   * nobody is messaged and no table changes.
   */
  lemma {:induction false} UnmentionedOnlyReplies(text: string, members: seq<Member>, channel: string, prompt: string,
                                                  apology: string, failing: set<nat>, t: seq<Effect>)
    requires Mentioned(text, members).None?
    ensures var r := Replied(t, channel, Text(Unmentioned(text, prompt)), apology, failing);
      r[..|t|] == t && forall j :: |t| <= j < |r| ==> r[j].Post? && r[j].channel == Conversation(channel)
    ensures Trim(text) != "" ==> forall m :: m in members ==> m.id != StripMention(Trim(text))
  {
    RepliedInConversation(t, channel, Text(Unmentioned(text, prompt)), apology, failing);
  }

  /** `/collect-birthday-messages <mention>` on the day `today`. */
  method CollectCommand(client: SlackClient, store: BirthdayStore, text: string, channel: string, today: string)
    requires store.Valid()
    modifies client
    ensures var user := Mentioned(text, client.members);
      (user.None? ==>
         client.trace == Replied(old(client.trace), channel, Text(Unmentioned(text, CollectPrompt)), CollectApology,
                                 client.failing))
      && (user.Some? ==>
            var o := CollectionOutcome(Find(store.birthdays, user.value.id), user.value.id, today,
                                       client.members, client.listFails, client.failing, old(client.trace));
            client.trace == Concluded(o.trace, o.escaped, channel, CollectStarted(user.value.id), CollectApology,
                                      client.failing))
  {
    var mention := Trim(text);
    if mention == "" {
      Say(client, channel, Text(CollectPrompt), CollectApology);
      return;
    }
    var user := FindUser(client.members, mention);
    if user.None? {
      Say(client, channel, Text("Could not find user " + mention + "."), CollectApology);
      return;
    }
    var escaped := TriggerBirthdayCollection(client, store, user.value.id, today);
    if escaped {
      var _, _ := client.PostMessage(Conversation(channel), None, Text(CollectApology));
      return;
    }
    Say(client, channel, Text(CollectStarted(user.value.id)), CollectApology);
  }

  /** `/post-birthday-thread <mention>`; `choice` is the greeting picked for the thread. */
  method ThreadCommand(client: SlackClient, store: BirthdayStore, text: string, channel: string)
    returns (choice: nat)
    requires store.Valid()
    modifies client, store
    ensures store.Valid() && choice < GreetingCount
    ensures var user := Mentioned(text, client.members);
      (user.None? ==>
         client.trace == Replied(old(client.trace), channel, Text(Unmentioned(text, ThreadPrompt)), ThreadApology,
                                 client.failing)
         && store.messages == old(store.messages) && store.descriptions == old(store.descriptions))
      && (user.Some? ==>
            var id := user.value.id;
            var r := ThreadOutcome(Unsent(old(store.messages), id), Unsent(old(store.descriptions), id),
                                   BirthdayGreeting(choice), id, client.failing, old(client.trace));
            client.trace == Concluded(r.trace, r.escaped, channel, ThreadPosted(id), ThreadApology, client.failing)
            && store.messages == (if r.markMessages then MarkSent(old(store.messages), id) else old(store.messages))
            && store.descriptions
               == (if r.markDescriptions then MarkSent(old(store.descriptions), id) else old(store.descriptions)))
    ensures store.birthdays == old(store.birthdays)
    ensures store.nextMessageId == old(store.nextMessageId) && store.nextDescriptionId == old(store.nextDescriptionId)
  {
    choice := 0;
    var mention := Trim(text);
    if mention == "" {
      Say(client, channel, Text(ThreadPrompt), ThreadApology);
      return;
    }
    var user := FindUser(client.members, mention);
    if user.None? {
      Say(client, channel, Text("Could not find user " + mention + "."), ThreadApology);
      return;
    }
    var escaped;
    escaped, choice := PostBirthdayThread(client, store, user.value.id);
    if escaped {
      var _, _ := client.PostMessage(Conversation(channel), None, Text(ThreadApology));
      return;
    }
    Say(client, channel, Text(ThreadPosted(user.value.id)), ThreadApology);
  }
}
