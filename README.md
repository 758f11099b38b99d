# birthday-bot, modelled in Dafny

A Slack bot that celebrates colleagues' birthdays. The model covers six parts of it.

- **The birthday store (`database.js`).** It holds three SQLite tables:
  - `birthdays`, one row per user;
  - `birthday_messages` and `description_messages`, the contributions collected for a celebrant.

  The prepared statements become operations on an in-memory store (`Database.BirthdayStore`).
- **The daily scheduler (`birthday-cron.js`).** For every record it:
  - places the stored `DD-MM` in the current year with `new Date(year, month - 1, day)`;
  - counts the days to that date, rounded up;
  - seven days ahead, starts the collection;
  - one day ahead, posts the message count;
  - on the day itself, publishes the thread.
- **The two birthday actions (`birthday-service.js`).**
  - The collection fan-out sends one DM with the collection form to every eligible member, in batches of ten, then posts a summary to the admin channel.
  - The publisher posts the root message, then the greeting and the digest of descriptions, then one threaded reply per collected message, and finally marks the rows sent.
- **The slash commands and the form's Submit action (`commands.js`).**
  - `/set-birthday`
  - `/see-birthdays`
  - `/collect-birthday-messages`
  - `/post-birthday-thread`
  - `submit_birthday_content`
- **The birthday import (`sync-birthdays.js`).** Birthdays come from a CSV file, then from a Google sheet. Each accepted row goes through `insertBirthday`.
- **The holiday-list generator (`generate-holidays.js`).** It collects the start dates of tagged events from Google calendars and writes them out sorted and without duplicates.

Slack is a `Slack.SlackClient` that records every message call, in order, in an effect trace. Which calls fail is a set of trace positions fixed in advance, so each handler is proved against a specification function that gives its exact calls for every failure pattern.

The JavaScript primitives the code relies on are modelled from their ECMAScript definitions:
- `trim`, `split`, `parseInt` and `toLowerCase` (module `Text`);
- `new Date(y, m, d)` with its roll-over and its reading of years 0-99 as 1900-1999 (module `JsDate`).

Three behaviours of the code shape much of the model:
- **The scheduler counts calendar days.** Its thresholds are 7, 1 and 0, in an `else if` chain. There is no working-day or holiday adjustment, and no five-day admin digest.
- **A submission for an unknown celebrant throws.** The `catch` sends the sender an error DM. No placeholder record is created.
- **Two statements do not exist.** `birthday-cron.js` calls `statements.getBirthdayMessageCount` and `birthday-service.js` calls `statements.updateLastNotificationDate`, but `database.js` defines neither. Each call throws a `TypeError`. The model has this fault as a value, `MissingStatement`, with these consequences:
  - every one-day-ahead record ends that day's scheduler run without a post;
  - every collection that gets as far as its summary ends in the admin error post;
  - a collection never records its notification date.

## Model

| member | source | states |
|---|---|---|
| Text.TrimStart | commands.js:46 | the result is a suffix of the input; only white space was removed, and the result does not start with white space |
| Text.TrimEnd | commands.js:46 | the result is a prefix of the input; only white space was removed, and the result does not end with white space |
| Text.Trim | commands.js:46 | `trim()` gives a slice of its input with only white space before and after it, and the slice neither starts nor ends with white space |
| Text.TrimDropsPadding | commands.js:46 | any run of white space at either end, ASCII or a Unicode space separator such as U+3000, is removed and the text in between is returned as it is |
| Text.TrimStartSkips | commands.js:46 | leading white space does not change what the leading trim returns |
| Text.TrimEndSkips | commands.js:46 | trailing white space does not change what the trailing trim returns |
| Text.TrimIdempotent | commands.js:46 | trimming twice is trimming once |
| Text.TrimUnpadded | commands.js:46 | a string without white space at its ends is left unchanged |
| Text.Split | commands.js:46 | `split(sep)` gives at least one piece; the first piece is a prefix of the input, and no piece contains the separator |
| Text.JoinSplit | commands.js:46 | joining the pieces of a split with the separator gives back the original string |
| Text.SplitJoin | commands.js:46 | splitting a join of separator-free pieces gives back those pieces |
| Text.SplitNoSeparator | commands.js:46 | a string without the separator splits into itself alone |
| Text.SplitAfterPiece | commands.js:46 | a separator-free piece followed by the separator splits off as the first piece |
| Text.BeforeFirst | generate-holidays.js:47 | `split('T')[0]` is the longest prefix without `T`, and the character after it is the `T` |
| Text.BeforeFirstIsFirstPiece | generate-holidays.js:47 | the first piece of a split is the text before the first separator |
| Text.ContainsAt | generate-holidays.js:44 | `includes(sub)` holds exactly when `sub` occurs at some position |
| Text.LowerAscii | sync-birthdays.js:47 | upper-case ASCII letters are lowered and every other character is kept |
| Text.DigitOf | birthday-cron.js:21-22 | a character's digit value is at most 36 |
| Text.DecimalDigitRange | birthday-cron.js:21-22 | the decimal digits are exactly `0` to `9` |
| Text.DigitPrefix | birthday-cron.js:21-22 | the digit run `parseInt` reads is a prefix made of digits and is followed by a non-digit or the end |
| Text.ParseIntDigits | birthday-cron.js:21-22 | `parseInt` of a run of decimal digits is its decimal value |
| Text.PlainDecimal | birthday-cron.js:21-22 | a string starting with a decimal digit, and not with `0x`, has no sign or blank for `parseInt` to strip and is read in base 10 |
| Text.DecimalDigit | birthday-cron.js:21-22 | a decimal digit is neither white space, nor a sign, nor the `x` of a hexadecimal prefix |
| Text.ParseIntStopsAtNonDigit | birthday-cron.js:21-22 | `parseInt` stops at the first non-digit and ignores the rest of the string, leading zeros included; only `0` followed by `x` turns to hexadecimal |
| JsDate.DayFromYearStep | birthday-cron.js:20-23 | the first day numbers of consecutive years are the length of the earlier year apart |
| JsDate.DaysInMonth | commands.js:18 | every month has 28 to 31 days |
| JsDate.DaysBeforeMonth | birthday-cron.js:20-23 | the days before month `mo` are between 0 and 31 per month |
| JsDate.DaysBeforeNextMonth | birthday-cron.js:20-23 | each month starts where the previous one ends |
| JsDate.MonthsFillYear | birthday-cron.js:20-23 | the twelve months fill the year exactly |
| JsDate.Normalize | birthday-cron.js:20-23 | rolling an out-of-range day over into neighbouring months always yields a real calendar date |
| JsDate.PreviousMonthSameDay | birthday-cron.js:20-23 | day `d` of a month is the same day as day `d` plus the previous month's length, counted in the previous month |
| JsDate.NextMonthSameDay | birthday-cron.js:20-23 | day `d` of a month is the same day as day `d` minus this month's length, counted in the next month |
| JsDate.NormalizeKeepsDayNumber | birthday-cron.js:20-23 | roll-over does not move the date: the rolled date has the same day number |
| JsDate.NormalizeValid | birthday-cron.js:20-23 | a date that already exists is not rolled over |
| JsDate.DayNumberWithinYear | birthday-cron.js:20-23 | a real date of year `y` has a day number inside that year |
| JsDate.MakeDayWithinYear | birthday-cron.js:20-23 | a month index in 0-11 does not carry into another year; the date is that of the constructor's year |
| JsDate.DayZeroIsLastOfPreviousMonth | commands.js:18 | `new Date(y, m, 0)` is the last day of month `m - 1` of the constructor's year, so `getDate()` is that month's length |
| JsDate.DateOf | birthday-cron.js:20-23 | `new Date(y, m, d)` denotes a real calendar date with the day number MakeDay gives for the constructor's year, 1900 + `y` when `y` is 0-99 |
| JsDate.TwoDigitYear | birthday-cron.js:20-23 | the constructor reads a year 0-99 as 1900-1999: `new Date(50, 0, 1)` is 1 January 1950 |
| JsDate.DayFromYearGrows | birthday-cron.js:20-23 | a later year starts at least 365 days per year in between later |
| Slack.Lookup | commands.js:28-32 | `users.info` returns a member with the asked id, or none when no member has it |
| Slack.SlackClient.PostMessage | birthday-service.js:172-176 | a post is appended to the trace; its `ts` is its position, and it succeeds unless that position fails |
| Slack.SlackClient.DeleteMessage | commands.js:265-268 | a delete is appended to the trace and succeeds unless its position fails |
| Database.Find | database.js:109-111 | `getBirthday` returns a row with that user id, or none when no row has it |
| Database.CountKeyAtMostOne | database.js:171-173 | with `user_id` as primary key, `checkUserExists` counts 0 or 1, and 1 exactly when the row exists |
| Database.WithoutKey | database.js:92-107 | the REPLACE half of the upsert removes exactly the rows of that user |
| Database.WithoutKeyUnique | database.js:92-107 | removing a user's row keeps the keys unique |
| Database.WithoutKeyLength | database.js:92-107 | removing a user's row shrinks the table by one exactly when the row existed |
| Database.UpsertSemantics | database.js:92-107 | `INSERT OR REPLACE` keeps one row per user, the new row is what a lookup finds afterwards, other users are unaffected, and the table grows only for a new user |
| Database.FindUnique | database.js:33 | with unique keys, the lookup returns the one row of that user |
| Database.NewBirthday | database.js:92-107 | the row written has the given user and date, `1900-01-01` when no date is given, and the notification flags reset |
| Database.Unsent | database.js:134-139 | selecting unsent rows never adds rows |
| Database.UnsentMembers | database.js:134-139 | exactly the celebrant's rows not yet sent are selected |
| Database.UnsentInIdOrder | database.js:134-139 | the selected rows come out in id order, that is, oldest first |
| Database.UnsentAppend | database.js:124-132 | a row inserted later comes last among the celebrant's unsent rows |
| Database.MarkSent | database.js:141-146 | marking keeps the number of rows |
| Database.MarkSentPointwise | database.js:141-146 | the celebrant's rows are flagged sent in place and all other rows are unchanged |
| Database.UnsentAfterMark | database.js:141-146 | after marking, the celebrant has no unsent rows and every other celebrant keeps theirs |
| Database.MarkSentIdempotent | database.js:141-146 | marking twice is marking once |
| Database.LateContributionMarked | database.js:141-146 | a contribution stored after the unsent rows were read is not among them, yet the mark flags it sent, so it is never selected again |
| Database.BirthdayStore.InsertBirthday | database.js:92-107 | the table becomes the upsert of the new row; the contribution tables are unchanged |
| Database.BirthdayStore.GetBirthday | database.js:109-111 | returns the user's row, or none when the table has no row for the user |
| Database.BirthdayStore.GetAllBirthdays | database.js:113-115 | returns the whole table in rowid order |
| Database.BirthdayStore.CheckUserExists | database.js:171-173 | the count is 0 or 1, and 1 exactly when the user has a row |
| Database.BirthdayStore.InsertBirthdayMessage | database.js:124-132 | appends one unsent message with the next AUTOINCREMENT id and its media URL; nothing else changes |
| Database.BirthdayStore.InsertDescriptionMessage | database.js:148-155 | appends one unsent description with the next id; nothing else changes |
| Database.BirthdayStore.GetBirthdayMessages | database.js:134-139 | returns exactly the celebrant's unsent messages, oldest first |
| Database.BirthdayStore.GetDescriptionMessages | database.js:157-162 | returns exactly the celebrant's unsent descriptions, oldest first |
| Database.BirthdayStore.MarkMessagesAsSent | database.js:141-146 | flags the celebrant's messages sent; the other tables are unchanged |
| Database.BirthdayStore.MarkDescriptionMessagesAsSent | database.js:164-169 | flags the celebrant's descriptions sent; the other tables are unchanged |
| BirthdayService.GenerateBirthdayMessage | birthday-service.js:19-20 | the greeting is one of the twelve predefined greetings |
| BirthdayService.CeilingQuotient | birthday-service.js:44-50 | the number of chunks is the ceiling of length / size |
| BirthdayService.Chunk | birthday-service.js:44-50 | the chunks concatenate to the input; every chunk is non-empty with at most `size` elements, all but the last have exactly `size`, and there are ceil(n / size) of them |
| BirthdayService.Recipients | birthday-service.js:156-163 | exactly the eligible members are kept: not bots, not deleted, not restricted, not the celebrant, not Slackbot |
| BirthdayService.RecipientsAppend | birthday-service.js:156-163 | the filter keeps directory order |
| BirthdayService.RequestedSnoc | birthday-service.js:169-185 | asking one more user appends one DM attempt |
| BirthdayService.RequestedAppend | birthday-service.js:169-185 | asking batch after batch is asking their concatenation, so chunking does not change the DMs sent |
| BirthdayService.RequestedShape | birthday-service.js:169-185 | every recipient gets exactly one collection DM, in order, whether or not earlier DMs failed |
| BirthdayService.CollectionUnknownCelebrant | birthday-service.js:142-145 | a celebrant without a record gets no DMs; only the admin error post is made |
| BirthdayService.CollectionSameDay | birthday-service.js:150-153 | when the notification date is today, nothing is posted |
| BirthdayService.CollectionFanOut | birthday-service.js:155-201 | in order, one DM per recipient, the admin summary with the recipient count, then the admin error post caused by the missing update statement |
| BirthdayService.CollectionNeverAsksCelebrant | birthday-service.js:161-162 | no collection post ever goes to the celebrant or to Slackbot |
| BirthdayService.AskBatch | birthday-service.js:170-185 | one DM attempt per user of the batch, a failing DM being caught |
| BirthdayService.ReportCollectionError | birthday-service.js:197-202 | the `catch` makes the admin error post, and its own failure escapes |
| BirthdayService.TriggerBirthdayCollection | birthday-service.js:140-204 | the Slack calls are exactly those of the collection specification, for every failure pattern |
| BirthdayService.AllSucceedSplit | birthday-service.js:229-306 | calls succeed over a stretch exactly when they succeed over both of its parts |
| BirthdayService.AttemptAllSucceed | birthday-service.js:229-306 | when no call fails, every draft is posted, delivered, in order |
| BirthdayService.AttemptFailure | birthday-service.js:229-306 | sequential awaits stop at the first failing post, which is recorded as not delivered |
| BirthdayService.AttemptAppend | birthday-service.js:229-306 | posting a concatenation posts the first part, then the second only if the first fully succeeded |
| BirthdayService.AttemptStep | birthday-service.js:229-306 | one more post extends a run of successes, or ends the run where it fails |
| BirthdayService.DigestLinesAppend | birthday-service.js:253-256 | the digest keeps the query order of the descriptions |
| BirthdayService.DigestLinesSingle | birthday-service.js:255 | each description contributes its own bullet line with sender name |
| BirthdayService.BuildDigest | birthday-service.js:253-256 | the digest is the header followed by one line per description, in order |
| BirthdayService.ReplyContent | birthday-service.js:267-296 | a reply carries an image exactly when the message has a media URL, and its fallback text then ends with that URL |
| BirthdayService.ThreadWithoutMessages | birthday-service.js:211-227 | without unsent messages, one default celebration is posted and nothing is threaded or marked, even when descriptions exist |
| BirthdayService.ThreadDraftsShape | birthday-service.js:229-304 | the root post first; greeting and digest only when there are descriptions; then one reply per message; all replies are threaded under the root |
| BirthdayService.ThreadOrder | birthday-service.js:229-306 | when every call succeeds, the exact posts of the thread appear in order, and both tables are marked |
| BirthdayService.AllSucceedThree | birthday-service.js:229-265 | the root, greeting and digest calls all succeed exactly when none of the three positions fails |
| BirthdayService.ThreadMarksAfterPosting | birthday-service.js:243-306 | messages are marked only when every post went through; descriptions only when root, greeting and digest did |
| BirthdayService.ThreadStopsAtFailure | birthday-service.js:308-314 | a failing post ends the thread there, and exactly one admin error post follows |
| BirthdayService.DraftsStopAtFailure | birthday-service.js:308-314 | a failing post ends the drafts there, and exactly one admin error post follows |
| BirthdayService.ThreadFirstPostFails | birthday-service.js:206-314 | a failing first post is followed only by the admin error post, and nothing is marked |
| BirthdayService.ThreadAfterRoot | birthday-service.js:243-314 | after the root post, the body is posted under it, followed by the error post when any of its posts fails |
| BirthdayService.ReportThreadError | birthday-service.js:308-314 | the publisher's `catch` makes the admin error post, and its own failure escapes |
| BirthdayService.PostDraft | birthday-service.js:298-303 | one post, recorded with whether it went through |
| BirthdayService.PostReplies | birthday-service.js:267-304 | one reply per message, in order, until the first failure |
| BirthdayService.PostDescriptions | birthday-service.js:243-265 | greeting then digest under the root; descriptions are marked only when both succeeded |
| BirthdayService.PostThreadBody | birthday-service.js:243-306 | the body's exact posts, and the tables marked as the source orders them |
| BirthdayService.PostThread | birthday-service.js:229-314 | the calls and the table updates are those of the thread specification |
| BirthdayService.PostBirthdayThread | birthday-service.js:206-315 | the calls are those of the thread specification on the celebrant's unsent rows; only that celebrant's rows are marked |
| DayCount.AllDigitsAreDecimal | birthday-cron.js:21-22 | a digit field consists of decimal digits |
| DayCount.DecimalSnoc | birthday-cron.js:21-22 | a digit field's value is the value of its prefix times ten plus its last digit |
| DayCount.DecimalOne | birthday-cron.js:21-22 | a one-digit field's value is that digit |
| DayCount.DecimalTwo | birthday-cron.js:21-22 | a two-digit field such as `02` has value ten times the first digit plus the second |
| DayCount.ParseDecimal | birthday-cron.js:21-22 | `parseInt` of a digit field is its decimal value |
| DayCount.SplitDayMonth | birthday-cron.js:21-22 | `DD-MM` splits into its day and month fields |
| DayCount.NominalDayOfParts | birthday-cron.js:20-23 | only the first two fields count: the birthday is `new Date(year, month - 1, day)` |
| DayCount.NominalDayOfDayMonth | birthday-cron.js:20-23 | a stored `DD-MM` is placed on day DD of month MM of the current year |
| DayCount.SplitDayMonthTail | birthday-cron.js:21-22 | `DD-MM` followed by text without a hyphen splits into the day and the month with that text |
| DayCount.DayMonthFieldsOfSuffixedMonth | birthday-cron.js:21-22 | text after the month's digits is ignored when the day and month fields are parsed |
| DayCount.NominalDayIgnoresMonthSuffix | birthday-cron.js:20-23 | a stored `05-03 (approx)` still places the birthday on the 5th of March |
| DayCount.NominalDayOfCalendarDate | birthday-cron.js:20-23 | a date that exists in the constructor's year (1900 + a two-digit year) lands on that very day of it |
| DayCount.LeapDayInCommonYear | birthday-cron.js:20-23 | the 29th of February of a common year (as the constructor reads the year) is the 1st of March |
| DayCount.OffsetIsCeiling | birthday-cron.js:25-26 | the count is the least whole number of days reaching the birthday from now |
| DayCount.OffsetIsDayDifference | birthday-cron.js:25-26 | counted from any time of day, the count is the number of calendar days from today to the birthday |
| DayCount.DayCountIsDistance | birthday-cron.js:25-26 | the count of an Invalid Date is none, else the distance in days from today |
| DayCount.PlanByDaysAhead | birthday-cron.js:19-43 | a record is collected exactly when its day is 7 days ahead, counted 1 day ahead, and published on the day; both directions |
| DayCount.DispatchByDayCount | birthday-cron.js:28-43 | the `else if` chain selects each action exactly for its count |
| DayCount.SplitThree | birthday-cron.js:21-22 | a `YYYY-MM-DD` date splits into its three fields |
| DayCount.NominalDayOfIsoDate | birthday-cron.js:20-23 | a `YYYY-MM-DD` value is read with YYYY as the day of month MM |
| DayCount.UnknownDateFields | birthday-cron.js:20-23 | the placeholder `1900-01-01` is read as day 1900 of January |
| DayCount.OffsetFromYearStart | birthday-cron.js:19-26 | day `k` of the current year is between `k - DaysInYear` and `k` days ahead |
| DayCount.TwoDigitClockYearAhead | birthday-cron.js:19-26 | when the clock's year is 0-99 the birthday is placed in the twentieth century, over 1800 years ahead |
| DayCount.UnknownDateOffset | birthday-cron.js:19-26 | the placeholder date lies at least 1534 days ahead, and at most 1899 unless the clock's year has two digits |
| DayCount.FarOffsetIdle | birthday-cron.js:28-43 | nothing happens more than a week ahead |
| DayCount.UnknownDateNeverActs | birthday-cron.js:18-43 | a record without a known birthday never triggers any action |
| DayCount.EarlyJanuaryOffset | birthday-cron.js:19-31 | a birthday placed on January 1-7 of the current year is never exactly seven days ahead |
| DayCount.EarlyJanuaryNeverCollected | birthday-cron.js:19-31 | a birthday in the first week of January never gets its collection started |
| BirthdayCron.Plans | birthday-cron.js:18-26 | one action per record |
| BirthdayCron.StepBookkeeping | birthday-cron.js:28-43 | each visited record adds its action; a count request always stops the run; an idle record changes nothing else |
| BirthdayCron.RunChoicesPrefix | birthday-cron.js:18-44 | only the greetings of the visited records matter |
| BirthdayCron.RunSnoc | birthday-cron.js:18-44 | one more record extends the run by exactly one step |
| BirthdayCron.VisitedStep | birthday-cron.js:18-44 | one step keeps the visited actions in table order |
| BirthdayCron.CountStep | birthday-cron.js:18-44 | one step keeps the count request last in the run |
| BirthdayCron.RunVisitsInOrder | birthday-cron.js:18-44 | the records are visited in table order, each with its own action, and the run stops early only through an exception |
| BirthdayCron.CountRequestEndsRun | birthday-cron.js:32-38 | a one-day-ahead record always ends the run, so it is the last record visited |
| BirthdayCron.RunStaysAborted | birthday-cron.js:14-47 | after an exception no later record is visited |
| BirthdayCron.QuietDay | birthday-cron.js:18-44 | on a day with no record due, nothing is posted and no table changes |
| BirthdayCron.HandleRecord | birthday-cron.js:19-43 | one iteration performs exactly the step the specification gives for the record's action |
| BirthdayCron.Tick | birthday-cron.js:14-47 | one daily run performs the specified run over all records in table order, and stops early only when aborted |
| Commands.IsValidDateMeans | commands.js:12-22 | a date is accepted exactly when it is `DD-MM` naming a day of a leap year; both directions |
| Commands.ValidDateOfDigits | commands.js:12-22 | for four digits, acceptance is exactly a month of 1-12 and a day within that month of 2000 |
| Commands.LeapDayAccepted | commands.js:18 | `29-02` is accepted |
| Commands.ImpossibleDatesRefused | commands.js:16-19 | `30-02`, `31-04` and `00-05` are refused |
| Commands.ValidDateHasNoSpace | commands.js:13 | an accepted date contains no space, so it stays one token |
| Commands.AcceptedDateIsCelebrated | commands.js:55-68 | a date `/set-birthday` accepts is celebrated on that very day in every year where the day exists, the year read as the `Date` constructor reads it |
| Commands.StripMention | commands.js:26 | stripping never lengthens the text |
| Commands.StripMentionMembers | commands.js:26 | every `<`, `@` and `>` is removed, and every other character is kept |
| Commands.StripMentionAppend | commands.js:26 | stripping works character by character |
| Commands.StripMentionCons | commands.js:26 | a leading mark is dropped and a leading non-mark is kept |
| Commands.StripMentionUnmarked | commands.js:26 | text without marks is unchanged |
| Commands.StripMentionIdempotent | commands.js:26 | stripping twice is stripping once |
| Commands.StripMentionAllMarks | commands.js:26 | only marks leave nothing |
| Commands.StripMentionBetweenMarks | commands.js:26 | an id surrounded by marks is what remains |
| Commands.StripMentionOfMention | commands.js:60 | the mention `<@id>` yields `id` |
| Commands.FindUser | commands.js:25-37 | `findUserFromMention` finds a member whose id is the stripped mention, or `null` when none has it |
| Commands.RepliedInConversation | commands.js:74-89 | a reply is one post to the command's conversation, followed by the apology there when it fails |
| Commands.Say | commands.js:74-89 | the calls are the reply and, when it fails, the apology |
| Commands.SetBirthdayChecksBeforeLookup | commands.js:46-58 | the usage reply comes exactly when the text is not two tokens, and the usage and date replies do not depend on the directory |
| Commands.SetBirthdaySavesValidDate | commands.js:46-68 | a save happens only for an accepted date and a member found by the stripped first token |
| Commands.MentionIsOneToken | commands.js:46 | a mention of an id without spaces is one token |
| Commands.CommandTokens | commands.js:46-53 | a mention, a space and a date split into those two tokens |
| Commands.SetBirthdayFromMention | commands.js:46-68 | `/set-birthday <@id> DD-MM` saves that member with that date, and the record has its flags reset |
| Commands.SetBirthday | commands.js:42-91 | the record is written exactly as the decision says, the reply is made, and a failing reply does not undo the write |
| Commands.ReadSetBirthday | commands.js:46-66 | the checks run in the handler's order: token count, date, then directory |
| Commands.SubmittedParts | commands.js:254-262 | the confirmation names exactly the parts that were given |
| Commands.SubmitForUnknownCelebrant | commands.js:209-227 | with no celebrant id or no record, nothing is stored and only error DMs go to the sender |
| Commands.SubmitNothingToStore | commands.js:239-245 | with both texts empty, nothing is stored, whatever the media field holds, and the sender is prompted |
| Commands.SubmitStoresWhatWasGiven | commands.js:247-252 | a message row exists exactly when there is message text and carries the media URL; a description row exists exactly when there is description text |
| Commands.SubmitConfirmed | commands.js:254-274 | the form is deleted, then the sender is thanked once for exactly what was stored |
| Commands.SubmittedRowsAwaitThread | commands.js:247-252 | the stored rows come last among the celebrant's unsent rows for the thread |
| Commands.Apologize | commands.js:280-287 | the apology DM is sent and its failure is swallowed |
| Commands.Notify | commands.js:240-243 | one DM to the sender |
| Commands.StoreSubmission | commands.js:247-274 | the rows are appended with the next ids, then the form is deleted and the confirmation sent |
| Commands.SubmitContent | commands.js:204-289 | the calls and the rows stored are those of the submission specification; the birthday table is unchanged |
| Commands.ListingKey | commands.js:117-119 | a listed date falls in one of the twelve months |
| Commands.Listing | commands.js:110-119 | a listed record falls in one of the twelve months |
| Commands.Listings | commands.js:110-114 | one listing per record |
| Commands.Buckets | commands.js:116-129 | there is one bucket per month |
| Commands.BucketMembers | commands.js:116-129 | a line is in a month's bucket exactly when it is listed in that month |
| Commands.ListedRecords | commands.js:110-129 | a month's lines are exactly those of records with a real date in that month, under the member's real name, else user name, else the `<@id>` mention when the member is unknown; the placeholder date is never listed |
| Commands.ListingOf | commands.js:110-119 | a record is listed exactly when its date is not the placeholder, and then with its month, day and name |
| Commands.AcceptedDateListed | commands.js:117-119 | an accepted date is listed under its own month with its own day |
| Commands.InsertByDay | commands.js:139 | inserting adds exactly the one line |
| Commands.SortByDay | commands.js:139 | sorting is a permutation |
| Commands.InsertByDaySorted | commands.js:139 | inserting into sorted lines keeps them sorted |
| Commands.SortByDaySorts | commands.js:139 | a month's lines come out ascending by day, none lost or added |
| Commands.OfDayAppend | commands.js:139 | the lines of one day in a concatenation are those of each part, in order |
| Commands.OfDaySingle | commands.js:139 | a single line is a line of its own day only |
| Commands.InsertByDayStable | commands.js:139 | inserting a line keeps the order of the lines of every day and puts the new line last among its day |
| Commands.SortByDayStable | commands.js:139 | the sort is stable: the lines of each day keep their table order |
| Commands.CalendarMonthsOrdered | commands.js:134-145 | the month sections appear in calendar order, each month at most once |
| Commands.MonthsIncreasingAppend | commands.js:136-145 | adding a later month keeps the sections in order |
| Commands.CalendarMonthsSorted | commands.js:136-145 | each section holds its month's lines sorted by day |
| Commands.SortedSectionsAppend | commands.js:136-145 | adding a sorted section keeps all sections sorted |
| Commands.CalendarMonthsComplete | commands.js:136-145 | every month with a line gets a section |
| Commands.BucketEntryShown | commands.js:136-142 | every line of a month's bucket is shown under that month |
| Commands.SectionShowsBucket | commands.js:136-142 | a month's section shows every line of that month's bucket |
| Commands.BucketLineIsShown | commands.js:116-145 | every listed line is shown under its month |
| Commands.SetDateIsShown | commands.js:94-158 | a record with an accepted date is shown under its own month, with its own day and the member's name |
| Commands.ShownLinesComeFromRecords | commands.js:110-145 | every shown line comes from a record of that month |
| Commands.BucketSnoc | commands.js:116-129 | a record adds its line to its own month's bucket only |
| Commands.GroupByMonth | commands.js:116-129 | the `reduce` builds exactly the twelve buckets |
| Commands.MonthSections | commands.js:136-145 | the loop over the months builds exactly the calendar |
| Commands.SeeBirthdays | commands.js:94-164 | the reply is the listing (or the empty-table message) with the apology on failure |
| Commands.UnmentionedOnlyReplies | commands.js:170-182 | a command naming nobody only replies in its own conversation: nobody is messaged and no table changes |
| Commands.CollectCommand | commands.js:167-201 | an unknown user gets the prompt or not-found reply; otherwise the collection runs, then the success reply or the apology |
| Commands.ThreadCommand | commands.js:292-326 | an unknown user gets the prompt or not-found reply; otherwise the thread is published and marked, then the success reply or the apology |
| SyncBirthdays.Either | sync-birthdays.js:11-12 | the logical or of two cells takes the first when it is truthy, else the second |
| SyncBirthdays.CsvEntryRule | sync-birthdays.js:10-16 | a CSV record is imported exactly when it has an id and a date under either column name; both are stored trimmed |
| SyncBirthdays.CsvBlankIdStoredEmpty | sync-birthdays.js:13-14 | the check precedes the trim, so a blank id is stored as the empty id |
| SyncBirthdays.LowerCase | sync-birthdays.js:47 | lower-casing is character by character |
| SyncBirthdays.SheetEntryRule | sync-birthdays.js:45-49 | a sheet row is taken exactly when its first two cells are non-empty and its status is blank or `active` in any case |
| SyncBirthdays.ActiveSpellings | sync-birthdays.js:47 | `ACTIVE` and blank are accepted; `inactive` and ` active` are not |
| SyncBirthdays.LastDateMeans | sync-birthdays.js:45-50 | the date kept for a user is the one of their last accepted entry |
| SyncBirthdays.ImportAllFind | sync-birthdays.js:13-14 | after an import, keys stay unique and each user's row is their last entry, or their old row |
| SyncBirthdays.CsvPicks | sync-birthdays.js:10-16 | one entry per CSV record |
| SyncBirthdays.SheetPicks | sync-birthdays.js:44-50 | one entry per sheet row |
| SyncBirthdays.ImportAllSnoc | sync-birthdays.js:45-50 | each accepted entry is one `insertBirthday` |
| SyncBirthdays.ImportFromCsv | sync-birthdays.js:6-20 | the table becomes the import of the CSV's entries, in file order |
| SyncBirthdays.ImportSheetRows | sync-birthdays.js:44-50 | the table becomes the import of the sheet's entries, in row order |
| SyncBirthdays.ImportFromSheet | sync-birthdays.js:22-51 | nothing changes without credentials or on a failed request; otherwise each row is imported |
| SyncBirthdays.Sync | sync-birthdays.js:53-71 | each configured source is imported in turn, and a failing source does not stop the other |
| SyncBirthdays.SheetOverridesCsv | sync-birthdays.js:53-71 | a sheet entry overrides the CSV for the same user, which overrides the old row |
| GenerateHolidays.NonEmpty | generate-holidays.js:14 | `filter(Boolean)` keeps only non-empty ids |
| GenerateHolidays.TrimAll | generate-holidays.js:14 | each id is trimmed |
| GenerateHolidays.NonEmptyMembers | generate-holidays.js:14 | exactly the non-empty strings are kept |
| GenerateHolidays.TrimmedMembers | generate-holidays.js:14 | an id is kept exactly when some piece trims to it and it is non-empty |
| GenerateHolidays.CalendarIdsMembers | generate-holidays.js:13-15 | an id is listed exactly when a comma-separated piece of the setting trims to it and it is non-empty |
| GenerateHolidays.CalendarIdsOfJoin | generate-holidays.js:13-15 | clean ids joined by commas come back unchanged |
| GenerateHolidays.EventDate | generate-holidays.js:43-48 | a contributed date contains no `T` |
| GenerateHolidays.EventDateForms | generate-holidays.js:43-48 | an all-day event contributes its date, a timed event the date part of its start, and an untagged event nothing |
| GenerateHolidays.StartDates | generate-holidays.js:42-50 | one entry per event |
| GenerateHolidays.PickedMembers | generate-holidays.js:46-47 | exactly the present dates are taken |
| GenerateHolidays.InSomeCalendarSnoc | generate-holidays.js:33-54 | one more calendar adds exactly its own dates |
| GenerateHolidays.EventDatesMembers | generate-holidays.js:42-50 | a date comes from the events exactly when some event contributes it |
| GenerateHolidays.LeqTotal | generate-holidays.js:56 | the default sort's order is total |
| GenerateHolidays.LeqAntisymmetric | generate-holidays.js:56 | the default sort's order is antisymmetric |
| GenerateHolidays.LeqTransitive | generate-holidays.js:56 | the default sort's order is transitive |
| GenerateHolidays.IsoOrderIsChronological | generate-holidays.js:56 | on `YYYY-MM-DD` dates, string order is calendar order |
| GenerateHolidays.Insert | generate-holidays.js:56 | inserting adds exactly the one date |
| GenerateHolidays.InsertSorted | generate-holidays.js:56 | inserting a new date keeps the list strictly sorted |
| GenerateHolidays.Sort | generate-holidays.js:56 | sorting is a permutation |
| GenerateHolidays.SortMembers | generate-holidays.js:56 | sorting keeps exactly the elements |
| GenerateHolidays.SortSorts | generate-holidays.js:56 | distinct dates come out strictly increasing |
| GenerateHolidays.StrictlySortedUnique | generate-holidays.js:32-56 | there is one strictly sorted list of a set, so the output does not depend on calendar or event order |
| GenerateHolidays.Add | generate-holidays.js:47 | `Set.add` gives the old elements plus the new one |
| GenerateHolidays.AddDistinct | generate-holidays.js:47 | the set never holds a date twice |
| GenerateHolidays.AddEventDates | generate-holidays.js:42-50 | the dates of one calendar are added, without duplicates |
| GenerateHolidays.CollectAll | generate-holidays.js:32-54 | the collected dates are distinct and are exactly those of some configured calendar |
| GenerateHolidays.Generate | generate-holidays.js:4-59 | the run exits exactly when credentials or ids are missing; otherwise it writes the strictly sorted dates of all calendars, exactly those |

## Left out

- BirthdayService.Chunk: requires `size > 0`. `chunk(array, 0)` would never terminate, and the only call uses 10.
- BirthdayService.GenerateBirthdayMessage: the greeting is picked nondeterministically. `Math.random` is not modelled.
- Time zones and daylight saving time are not modelled: local time is UTC. The `node-cron` schedule and its Europe/London zone are not modelled either; one run of the job is one `BirthdayCron.Tick`.
- BirthdayCron.Tick: reads the clock once per run. The source calls `new Date()` again for every record.
- DayCount.OffsetIsCeiling: integer arithmetic stands for the floating-point division. The two agree whenever the quotient's magnitude is below 2^53 / 86400000, about 1.04e8 days, which covers every valid time value.
- BirthdayService.PostBirthdayThread: the Slack handlers are modelled as running one after another, never interleaved. In the source a `submit_birthday_content` can store a row while the thread awaits `chat.postMessage`, after its read at birthday-service.js:208 or 243. The celebrant-wide mark at line 264 or 306 then flags that row sent although it was never posted (Database.LateContributionMarked shows the table side).
- Promise concurrency (`Promise.all`) and the `delay(2500)` pacing between batches: the DMs of a batch are modelled in order.
- The `error.data` of a failing DM is assumed to be present; a failure without it would escape the per-user `catch`.
- Block Kit layout and `mrkdwn` text are not modelled: posts carry their content as a datatype.
- `toLocaleString` month names are not modelled: the months are indexed 0-11 and assumed to be English names.
- `formatDate` in the confirmation reply is not modelled.
- Database.UnsentInIdOrder: the `ORDER BY created_at` of the two contribution queries is modelled as id order. `created_at` is `CURRENT_TIMESTAMP`, which has one-second resolution, so SQLite leaves rows submitted in the same second in no fixed order; the model returns them in insertion order.
- `ack()` is not modelled: it has no observable effect in the model.
- A failing `users.info` inside `findUserFromMention` is treated as user not found, as its `catch` does.
- The `catch` of the command handlers is modelled; an apology that itself fails is recorded as failed and nothing further happens.
- `updateNotificationSent` has no caller in the core and is not modelled.
- `checkDatabase` and the table creation are not modelled.
- `pull-meetings.js` and `index.js` are not part of this model.
- The ISO date `today` of the collection is an input: `toISOString()` is not modelled.
- File reading and CSV parsing are not modelled: the rows arrive parsed. A stream error after some rows is not modelled either, so a CSV import either completes or does not run.
- Google authentication, credentials and JSON parsing are not modelled: they are reduced to present or absent.
- The calendar responses, including `maxResults` 2500 and the year window, are inputs.
- `toLowerCase` is modelled for ASCII letters only.
- String comparison in `sort()` is by UTF-16 code unit; characters are compared as code points, which agrees on the ISO dates involved.
- GenerateHolidays.Generate: states the written dates as a set, with their sorted order; the insertion order of the JavaScript `Set` is used only inside the loop.
- `fs.writeFileSync` and `process.exit` become the `Written` and `Exited` outcomes.
- The generator's top-level `catch` is not modelled: no error reaches it in the model.
