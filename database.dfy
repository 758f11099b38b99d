/**
 * The three SQLite tables of the bot and its prepared statements, as table
 * operations on an in-memory store. `birthdays` is keyed by `user_id` and kept
 * in rowid order; the two contribution tables keep their rows in insertion
 * order, which is also the order of their AUTOINCREMENT ids. The queries sort
 * by `created_at`, a timestamp with one-second resolution; insertion order
 * stands in for it, including for rows written in the same second.
 */
module Database {
  import opened Wrappers

  /** The date `insertBirthday` stores when it is given none. */
  const UnknownDate: string := "1900-01-01"

  /** A row of `birthdays` (the timestamps `created_at`/`updated_at` are not modelled). */
  datatype BirthdayRow = BirthdayRow(
    userId: string,
    birthDate: string,
    notificationSent: bool,
    lastNotificationDate: Option<string>)

  /** A row of `birthday_messages` or of `description_messages` (the latter never has media). */
  datatype Contribution = Contribution(
    id: nat,
    celebrant: string,
    sender: string,
    senderName: string,
    body: string,
    mediaUrl: Option<string>,
    sent: bool)

  /** The PRIMARY KEY constraint on `birthdays.user_id`. */
  ghost predicate UniqueKeys(rows: seq<BirthdayRow>) {
    forall i, j :: 0 <= i < j < |rows| ==> rows[i].userId != rows[j].userId
  }

  ghost predicate IdsIncreasing(rows: seq<Contribution>) {
    forall i, j :: 0 <= i < j < |rows| ==> rows[i].id < rows[j].id
  }

  /** AUTOINCREMENT: ids grow with insertion order and stay below the next id. */
  ghost predicate IdsBelow(rows: seq<Contribution>, next: nat) {
    IdsIncreasing(rows) && (forall i :: 0 <= i < |rows| ==> rows[i].id < next)
  }

  /** `SELECT * FROM birthdays WHERE user_id = ?`. */
  function Find(rows: seq<BirthdayRow>, userId: string): (r: Option<BirthdayRow>)
    ensures r.Some? ==> r.value in rows && r.value.userId == userId
    ensures r.None? ==> forall row :: row in rows ==> row.userId != userId
  {
    if rows == [] then None
    else if rows[0].userId == userId then Some(rows[0])
    else Find(rows[1..], userId)
  }

  /** `SELECT COUNT(*) FROM birthdays WHERE user_id = ?`. */
  function CountKey(rows: seq<BirthdayRow>, userId: string): nat
  {
    if rows == [] then 0
    else (if rows[0].userId == userId then 1 else 0) + CountKey(rows[1..], userId)
  }

  /** With a unique key, the count is 1 exactly when the row exists and 0 otherwise. */
  lemma {:induction false} CountKeyAtMostOne(rows: seq<BirthdayRow>, userId: string)
    requires UniqueKeys(rows)
    ensures CountKey(rows, userId) <= 1
    ensures CountKey(rows, userId) == 1 <==> Find(rows, userId).Some?
  {
    if rows != [] {
      CountKeyAtMostOne(rows[1..], userId);
    }
  }

  /** The rows whose key is not `userId` (the DELETE half of INSERT OR REPLACE). */
  function WithoutKey(rows: seq<BirthdayRow>, userId: string): (r: seq<BirthdayRow>)
    ensures forall row :: row in r <==> row in rows && row.userId != userId
  {
    if rows == [] then []
    else (if rows[0].userId == userId then [] else [rows[0]]) + WithoutKey(rows[1..], userId)
  }

  lemma {:induction false} WithoutKeyUnique(rows: seq<BirthdayRow>, userId: string)
    requires UniqueKeys(rows)
    ensures UniqueKeys(WithoutKey(rows, userId))
  {
    if rows != [] {
      WithoutKeyUnique(rows[1..], userId);
      var rest := WithoutKey(rows[1..], userId);
      forall j | 0 <= j < |rest| ensures rows[0].userId != rest[j].userId {
        assert rest[j] in rows[1..];
      }
    }
  }

  /** `INSERT OR REPLACE`: the old row with that key goes, the new row is appended. */
  function Upsert(rows: seq<BirthdayRow>, row: BirthdayRow): seq<BirthdayRow>
  {
    WithoutKey(rows, row.userId) + [row]
  }

  /** Upsert keeps at most one row per user, and the new row is the one a lookup finds. */
  lemma UpsertSemantics(rows: seq<BirthdayRow>, row: BirthdayRow, k: string)
    requires UniqueKeys(rows)
    ensures UniqueKeys(Upsert(rows, row))
    ensures Find(Upsert(rows, row), k) == if k == row.userId then Some(row) else Find(rows, k)
    ensures |Upsert(rows, row)| == |rows| + (if Find(rows, row.userId).Some? then 0 else 1)
  {
    WithoutKeyUnique(rows, row.userId);
    var u := Upsert(rows, row);
    var w := WithoutKey(rows, row.userId);
    assert forall i :: 0 <= i < |w| ==> w[i] in w;
    FindUnique(u, k);
    FindUnique(rows, k);
    WithoutKeyLength(rows, row.userId);
  }

  /** With unique keys, Find returns the row with that key, whichever it is. */
  lemma FindUnique(rows: seq<BirthdayRow>, k: string)
    requires UniqueKeys(rows)
    ensures forall row :: row in rows && row.userId == k ==> Find(rows, k) == Some(row)
  {
    forall row | row in rows && row.userId == k ensures Find(rows, k) == Some(row) {
      var other := Find(rows, k).value;
      var i :| 0 <= i < |rows| && rows[i] == row;
      var j :| 0 <= j < |rows| && rows[j] == other;
      assert i == j;
    }
  }

  lemma {:induction false} WithoutKeyLength(rows: seq<BirthdayRow>, userId: string)
    requires UniqueKeys(rows)
    ensures |WithoutKey(rows, userId)| == |rows| - (if Find(rows, userId).Some? then 1 else 0)
  {
    if rows != [] {
      WithoutKeyLength(rows[1..], userId);
    }
  }

  /** The row `insertBirthday` writes: a missing date becomes the unknown date, notifications reset. */
  function NewBirthday(userId: string, birthDate: Option<string>): (row: BirthdayRow)
    ensures row.userId == userId
    ensures row.birthDate == if birthDate.Some? then birthDate.value else UnknownDate
    ensures !row.notificationSent && row.lastNotificationDate.None?
  {
    BirthdayRow(userId, birthDate.GetOr(UnknownDate), false, None)
  }

  /** `WHERE celebrant_id = ? AND sent_in_thread = FALSE`, in stored order. */
  function Unsent(rows: seq<Contribution>, celebrant: string): (r: seq<Contribution>)
    ensures |r| <= |rows|
  {
    if rows == [] then []
    else
      (if rows[0].celebrant == celebrant && !rows[0].sent then [rows[0]] else [])
      + Unsent(rows[1..], celebrant)
  }

  /** Exactly the celebrant's rows not yet sent are selected. */
  lemma {:induction false} UnsentMembers(rows: seq<Contribution>, celebrant: string)
    ensures forall x :: x in Unsent(rows, celebrant) <==> x in rows && x.celebrant == celebrant && !x.sent
  {
    if rows != [] {
      UnsentMembers(rows[1..], celebrant);
      assert rows == [rows[0]] + rows[1..];
    }
  }

  /** The unsent rows come out in id order, i.e. ordered by creation. */
  lemma {:induction false} UnsentInIdOrder(rows: seq<Contribution>, celebrant: string)
    requires IdsIncreasing(rows)
    ensures IdsIncreasing(Unsent(rows, celebrant))
  {
    if rows != [] {
      UnsentInIdOrder(rows[1..], celebrant);
      var rest := Unsent(rows[1..], celebrant);
      if rows[0].celebrant == celebrant && !rows[0].sent {
        UnsentMembers(rows[1..], celebrant);
        forall j | 0 <= j < |rest| ensures rows[0].id < rest[j].id {
          assert rest[j] in rows[1..];
          var k :| 0 <= k < |rows[1..]| && rows[1..][k] == rest[j];
          assert rows[k + 1] == rest[j];
        }
        IncreasingCons(rows[0], rest);
      }
    }
  }

  lemma IncreasingCons(x: Contribution, rest: seq<Contribution>)
    requires IdsIncreasing(rest)
    requires forall j :: 0 <= j < |rest| ==> x.id < rest[j].id
    ensures IdsIncreasing([x] + rest)
  {
    var r := [x] + rest;
    forall i, j | 0 <= i < j < |r| ensures r[i].id < r[j].id {
      assert r[j] == rest[j - 1];
      if i > 0 { assert r[i] == rest[i - 1]; }
    }
  }

  /** A row appended later comes last among the unsent rows of its celebrant. */
  lemma {:induction false} UnsentAppend(rows: seq<Contribution>, x: Contribution, celebrant: string)
    ensures Unsent(rows + [x], celebrant)
      == Unsent(rows, celebrant) + (if x.celebrant == celebrant && !x.sent then [x] else [])
  {
    if rows == [] {
      assert [x][1..] == [];
    } else {
      assert (rows + [x])[1..] == rows[1..] + [x];
      UnsentAppend(rows[1..], x, celebrant);
    }
  }

  /** `UPDATE ... SET sent_in_thread = TRUE WHERE celebrant_id = ? AND sent_in_thread = FALSE`. */
  function MarkSent(rows: seq<Contribution>, celebrant: string): (r: seq<Contribution>)
    ensures |r| == |rows|
  {
    if rows == [] then []
    else
      var first := if rows[0].celebrant == celebrant then rows[0].(sent := true) else rows[0];
      [first] + MarkSent(rows[1..], celebrant)
  }

  /** Marking flags the celebrant's rows as sent, keeps their place, and leaves every other row alone. */
  lemma {:induction false} MarkSentPointwise(rows: seq<Contribution>, celebrant: string)
    ensures forall i :: 0 <= i < |rows| ==>
      MarkSent(rows, celebrant)[i] == if rows[i].celebrant == celebrant then rows[i].(sent := true) else rows[i]
  {
    if rows != [] {
      MarkSentPointwise(rows[1..], celebrant);
    }
  }

  /** After marking, the celebrant has nothing unsent and every other celebrant keeps theirs. */
  lemma {:induction false} UnsentAfterMark(rows: seq<Contribution>, celebrant: string, other: string)
    ensures Unsent(MarkSent(rows, celebrant), celebrant) == []
    ensures other != celebrant ==> Unsent(MarkSent(rows, celebrant), other) == Unsent(rows, other)
  {
    if rows != [] {
      UnsentAfterMark(rows[1..], celebrant, other);
      assert MarkSent(rows, celebrant)[1..] == MarkSent(rows[1..], celebrant);
    }
  }

  /** Marking twice is marking once. */
  lemma MarkSentIdempotent(rows: seq<Contribution>, celebrant: string)
    ensures MarkSent(MarkSent(rows, celebrant), celebrant) == MarkSent(rows, celebrant)
  {
  }

  /**
   * The mark is by celebrant, not by the rows that were read: a contribution
   * stored after the read is not among the rows read, yet the mark flags it,
   * so it is never selected again.
   */
  lemma LateContributionMarked(rows: seq<Contribution>, x: Contribution, celebrant: string)
    requires x.celebrant == celebrant && !x.sent && x !in rows
    ensures x !in Unsent(rows, celebrant)
    ensures MarkSent(rows + [x], celebrant)[|rows|] == x.(sent := true)
    ensures Unsent(MarkSent(rows + [x], celebrant), celebrant) == []
  {
    UnsentMembers(rows, celebrant);
    MarkSentPointwise(rows + [x], celebrant);
    UnsentAfterMark(rows + [x], celebrant, celebrant);
  }

  /** The store behind `statements`. */
  class BirthdayStore {
    var birthdays: seq<BirthdayRow>
    var messages: seq<Contribution>
    var descriptions: seq<Contribution>
    var nextMessageId: nat
    var nextDescriptionId: nat

    ghost predicate Valid()
      reads this
    {
      UniqueKeys(birthdays)
      && IdsBelow(messages, nextMessageId)
      && IdsBelow(descriptions, nextDescriptionId)
      && (forall i :: 0 <= i < |descriptions| ==> descriptions[i].mediaUrl.None?)
    }

    /** Freshly created tables. */
    constructor ()
      ensures Valid()
      ensures birthdays == [] && messages == [] && descriptions == []
    {
      birthdays, messages, descriptions := [], [], [];
      nextMessageId, nextDescriptionId := 1, 1;
    }

    /** `insertBirthday.run(userId, birthDate)`. */
    method InsertBirthday(userId: string, birthDate: Option<string>)
      requires Valid()
      modifies this
      ensures Valid()
      ensures birthdays == Upsert(old(birthdays), NewBirthday(userId, birthDate))
      ensures messages == old(messages) && descriptions == old(descriptions)
      ensures nextMessageId == old(nextMessageId) && nextDescriptionId == old(nextDescriptionId)
    {
      UpsertSemantics(birthdays, NewBirthday(userId, birthDate), userId);
      birthdays := Upsert(birthdays, NewBirthday(userId, birthDate));
    }

    /** `getBirthday.get(userId)`: the user's row, None when there is none. */
    method GetBirthday(userId: string) returns (r: Option<BirthdayRow>)
      requires Valid()
      ensures r.Some? ==> r.value in birthdays && r.value.userId == userId
      ensures r.None? ==> forall row :: row in birthdays ==> row.userId != userId
    {
      r := Find(birthdays, userId);
    }

    /** `getAllBirthdays.all()`, in rowid order. */
    method GetAllBirthdays() returns (rows: seq<BirthdayRow>)
      requires Valid()
      ensures rows == birthdays
    {
      rows := birthdays;
    }

    /** `checkUserExists.get(userId).count`: 0 or 1. */
    method CheckUserExists(userId: string) returns (count: nat)
      requires Valid()
      ensures count <= 1
      ensures count == 1 <==> exists i :: 0 <= i < |birthdays| && birthdays[i].userId == userId
    {
      CountKeyAtMostOne(birthdays, userId);
      count := CountKey(birthdays, userId);
      if count == 1 {
        var row := Find(birthdays, userId).value;
        var i :| 0 <= i < |birthdays| && birthdays[i] == row;
      }
    }

    /** `insertBirthdayMessage.run(...)`: a new unsent row with the next id. */
    method InsertBirthdayMessage(celebrant: string, sender: string, senderName: string, body: string, mediaUrl: Option<string>)
      requires Valid()
      modifies this
      ensures Valid()
      ensures messages == old(messages) + [Contribution(old(nextMessageId), celebrant, sender, senderName, body, mediaUrl, false)]
      ensures nextMessageId == old(nextMessageId) + 1
      ensures birthdays == old(birthdays) && descriptions == old(descriptions)
      ensures nextDescriptionId == old(nextDescriptionId)
    {
      messages := messages + [Contribution(nextMessageId, celebrant, sender, senderName, body, mediaUrl, false)];
      nextMessageId := nextMessageId + 1;
    }

    /** `insertDescriptionMessage.run(...)`: a new unsent row with the next id. */
    method InsertDescriptionMessage(celebrant: string, sender: string, senderName: string, body: string)
      requires Valid()
      modifies this
      ensures Valid()
      ensures descriptions == old(descriptions) + [Contribution(old(nextDescriptionId), celebrant, sender, senderName, body, None, false)]
      ensures nextDescriptionId == old(nextDescriptionId) + 1
      ensures birthdays == old(birthdays) && messages == old(messages)
      ensures nextMessageId == old(nextMessageId)
    {
      descriptions := descriptions + [Contribution(nextDescriptionId, celebrant, sender, senderName, body, None, false)];
      nextDescriptionId := nextDescriptionId + 1;
    }

    /** `getBirthdayMessages.all(celebrant)`: the celebrant's unsent messages, oldest first. */
    method GetBirthdayMessages(celebrant: string) returns (rows: seq<Contribution>)
      requires Valid()
      ensures rows == Unsent(messages, celebrant)
      ensures forall x :: x in rows <==> x in messages && x.celebrant == celebrant && !x.sent
      ensures forall i, j :: 0 <= i < j < |rows| ==> rows[i].id < rows[j].id
    {
      rows := Unsent(messages, celebrant);
      UnsentMembers(messages, celebrant);
      UnsentInIdOrder(messages, celebrant);
    }

    /** `getDescriptionMessages.all(celebrant)`: the celebrant's unsent descriptions, oldest first. */
    method GetDescriptionMessages(celebrant: string) returns (rows: seq<Contribution>)
      requires Valid()
      ensures rows == Unsent(descriptions, celebrant)
      ensures forall x :: x in rows <==> x in descriptions && x.celebrant == celebrant && !x.sent
      ensures forall i, j :: 0 <= i < j < |rows| ==> rows[i].id < rows[j].id
    {
      rows := Unsent(descriptions, celebrant);
      UnsentMembers(descriptions, celebrant);
      UnsentInIdOrder(descriptions, celebrant);
    }

    /** `markMessagesAsSent.run(celebrant)`. */
    method MarkMessagesAsSent(celebrant: string)
      requires Valid()
      modifies this
      ensures Valid()
      ensures messages == MarkSent(old(messages), celebrant)
      ensures birthdays == old(birthdays) && descriptions == old(descriptions)
      ensures nextMessageId == old(nextMessageId) && nextDescriptionId == old(nextDescriptionId)
    {
      MarkSentPointwise(messages, celebrant);
      messages := MarkSent(messages, celebrant);
    }

    /** `markDescriptionMessagesAsSent.run(celebrant)`. */
    method MarkDescriptionMessagesAsSent(celebrant: string)
      requires Valid()
      modifies this
      ensures Valid()
      ensures descriptions == MarkSent(old(descriptions), celebrant)
      ensures birthdays == old(birthdays) && messages == old(messages)
      ensures nextMessageId == old(nextMessageId) && nextDescriptionId == old(nextDescriptionId)
    {
      MarkSentPointwise(descriptions, celebrant);
      descriptions := MarkSent(descriptions, celebrant);
    }
  }
}
