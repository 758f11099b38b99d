/**
 * The one-off import of birthdays into the `birthdays` table: first from a
 * CSV file, then from the first three columns of a Google sheet. Each
 * accepted row goes through `insertBirthday`, so a later row for the same
 * user replaces an earlier one. Reading the file, the credentials and the
 * sheet are inputs here: the rows arrive already parsed.
 */
module SyncBirthdays {
  import opened Wrappers
  import opened Text
  import opened Database

  /** A parsed CSV record: the four columns the import looks at, None when the header lacks one. */
  datatype CsvRow = CsvRow(userIdColumn: Option<string>, idColumn: Option<string>,
                           birthDateColumn: Option<string>, birthdayColumn: Option<string>)

  /** A JavaScript string value is truthy unless it is missing or empty. */
  predicate Truthy(v: Option<string>) {
    v.Some? && v.value != ""
  }

  /** `a || b` on two column values. */
  function Either(a: Option<string>, b: Option<string>): (r: Option<string>)
    ensures Truthy(r) <==> Truthy(a) || Truthy(b)
    ensures Truthy(a) ==> r == a
  {
    if Truthy(a) then a else b
  }

  /** The user id and the date stored for one CSV record; None when the record is skipped. */
  function CsvEntry(row: CsvRow): Option<(string, string)>
  {
    var id := Either(row.userIdColumn, row.idColumn);
    var date := Either(row.birthDateColumn, row.birthdayColumn);
    if Truthy(id) && Truthy(date) then Some((Trim(id.value), Trim(date.value))) else None
  }

  /**
   * The id comes from `user_id`, else from `id`; the date from `birth_date`,
   * else from `birthday`; a record lacking either is skipped, and both are
   * stored trimmed, whatever the date looks like.
   */
  lemma CsvEntryRule(row: CsvRow)
    ensures CsvEntry(row).Some? <==>
      (Truthy(row.userIdColumn) || Truthy(row.idColumn)) && (Truthy(row.birthDateColumn) || Truthy(row.birthdayColumn))
    ensures CsvEntry(row).Some? ==>
      CsvEntry(row).value.0 == Trim(if Truthy(row.userIdColumn) then row.userIdColumn.value else row.idColumn.value)
      && CsvEntry(row).value.1 == Trim(if Truthy(row.birthDateColumn) then row.birthDateColumn.value else row.birthdayColumn.value)
  {
  }

  /** The check comes before the trim: an id of white space alone passes it and is stored as the empty id. */
  lemma CsvBlankIdStoredEmpty(blank: string, date: string)
    requires blank != [] && forall i :: 0 <= i < |blank| ==> IsSpace(blank[i])
    requires date != []
    ensures CsvEntry(CsvRow(Some(blank), None, Some(date), None)) == Some(([], Trim(date)))
  {
    assert TrimStart(blank) == [];
  }

  /** `s.toLowerCase()` for ASCII letters. */
  function LowerCase(s: string): (r: string)
    ensures |r| == |s| && forall i :: 0 <= i < |s| ==> r[i] == LowerAscii(s[i])
  {
    seq(|s|, i requires 0 <= i < |s| => LowerAscii(s[i]))
  }

  /** The third column of a sheet row lets the row through: missing, empty, or `active` in any letter case. */
  predicate Active(status: Option<string>) {
    !Truthy(status) || LowerCase(status.value) == "active"
  }

  /** Cell `k` of a sheet row; the API leaves out trailing empty cells, which destructure to `undefined`. */
  function Cell(row: seq<string>, k: nat): Option<string> {
    if k < |row| then Some(row[k]) else None
  }

  /** The user id and the date stored for one sheet row; None when the row is skipped. */
  function SheetEntry(row: seq<string>): Option<(string, string)>
  {
    var id, date, status := Cell(row, 0), Cell(row, 1), Cell(row, 2);
    if Truthy(id) && Truthy(date) && Active(status) then Some((Trim(id.value), Trim(date.value))) else None
  }

  /** A sheet row is taken exactly when its first two cells are non-empty and its status is active or blank. */
  lemma SheetEntryRule(row: seq<string>)
    ensures SheetEntry(row).Some? <==>
      |row| >= 2 && row[0] != "" && row[1] != "" && (|row| < 3 || row[2] == "" || LowerCase(row[2]) == "active")
    ensures SheetEntry(row).Some? ==> SheetEntry(row).value == (Trim(row[0]), Trim(row[1]))
  {
  }

  /** The status test ignores letter case but not surrounding spaces, and rejects any other word. */
  lemma ActiveSpellings()
    ensures Active(Some("ACTIVE")) && Active(Some("Active")) && Active(Some("")) && Active(None)
    ensures !Active(Some("inactive")) && !Active(Some(" active"))
  {
    assert LowerCase("ACTIVE") == "active";
    assert LowerCase("Active") == "active";
    assert |LowerCase("inactive")| != |"active"|;
    assert LowerCase(" active")[0] == ' ';
  }

  /** The table after `insertBirthday` ran for each accepted entry in order. */
  function ImportAll(table: seq<BirthdayRow>, picks: seq<Option<(string, string)>>): seq<BirthdayRow>
  {
    if picks == [] then table
    else
      var before := ImportAll(table, picks[..|picks| - 1]);
      match picks[|picks| - 1]
      case None => before
      case Some(p) => Upsert(before, NewBirthday(p.0, Some(p.1)))
  }

  /** The date of the last accepted entry for user `k`, if any. */
  function LastDate(picks: seq<Option<(string, string)>>, k: string): Option<string>
  {
    if picks == [] then None
    else
      var p := picks[|picks| - 1];
      if p.Some? && p.value.0 == k then Some(p.value.1) else LastDate(picks[..|picks| - 1], k)
  }

  /** No pick after position `i` is for member `k`. */
  predicate NoLaterPick(picks: seq<Option<(string, string)>>, k: string, i: int) {
    forall j :: 0 <= j < |picks| && i < j ==> !(picks[j].Some? && picks[j].value.0 == k)
  }

  /** Some pick sets member `k` to `d` and no later pick is for `k`. */
  predicate FinalPick(picks: seq<Option<(string, string)>>, k: string, d: string) {
    exists i :: 0 <= i < |picks| && picks[i] == Some((k, d)) && NoLaterPick(picks, k, i)
  }

  /** LastDate finds the entry for `k` that no later entry for `k` follows. */
  lemma {:induction false} LastDateMeans(picks: seq<Option<(string, string)>>, k: string, d: string)
    ensures LastDate(picks, k) == Some(d) <==> FinalPick(picks, k, d)
  {
    if picks != [] {
      var init := picks[..|picks| - 1];
      var n := |picks| - 1;
      LastDateMeans(init, k, d);
      if picks[n].Some? && picks[n].value.0 == k {
        assert NoLaterPick(picks, k, n);
        if FinalPick(picks, k, d) {
          var i :| 0 <= i < |picks| && picks[i] == Some((k, d)) && NoLaterPick(picks, k, i);
          assert i == n;
        }
      } else {
        if FinalPick(init, k, d) {
          var i :| 0 <= i < |init| && init[i] == Some((k, d)) && NoLaterPick(init, k, i);
          assert picks[i] == init[i];
          assert NoLaterPick(picks, k, i);
        }
        if FinalPick(picks, k, d) {
          var i :| 0 <= i < |picks| && picks[i] == Some((k, d)) && NoLaterPick(picks, k, i);
          assert init[i] == picks[i];
          assert NoLaterPick(init, k, i);
        }
      }
    }
  }

  /**
   * After an import the table still has one row per user, and the row of a
   * user is the last accepted entry for that user (with notifications reset),
   * or the row the user had before when no entry names them.
   */
  lemma {:induction false} ImportAllFind(table: seq<BirthdayRow>, picks: seq<Option<(string, string)>>, k: string)
    requires UniqueKeys(table)
    ensures UniqueKeys(ImportAll(table, picks))
    ensures Find(ImportAll(table, picks), k) ==
      match LastDate(picks, k)
      case Some(d) => Some(NewBirthday(k, Some(d)))
      case None => Find(table, k)
  {
    if picks != [] {
      var init := picks[..|picks| - 1];
      ImportAllFind(table, init, k);
      var p := picks[|picks| - 1];
      if p.Some? {
        UpsertSemantics(ImportAll(table, init), NewBirthday(p.value.0, Some(p.value.1)), k);
      }
    }
  }

  /** The entries a CSV file yields, one per record. */
  function CsvPicks(rows: seq<CsvRow>): (picks: seq<Option<(string, string)>>)
    ensures |picks| == |rows|
  {
    seq(|rows|, i requires 0 <= i < |rows| => CsvEntry(rows[i]))
  }

  /** The entries a sheet yields, one per row. */
  function SheetPicks(rows: seq<seq<string>>): (picks: seq<Option<(string, string)>>)
    ensures |picks| == |rows|
  {
    seq(|rows|, i requires 0 <= i < |rows| => SheetEntry(rows[i]))
  }

  /** One more entry extends an import by one `insertBirthday`. */
  lemma ImportAllSnoc(table: seq<BirthdayRow>, picks: seq<Option<(string, string)>>, i: nat)
    requires i < |picks|
    ensures ImportAll(table, picks[..i + 1]) ==
      match picks[i]
      case None => ImportAll(table, picks[..i])
      case Some(p) => Upsert(ImportAll(table, picks[..i]), NewBirthday(p.0, Some(p.1)))
  {
    assert picks[..i + 1][..i] == picks[..i];
  }

  /** `importFromCsv`: each record the parser emits, in file order. */
  method ImportFromCsv(store: BirthdayStore, rows: seq<CsvRow>)
    requires store.Valid()
    modifies store
    ensures store.Valid()
    ensures store.birthdays == ImportAll(old(store.birthdays), CsvPicks(rows))
    ensures store.messages == old(store.messages) && store.descriptions == old(store.descriptions)
  {
    ghost var picks := CsvPicks(rows);
    var i := 0;
    while i < |rows|
      invariant 0 <= i <= |rows| && store.Valid()
      invariant store.birthdays == ImportAll(old(store.birthdays), picks[..i])
      invariant store.messages == old(store.messages) && store.descriptions == old(store.descriptions)
    {
      ImportAllSnoc(old(store.birthdays), picks, i);
      var id := Either(rows[i].userIdColumn, rows[i].idColumn);
      var date := Either(rows[i].birthDateColumn, rows[i].birthdayColumn);
      if Truthy(id) && Truthy(date) {
        store.InsertBirthday(Trim(id.value), Some(Trim(date.value)));
      }
      i := i + 1;
    }
    assert picks[..i] == picks;
  }

  /** What reading the sheet gives: no credentials configured, a failed request, or the response's `values`. */
  datatype SheetFetch = NoCredentials | FetchFailed | Fetched(values: Option<seq<seq<string>>>)

  /** `res.data.values || []`. */
  function SheetRows(f: SheetFetch): seq<seq<string>>
    requires f.Fetched?
  {
    if f.values.Some? then f.values.value else []
  }

  /** The loop of `importFromSheet` over the rows of the response, in order. */
  method ImportSheetRows(store: BirthdayStore, rows: seq<seq<string>>)
    requires store.Valid()
    modifies store
    ensures store.Valid()
    ensures store.birthdays == ImportAll(old(store.birthdays), SheetPicks(rows))
    ensures store.messages == old(store.messages) && store.descriptions == old(store.descriptions)
  {
    ghost var picks := SheetPicks(rows);
    var i := 0;
    while i < |rows|
      invariant 0 <= i <= |rows| && store.Valid()
      invariant store.birthdays == ImportAll(old(store.birthdays), picks[..i])
      invariant store.messages == old(store.messages) && store.descriptions == old(store.descriptions)
    {
      ImportAllSnoc(old(store.birthdays), picks, i);
      var id, date, status := Cell(rows[i], 0), Cell(rows[i], 1), Cell(rows[i], 2);
      if Truthy(id) && Truthy(date) && Active(status) {
        store.InsertBirthday(Trim(id.value), Some(Trim(date.value)));
      }
      i := i + 1;
    }
    assert picks[..i] == picks;
  }

  /** `importFromSheet`: nothing without credentials or when the request fails, else each row in order. */
  method ImportFromSheet(store: BirthdayStore, fetch: SheetFetch) returns (failed: bool)
    requires store.Valid()
    modifies store
    ensures store.Valid()
    ensures failed <==> fetch.FetchFailed?
    ensures store.birthdays == if fetch.Fetched? then ImportAll(old(store.birthdays), SheetPicks(SheetRows(fetch)))
                               else old(store.birthdays)
    ensures store.messages == old(store.messages) && store.descriptions == old(store.descriptions)
  {
    failed := fetch.FetchFailed?;
    if fetch.Fetched? {
      ImportSheetRows(store, SheetRows(fetch));
    }
  }

  /** The table after a sync: the CSV records (when a file is configured), then the sheet rows. */
  function Synced(table: seq<BirthdayRow>, csv: Option<seq<CsvRow>>, sheet: Option<SheetFetch>): seq<BirthdayRow>
  {
    var afterCsv := if csv.Some? then ImportAll(table, CsvPicks(csv.value)) else table;
    if sheet.Some? && sheet.value.Fetched? then ImportAll(afterCsv, SheetPicks(SheetRows(sheet.value)))
    else afterCsv
  }

  /**
   * `syncBirthdays`: each source runs only when configured, and a failing
   * source is logged and does not stop the other.
   */
  method Sync(store: BirthdayStore, csv: Option<seq<CsvRow>>, sheet: Option<SheetFetch>)
    requires store.Valid()
    modifies store
    ensures store.Valid()
    ensures store.birthdays == Synced(old(store.birthdays), csv, sheet)
    ensures store.messages == old(store.messages) && store.descriptions == old(store.descriptions)
  {
    if csv.Some? {
      ImportFromCsv(store, csv.value);
    }
    if sheet.Some? {
      var _ := ImportFromSheet(store, sheet.value);
    }
  }

  /**
   * A sheet row overrides the CSV record for the same user: the stored date
   * is the sheet's last accepted one, then the file's, then the old one.
   */
  lemma SheetOverridesCsv(table: seq<BirthdayRow>, csv: seq<CsvRow>, values: seq<seq<string>>, k: string)
    requires UniqueKeys(table)
    ensures UniqueKeys(Synced(table, Some(csv), Some(Fetched(Some(values)))))
    ensures Find(Synced(table, Some(csv), Some(Fetched(Some(values)))), k) ==
      if LastDate(SheetPicks(values), k).Some? then Some(NewBirthday(k, LastDate(SheetPicks(values), k)))
      else if LastDate(CsvPicks(csv), k).Some? then Some(NewBirthday(k, LastDate(CsvPicks(csv), k)))
      else Find(table, k)
  {
    ImportAllFind(table, CsvPicks(csv), k);
    ImportAllFind(ImportAll(table, CsvPicks(csv)), SheetPicks(values), k);
  }
}
