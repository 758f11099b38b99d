/**
 * The holiday-list generator: reads the events of each configured Google
 * calendar for the current year, keeps the start date of every event whose
 * title carries the `[Office Holiday]` tag, and writes the distinct dates,
 * sorted, as a JSON array. The calendar responses are inputs here; the
 * written array is the result.
 */
module GenerateHolidays {
  import opened Wrappers
  import opened Text
  import DayCount

  // ----- calendar ids -----

  /** The non-empty strings of `xs`, in order: `.filter(Boolean)`. */
  function NonEmpty(xs: seq<string>): (r: seq<string>)
    ensures |r| <= |xs|
    ensures forall k :: 0 <= k < |r| ==> r[k] != []
  {
    if xs == [] then []
    else if xs[0] == [] then NonEmpty(xs[1..])
    else [xs[0]] + NonEmpty(xs[1..])
  }

  /** Each piece trimmed: `.map(id => id.trim())`. */
  function TrimAll(parts: seq<string>): (r: seq<string>)
    ensures |r| == |parts| && forall k :: 0 <= k < |parts| ==> r[k] == Trim(parts[k])
  {
    seq(|parts|, k requires 0 <= k < |parts| => Trim(parts[k]))
  }

  /** `HOLIDAY_CALENDAR_IDS` split on commas, trimmed, empties dropped; no ids when the variable is unset or empty. */
  function CalendarIds(setting: Option<string>): seq<string>
  {
    if setting.Some? && setting.value != [] then NonEmpty(TrimAll(Split(setting.value, ','))) else []
  }

  /** Filtering keeps exactly the non-empty strings. */
  lemma {:induction false} NonEmptyMembers(xs: seq<string>, x: string)
    ensures x in NonEmpty(xs) <==> x != [] && x in xs
  {
    if xs != [] {
      NonEmptyMembers(xs[1..], x);
      assert xs == [xs[0]] + xs[1..];
    }
  }

  /** Some piece trims to `id`. */
  predicate TrimsTo(parts: seq<string>, id: string) {
    exists k :: 0 <= k < |parts| && Trim(parts[k]) == id
  }

  /** An id is kept exactly when some piece trims to it and it is not empty. */
  lemma {:induction false} TrimmedMembers(parts: seq<string>, id: string)
    ensures id in NonEmpty(TrimAll(parts)) <==> id != [] && TrimsTo(parts, id)
  {
    var trimmed := TrimAll(parts);
    NonEmptyMembers(trimmed, id);
    if exists k :: 0 <= k < |parts| && Trim(parts[k]) == id {
      var k :| 0 <= k < |parts| && Trim(parts[k]) == id;
      assert trimmed[k] == id;
    }
  }

  /** An id is listed exactly when some comma-separated piece of the setting trims to it and it is not empty. */
  lemma {:induction false} CalendarIdsMembers(setting: string, id: string)
    ensures id in CalendarIds(Some(setting)) <==> id != [] && TrimsTo(Split(setting, ','), id)
  {
    var parts := Split(setting, ',');
    if setting == [] {
      assert parts == [[]];
      assert Trim([]) == [];
      assert !(id != [] && TrimsTo(parts, id));
    } else {
      TrimmedMembers(parts, id);
    }
  }

  /** Ids that are already trimmed, non-empty and comma-free come back unchanged from their comma-joined list. */
  lemma {:induction false} CalendarIdsOfJoin(ids: seq<string>)
    requires ids != []
    requires forall k :: 0 <= k < |ids| ==> ids[k] != [] && ',' !in ids[k]
    requires forall k :: 0 <= k < |ids| ==> !IsSpace(ids[k][0]) && !IsSpace(ids[k][|ids[k]| - 1])
    ensures CalendarIds(Some(Join(ids, ','))) == ids
  {
    SplitJoin(ids, ',');
    assert Join(ids, ',') != [] by {
      JoinStartsWithFirst(ids, ',');
    }
    TrimAllTrimmed(ids);
    NonEmptyOfNonEmpty(ids);
  }

  lemma JoinStartsWithFirst(parts: seq<string>, sep: char)
    requires parts != []
    ensures parts[0] <= Join(parts, sep)
  {
  }

  lemma TrimAllTrimmed(ids: seq<string>)
    requires forall k :: 0 <= k < |ids| ==> ids[k] != []
    requires forall k :: 0 <= k < |ids| ==> !IsSpace(ids[k][0]) && !IsSpace(ids[k][|ids[k]| - 1])
    ensures TrimAll(ids) == ids
  {
    forall k | 0 <= k < |ids| ensures Trim(ids[k]) == ids[k] {
      TrimUnpadded(ids[k]);
    }
  }

  lemma {:induction false} NonEmptyOfNonEmpty(xs: seq<string>)
    requires forall k :: 0 <= k < |xs| ==> xs[k] != []
    ensures NonEmpty(xs) == xs
  {
    if xs != [] {
      NonEmptyOfNonEmpty(xs[1..]);
      assert xs == [xs[0]] + xs[1..];
    }
  }

  // ----- events -----

  /** An event as the calendar API returns it: the title and the two forms of its start. */
  datatype Event = Event(summary: Option<string>, startDate: Option<string>, startDateTime: Option<string>)

  /** What `events.list` gave for one calendar: an error, or a response whose `items` may be absent. */
  datatype Fetch = Failed | Fetched(items: Option<seq<Event>>)

  const HolidayTag: string := "[Office Holiday]"

  /** The response for a calendar id; an id the service does not know fails. */
  function Response(calendars: map<string, Fetch>, id: string): Fetch {
    if id in calendars then calendars[id] else Failed
  }

  /** `res.data.items || []`; a failed request contributes no event. */
  function Items(f: Fetch): seq<Event> {
    if f.Fetched? && f.items.Some? then f.items.value else []
  }

  /** The date an event contributes: for a tagged event with a start, the start up to its first `T`. */
  function EventDate(e: Event): (d: Option<string>)
    ensures d.Some? ==> 'T' !in d.value
  {
    var summary := if e.summary.Some? then e.summary.value else "";
    var start := if e.startDate.Some? && e.startDate.value != [] then e.startDate else e.startDateTime;
    if Contains(summary, HolidayTag) && start.Some? && start.value != [] then Some(BeforeFirst(start.value, 'T'))
    else None
  }

  /** An all-day event contributes its date; a timed one the date part of its start. */
  lemma EventDateForms(summary: string, date: string, time: string)
    requires Contains(summary, HolidayTag) && date != [] && 'T' !in date
    ensures EventDate(Event(Some(summary), Some(date), None)) == Some(date)
    ensures EventDate(Event(Some(summary), None, Some(date + "T" + time))) == Some(date)
    ensures EventDate(Event(None, Some(date), None)) == None
  {
    BeforeFirstWithout(date, 'T', []);
    assert date + [] == date;
    BeforeFirstWithout(date, 'T', "T" + time);
    assert date + "T" + time == date + ("T" + time);
    assert !Contains("", HolidayTag);
  }

  /** BeforeFirst stops at the first `c`. */
  lemma {:induction false} BeforeFirstWithout(s: string, c: char, rest: string)
    requires c !in s && (rest == [] || rest[0] == c)
    ensures BeforeFirst(s + rest, c) == s
  {
    if s != [] {
      assert (s + rest)[1..] == s[1..] + rest;
      BeforeFirstWithout(s[1..], c, rest);
    }
  }

  /** What each event contributes, in order. */
  function StartDates(items: seq<Event>): (ds: seq<Option<string>>)
    ensures |ds| == |items|
  {
    seq(|items|, j requires 0 <= j < |items| => EventDate(items[j]))
  }

  /** The dates present, in order, repeats included. */
  function Picked(ds: seq<Option<string>>): seq<string>
  {
    if ds == [] then []
    else
      var d := ds[|ds| - 1];
      Picked(ds[..|ds| - 1]) + (if d.Some? then [d.value] else [])
  }

  /** The dates the events of one calendar contribute, in order, repeats included. */
  function EventDates(items: seq<Event>): seq<string>
  {
    Picked(StartDates(items))
  }

  /** A date is picked exactly when it is present. */
  lemma {:induction false} PickedMembers(ds: seq<Option<string>>, d: string)
    ensures d in Picked(ds) <==> Some(d) in ds
  {
    if ds != [] {
      PickedMembers(ds[..|ds| - 1], d);
      assert ds == ds[..|ds| - 1] + [ds[|ds| - 1]];
    }
  }

  /** The dates one calendar contributes: none when its request failed. */
  function CalendarDates(calendars: map<string, Fetch>, id: string): seq<string> {
    EventDates(Items(Response(calendars, id)))
  }

  /** Some calendar of `ids` contributes `d`; a failing calendar only drops its own events. */
  predicate InSomeCalendar(ids: seq<string>, calendars: map<string, Fetch>, d: string) {
    exists k :: 0 <= k < |ids| && d in CalendarDates(calendars, ids[k])
  }

  /** One more calendar adds exactly its own dates. */
  lemma InSomeCalendarSnoc(ids: seq<string>, calendars: map<string, Fetch>, k: nat, d: string)
    requires k < |ids|
    ensures InSomeCalendar(ids[..k + 1], calendars, d)
            <==> InSomeCalendar(ids[..k], calendars, d) || d in CalendarDates(calendars, ids[k])
  {
    var init, ext := ids[..k], ids[..k + 1];
    if InSomeCalendar(init, calendars, d) {
      var j :| 0 <= j < |init| && d in CalendarDates(calendars, init[j]);
      assert ext[j] == init[j];
    }
    if d in CalendarDates(calendars, ids[k]) {
      assert ext[k] == ids[k];
    }
    if InSomeCalendar(ext, calendars, d) {
      var j :| 0 <= j < |ext| && d in CalendarDates(calendars, ext[j]);
      if j < k {
        assert init[j] == ext[j];
      }
    }
  }

  /** Some event of `items` contributes date `d`. */
  predicate ContributedBy(items: seq<Event>, d: string) {
    exists j :: 0 <= j < |items| && EventDate(items[j]) == Some(d)
  }

  /** A date comes from an event exactly when that event's EventDate is it. */
  lemma EventDatesMembers(items: seq<Event>, d: string)
    ensures d in EventDates(items) <==> ContributedBy(items, d)
  {
    var ds := StartDates(items);
    PickedMembers(ds, d);
    if Some(d) in ds {
      var j :| 0 <= j < |ds| && ds[j] == Some(d);
      assert EventDate(items[j]) == Some(d);
    }
    if ContributedBy(items, d) {
      var j :| 0 <= j < |items| && EventDate(items[j]) == Some(d);
      assert ds[j] == Some(d);
    }
  }

  // ----- string order -----

  /** `a <= b` in the order `Array.prototype.sort` uses by default: character by character, a prefix first. */
  function Leq(a: string, b: string): bool
  {
    if a == [] then true
    else if b == [] then false
    else if a[0] != b[0] then a[0] < b[0]
    else Leq(a[1..], b[1..])
  }

  predicate Less(a: string, b: string) {
    Leq(a, b) && a != b
  }

  lemma {:induction false} LeqTotal(a: string, b: string)
    ensures Leq(a, b) || Leq(b, a)
  {
    if a != [] && b != [] && a[0] == b[0] {
      LeqTotal(a[1..], b[1..]);
    }
  }

  lemma {:induction false} LeqAntisymmetric(a: string, b: string)
    requires Leq(a, b) && Leq(b, a)
    ensures a == b
  {
    if a != [] && b != [] {
      LeqAntisymmetric(a[1..], b[1..]);
      assert a == [a[0]] + a[1..] && b == [b[0]] + b[1..];
    }
  }

  lemma {:induction false} LeqTransitive(a: string, b: string, c: string)
    requires Leq(a, b) && Leq(b, c)
    ensures Leq(a, c)
  {
    if a != [] && b != [] && c != [] && a[0] == b[0] && b[0] == c[0] {
      LeqTransitive(a[1..], b[1..], c[1..]);
    }
  }

  lemma LessTransitive(a: string, b: string, c: string)
    requires Less(a, b) && Less(b, c)
    ensures Less(a, c)
  {
    LeqTransitive(a, b, c);
    if a == c {
      LeqAntisymmetric(a, b);
    }
  }

  /** Comparing two strings of the same length, the first difference decides. */
  lemma {:induction false} LeqConcat(x: string, y: string, s: string, t: string)
    requires |x| == |y|
    ensures Leq(x + s, y + t) == if x == y then Leq(s, t) else Leq(x, y)
  {
    if x != [] {
      assert (x + s)[1..] == x[1..] + s && (y + t)[1..] == y[1..] + t;
      LeqConcat(x[1..], y[1..], s, t);
      assert x == [x[0]] + x[1..] && y == [y[0]] + y[1..];
    } else {
      assert x + s == s && y + t == t;
    }
  }

  /** For digit strings of the same length, character order is numeric order. */
  lemma {:induction false} DigitsLeq(a: string, b: string)
    requires DayCount.AllDigits(a) && DayCount.AllDigits(b) && |a| == |b|
    ensures Leq(a, b) <==> DayCount.Decimal(a) <= DayCount.Decimal(b)
    decreases |a|
  {
    if |a| == 1 {
      DayCount.DecimalOne(a);
      DayCount.DecimalOne(b);
    } else {
      var a', b' := a[..|a| - 1], b[..|b| - 1];
      var c, d := a[|a| - 1], b[|b| - 1];
      DayCount.DecimalSnoc(a);
      DayCount.DecimalSnoc(b);
      DigitsLeq(a', b');
      DigitsLeq(b', a');
      LeqConcat(a', b', [c], [d]);
      assert a == a' + [c] && b == b' + [d];
      if a' != b' {
        LeqTotal(a', b');
        if Leq(a', b') && Leq(b', a') {
          LeqAntisymmetric(a', b');
        }
      }
    }
  }

  /** Distinct digit strings of the same length have distinct values. */
  lemma DigitsInjective(a: string, b: string)
    requires DayCount.AllDigits(a) && DayCount.AllDigits(b) && |a| == |b| && a != b
    ensures DayCount.Decimal(a) != DayCount.Decimal(b)
  {
    DigitsLeq(a, b);
    DigitsLeq(b, a);
    if Leq(a, b) && Leq(b, a) {
      LeqAntisymmetric(a, b);
    }
  }

  /** A `YYYY-MM-DD` string, as the calendar API writes all-day dates. */
  predicate IsIsoDate(s: string) {
    |s| == 10 && s[4] == '-' && s[7] == '-'
    && DayCount.AllDigits(s[..4]) && DayCount.AllDigits(s[5..7]) && DayCount.AllDigits(s[8..])
  }

  /** One digit field compared first, then the rest. */
  lemma FieldThenRest(a: string, b: string, n: nat)
    requires n <= |a| && n <= |b|
    requires DayCount.AllDigits(a[..n]) && DayCount.AllDigits(b[..n])
    ensures Leq(a, b) <==>
      DayCount.Decimal(a[..n]) < DayCount.Decimal(b[..n])
      || (DayCount.Decimal(a[..n]) == DayCount.Decimal(b[..n]) && Leq(a[n..], b[n..]))
    ensures DayCount.Decimal(a[..n]) == DayCount.Decimal(b[..n]) ==> a[..n] == b[..n]
  {
    assert a == a[..n] + a[n..] && b == b[..n] + b[n..];
    LeqConcat(a[..n], b[..n], a[n..], b[n..]);
    DigitsLeq(a[..n], b[..n]);
    if a[..n] != b[..n] {
      DigitsInjective(a[..n], b[..n]);
    }
  }

  /** The separator that both strings carry is skipped. */
  lemma SkipSeparator(a: string, b: string)
    requires a != [] && b != [] && a[0] == b[0]
    ensures Leq(a, b) == Leq(a[1..], b[1..])
  {
  }

  /**
   * On `YYYY-MM-DD` dates the string order is the calendar order: year first,
   * then month, then day.
   */
  lemma IsoOrderIsChronological(a: string, b: string)
    requires IsIsoDate(a) && IsIsoDate(b)
    ensures Leq(a, b) <==>
      var ya, yb := DayCount.Decimal(a[..4]), DayCount.Decimal(b[..4]);
      var ma, mb := DayCount.Decimal(a[5..7]), DayCount.Decimal(b[5..7]);
      var da, db := DayCount.Decimal(a[8..]), DayCount.Decimal(b[8..]);
      ya < yb || (ya == yb && (ma < mb || (ma == mb && da <= db)))
  {
    FieldThenRest(a, b, 4);
    SkipSeparator(a[4..], b[4..]);
    var a5, b5 := a[5..], b[5..];
    assert a5[..2] == a[5..7] && b5[..2] == b[5..7];
    FieldThenRest(a5, b5, 2);
    SkipSeparator(a5[2..], b5[2..]);
    var a8, b8 := a[8..], b[8..];
    assert a5[2..][1..] == a8 && b5[2..][1..] == b8;
    assert a[4..][1..] == a5 && b[4..][1..] == b5;
    DigitsLeq(a8, b8);
  }

  /** Strictly increasing: sorted and without repeats. */
  predicate StrictlySorted(xs: seq<string>) {
    forall i, j :: 0 <= i < j < |xs| ==> Less(xs[i], xs[j])
  }

  /** Insert `x` into a strictly sorted list that lacks it. */
  function Insert(sorted: seq<string>, x: string): (r: seq<string>)
    ensures multiset(r) == multiset(sorted) + multiset{x}
  {
    if sorted == [] then [x]
    else if Leq(x, sorted[0]) then [x] + sorted
    else
      assert sorted == [sorted[0]] + sorted[1..];
      [sorted[0]] + Insert(sorted[1..], x)
  }

  lemma {:induction false} InsertSorted(sorted: seq<string>, x: string)
    requires StrictlySorted(sorted) && x !in sorted
    ensures StrictlySorted(Insert(sorted, x))
  {
    if sorted != [] {
      var r := Insert(sorted, x);
      if Leq(x, sorted[0]) {
        assert x != sorted[0];
        forall i, j | 0 <= i < j < |r| ensures Less(r[i], r[j]) {
          if i == 0 && j > 1 {
            LessTransitive(x, sorted[0], sorted[j - 1]);
          }
        }
      } else {
        LeqTotal(x, sorted[0]);
        InsertSorted(sorted[1..], x);
        var tail := Insert(sorted[1..], x);
        forall j | 0 <= j < |tail| ensures Less(sorted[0], tail[j]) {
          assert tail[j] in multiset(tail);
          assert tail[j] in sorted[1..] || tail[j] == x;
        }
      }
    }
  }

  /** `Array.from(dates).sort()`: the elements of the set, in ascending order. */
  function Sort(xs: seq<string>): (r: seq<string>)
    ensures multiset(r) == multiset(xs)
  {
    if xs == [] then []
    else
      assert xs == xs[..|xs| - 1] + [xs[|xs| - 1]];
      Insert(Sort(xs[..|xs| - 1]), xs[|xs| - 1])
  }

  predicate Distinct(xs: seq<string>) {
    forall i, j :: 0 <= i < j < |xs| ==> xs[i] != xs[j]
  }

  /** Sorting keeps exactly the elements. */
  lemma SortMembers(xs: seq<string>, x: string)
    ensures x in Sort(xs) <==> x in xs
  {
    var m := Sort(xs);
    assert multiset(m) == multiset(xs);
    assert x in m <==> x in multiset(m);
    assert x in xs <==> x in multiset(xs);
  }

  /** Sorting distinct strings gives them in strictly increasing order. */
  lemma {:induction false} SortSorts(xs: seq<string>)
    requires Distinct(xs)
    ensures StrictlySorted(Sort(xs))
  {
    if xs != [] {
      var init := xs[..|xs| - 1];
      var x := xs[|xs| - 1];
      SortSorts(init);
      forall i | 0 <= i < |init| ensures init[i] != x {
        assert init[i] == xs[i];
      }
      SortMembers(init, x);
      InsertSorted(Sort(init), x);
    }
  }

  /**
   * There is only one strictly sorted list of a given set of strings: the
   * output does not depend on the order of the calendars or of their events.
   */
  lemma {:induction false} StrictlySortedUnique(a: seq<string>, b: seq<string>)
    requires StrictlySorted(a) && StrictlySorted(b)
    requires forall x :: x in a <==> x in b
    ensures a == b
  {
    SameElementsEmptyTogether(a, b);
    if a != [] && b != [] {
      assert a[0] == b[0] by {
        assert a[0] in b && b[0] in a;
        if a[0] != b[0] {
          var i :| 0 <= i < |b| && b[i] == a[0];
          var j :| 0 <= j < |a| && a[j] == b[0];
          assert Less(b[0], a[0]) && Less(a[0], b[0]);
          LeqAntisymmetric(a[0], b[0]);
        }
      }
      forall x ensures x in a[1..] <==> x in b[1..] {
        if x in a[1..] {
          var i :| 0 <= i < |a| - 1 && a[1..][i] == x;
          assert Less(a[0], a[i + 1]);
          assert a[i + 1] in a;
          var j :| 0 <= j < |b| && b[j] == x;
          assert j != 0;
          assert b[1..][j - 1] == x;
        }
        if x in b[1..] {
          var i :| 0 <= i < |b| - 1 && b[1..][i] == x;
          assert Less(b[0], b[i + 1]);
          assert b[i + 1] in b;
          var j :| 0 <= j < |a| && a[j] == x;
          assert j != 0;
          assert a[1..][j - 1] == x;
        }
      }
      StrictlySortedUnique(a[1..], b[1..]);
      assert a == [a[0]] + a[1..] && b == [b[0]] + b[1..];
    }
  }

  /** Lists with the same elements are empty together. */
  lemma SameElementsEmptyTogether(a: seq<string>, b: seq<string>)
    requires forall x :: x in a <==> x in b
    ensures a == [] <==> b == []
  {
    if a != [] {
      assert a[0] in a;
    }
    if b != [] {
      assert b[0] in b;
    }
  }

  // ----- the run -----

  /** `dates.add(d)` on a Set kept as its elements in insertion order. */
  function Add(dates: seq<string>, d: string): (r: seq<string>)
    ensures forall x :: x in r <==> x in dates || x == d
  {
    if d in dates then dates else dates + [d]
  }

  lemma AddDistinct(dates: seq<string>, d: string)
    requires Distinct(dates)
    ensures Distinct(Add(dates, d))
  {
  }

  /** The inner loop: the date of each event of one calendar added in turn. */
  method AddEventDates(dates: seq<string>, items: seq<Event>) returns (r: seq<string>)
    requires Distinct(dates)
    ensures Distinct(r)
    ensures forall x :: x in r <==> x in dates || x in EventDates(items)
  {
    ghost var ds := StartDates(items);
    r := dates;
    var j := 0;
    while j < |items|
      invariant 0 <= j <= |items| && Distinct(r)
      invariant forall x :: x in r <==> x in dates || x in Picked(ds[..j])
    {
      assert ds[..j + 1][..j] == ds[..j];
      var d := EventDate(items[j]);
      assert d == ds[j];
      if d.Some? {
        AddDistinct(r, d.value);
        r := Add(r, d.value);
      }
      j := j + 1;
    }
    assert ds[..j] == ds;
  }

  /** The outcome of a run: `process.exit(1)` before any request, or the array written to `public-holidays.json`. */
  datatype Outcome = Exited | Written(holidays: seq<string>)

  /** The loop over the calendars: each one's dates are added, skipping dates already present. */
  method CollectAll(ids: seq<string>, calendars: map<string, Fetch>) returns (dates: seq<string>)
    ensures Distinct(dates)
    ensures forall x :: x in dates <==> InSomeCalendar(ids, calendars, x)
  {
    dates := [];
    var k := 0;
    while k < |ids|
      invariant 0 <= k <= |ids| && Distinct(dates)
      invariant forall x :: x in dates <==> InSomeCalendar(ids[..k], calendars, x)
    {
      dates := AddEventDates(dates, Items(Response(calendars, ids[k])));
      forall x ensures x in dates <==> InSomeCalendar(ids[..k + 1], calendars, x) {
        InSomeCalendarSnoc(ids, calendars, k, x);
      }
      k := k + 1;
    }
    assert ids[..k] == ids;
  }

  /**
   * `generateHolidays`: every calendar in turn, every event of it in turn,
   * then the distinct dates sorted. Missing credentials or an empty id list
   * end the run before any request.
   */
  method Generate(hasCredentials: bool, setting: Option<string>, calendars: map<string, Fetch>)
    returns (outcome: Outcome)
    ensures outcome.Exited? <==> !hasCredentials || CalendarIds(setting) == []
    ensures outcome.Written? ==>
      StrictlySorted(outcome.holidays)
      && forall d :: d in outcome.holidays <==> InSomeCalendar(CalendarIds(setting), calendars, d)
  {
    if !hasCredentials {
      return Exited;
    }
    var ids := CalendarIds(setting);
    if |ids| == 0 {
      return Exited;
    }
    var dates := CollectAll(ids, calendars);
    SortSorts(dates);
    var sorted := Sort(dates);
    forall x ensures x in sorted <==> x in dates {
      SortMembers(dates, x);
    }
    outcome := Written(sorted);
  }
}
