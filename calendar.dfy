/**
 * Date rules of the calendar tab in app.py: the month the calendar shows
 * (`calendar_view`, moved by the previous/next buttons) and the list of
 * upcoming events (due today or later, earliest first, at most seven).
 */
module Calendar {

  datatype Date = Date(year: int, month: int, day: int)

  /** A due time: its date and the seconds since midnight. */
  datatype DateTime = DateTime(date: Date, second: int)

  datatype Event = Event(text: string, due: DateTime, color: string)

  // ---------------------------------------------------------------------------
  // Gregorian dates
  // ---------------------------------------------------------------------------

  predicate IsLeapYear(y: int) {
    y % 4 == 0 && (y % 100 != 0 || y % 400 == 0)
  }

  function DaysInMonth(y: int, m: int): (n: int)
    requires 1 <= m <= 12
    ensures 28 <= n <= 31
  {
    if m == 2 then (if IsLeapYear(y) then 29 else 28)
    else if m == 4 || m == 6 || m == 9 || m == 11 then 30
    else 31
  }

  predicate ValidDate(d: Date) {
    1 <= d.month <= 12 && 1 <= d.day <= DaysInMonth(d.year, d.month)
  }

  /** Months counted from January of year 0: consecutive months differ by one. */
  function MonthIndex(d: Date): int {
    d.year * 12 + d.month - 1
  }

  /** Two valid dates with the same month index lie in the same month of the same year. */
  lemma MonthIndexInjective(a: Date, b: Date)
    requires ValidDate(a) && ValidDate(b) && MonthIndex(a) == MonthIndex(b)
    ensures a.year == b.year && a.month == b.month
  {
  }

  /** `d + timedelta(days=1)`. */
  function NextDay(d: Date): (r: Date)
    requires ValidDate(d)
    ensures ValidDate(r)
  {
    if d.day < DaysInMonth(d.year, d.month) then d.(day := d.day + 1)
    else if d.month < 12 then Date(d.year, d.month + 1, 1)
    else Date(d.year + 1, 1, 1)
  }

  /** `d - timedelta(days=1)`. */
  function PrevDay(d: Date): (r: Date)
    requires ValidDate(d)
    ensures ValidDate(r)
  {
    if d.day > 1 then d.(day := d.day - 1)
    else if d.month > 1 then Date(d.year, d.month - 1, DaysInMonth(d.year, d.month - 1))
    else Date(d.year - 1, 12, 31)
  }

  /** One day forward and one day back are inverse steps. */
  lemma DayStepsInverse(d: Date)
    requires ValidDate(d)
    ensures PrevDay(NextDay(d)) == d
    ensures NextDay(PrevDay(d)) == d
  {
  }

  /** `d + timedelta(days=n)`. */
  function AddDays(d: Date, n: nat): (r: Date)
    requires ValidDate(d)
    ensures ValidDate(r)
    decreases n
  {
    if n == 0 then d else AddDays(NextDay(d), n - 1)
  }

  /** `d.replace(day=day)`. */
  function WithDay(d: Date, day: int): (r: Date)
    requires ValidDate(d) && 1 <= day <= 28
    ensures ValidDate(r) && r.year == d.year && r.month == d.month && r.day == day
  {
    d.(day := day)
  }

  // ---------------------------------------------------------------------------
  // Month navigation
  // ---------------------------------------------------------------------------

  /** "Next Month": day 28 plus four days is always in the next month; then day 1. */
  function NextMonth(view: Date): (r: Date)
    requires ValidDate(view)
    ensures ValidDate(r) && r.day == 1
    ensures MonthIndex(r) == MonthIndex(view) + 1
  {
    var d28 := WithDay(view, 28);
    var d1 := NextDay(d28);
    var d2 := NextDay(d1);
    var d3 := NextDay(d2);
    assert AddDays(d28, 4) == NextDay(d3) by {
      assert AddDays(d28, 4) == AddDays(d1, 3) == AddDays(d2, 2) == AddDays(d3, 1);
    }
    WithDay(AddDays(d28, 4), 1)
  }

  /**
   * "Previous Month" as written: one day back, then day 1. The view starts at
   * today's date, so from any day but the first this stays in the same month.
   */
  function PrevMonthAsWritten(view: Date): (r: Date)
    requires ValidDate(view)
    ensures ValidDate(r) && r.day == 1
  {
    WithDay(PrevDay(view), 1)
  }

  /** As written, the button moves back a month only from the first of a month. */
  lemma PrevMonthAsWrittenFromFirst(view: Date)
    requires ValidDate(view) && view.day == 1
    ensures MonthIndex(PrevMonthAsWritten(view)) == MonthIndex(view) - 1
  {
  }

  /** As written, from any later day the button only goes to the first of the same month. */
  lemma PrevMonthAsWrittenMidMonth(view: Date)
    requires ValidDate(view) && view.day > 1
    ensures PrevMonthAsWritten(view) == WithDay(view, 1)
    ensures MonthIndex(PrevMonthAsWritten(view)) == MonthIndex(view)
  {
  }

  /** The first press from 16 October 2026 shows October again. */
  lemma PrevMonthAsWrittenCounterexample()
    ensures PrevMonthAsWritten(Date(2026, 10, 16)) == Date(2026, 10, 1)
  {
  }

  /** "Previous Month" as intended: the first of the month before the viewed one. */
  function PrevMonth(view: Date): (r: Date)
    requires ValidDate(view)
    ensures ValidDate(r) && r.day == 1
    ensures MonthIndex(r) == MonthIndex(view) - 1
  {
    WithDay(PrevDay(WithDay(view, 1)), 1)
  }

  /** The corrected previous-month step and the next-month step undo each other. */
  lemma MonthNavigationRoundTrip(view: Date)
    requires ValidDate(view)
    ensures PrevMonth(NextMonth(view)) == WithDay(view, 1)
    ensures NextMonth(PrevMonth(view)) == WithDay(view, 1)
  {
    MonthIndexInjective(PrevMonth(NextMonth(view)), WithDay(view, 1));
    MonthIndexInjective(NextMonth(PrevMonth(view)), WithDay(view, 1));
  }

  /** The month the calendar tab shows (`calendar_view`), moved in place by its buttons. */
  class CalendarView {
    var view: Date

    /** The view starts at today's date. */
    constructor (today: Date)
      requires ValidDate(today)
      ensures view == today
    {
      view := today;
    }

    method PreviousMonth()
      requires ValidDate(view)
      modifies this
      ensures view == PrevMonth(old(view))
    {
      view := PrevMonth(view);
    }

    method FollowingMonth()
      requires ValidDate(view)
      modifies this
      ensures view == NextMonth(old(view))
    {
      view := NextMonth(view);
    }
  }

  // ---------------------------------------------------------------------------
  // Upcoming events
  // ---------------------------------------------------------------------------

  /** Strictly earlier calendar date. */
  predicate DateBefore(a: Date, b: Date) {
    a.year < b.year
    || (a.year == b.year && (a.month < b.month || (a.month == b.month && a.day < b.day)))
  }

  /** The order of due times that `sorted` uses. */
  predicate DueLe(a: DateTime, b: DateTime) {
    DateBefore(a.date, b.date) || (a.date == b.date && a.second <= b.second)
  }

  lemma DueLeTotal(a: DateTime, b: DateTime)
    ensures DueLe(a, b) || DueLe(b, a)
  {
  }

  lemma DueLeTransitive(a: DateTime, b: DateTime, c: DateTime)
    requires DueLe(a, b) && DueLe(b, c)
    ensures DueLe(a, c)
  {
  }

  predicate SortedByDue(s: seq<Event>) {
    forall i, j :: 0 <= i < j < |s| ==> DueLe(s[i].due, s[j].due)
  }

  /** Events whose due date is today or later, in their stored order. */
  function DueFrom(events: seq<Event>, today: Date): (r: seq<Event>)
    ensures forall e :: e in r ==> e in events && !DateBefore(e.due.date, today)
    ensures forall e :: e in events && !DateBefore(e.due.date, today) ==> e in r
    ensures multiset(r) <= multiset(events)
  {
    if events == [] then []
    else
      var rest := DueFrom(events[1..], today);
      assert events == [events[0]] + events[1..];
      if DateBefore(events[0].due.date, today) then rest else [events[0]] + rest
  }

  /** The filter keeps every copy of an event due today or later and no copy of a past one. */
  lemma {:induction false} DueFromCounts(events: seq<Event>, today: Date)
    ensures forall x ::
              multiset(DueFrom(events, today))[x] == if DateBefore(x.due.date, today) then 0 else multiset(events)[x]
  {
    if events != [] {
      assert events == [events[0]] + events[1..];
      DueFromCounts(events[1..], today);
    }
  }

  /** The filter keeps the stored order: it distributes over concatenation. */
  lemma {:induction false} DueFromAppend(a: seq<Event>, b: seq<Event>, today: Date)
    ensures DueFrom(a + b, today) == DueFrom(a, today) + DueFrom(b, today)
  {
    if a == [] {
      assert a + b == b;
    } else {
      assert (a + b)[1..] == a[1..] + b;
      DueFromAppend(a[1..], b, today);
    }
  }

  /** Puts `e` before the first element due no earlier than it. */
  function InsertByDue(e: Event, s: seq<Event>): (r: seq<Event>)
    requires SortedByDue(s)
    ensures SortedByDue(r)
    ensures multiset(r) == multiset(s) + multiset{e}
  {
    if s == [] || DueLe(e.due, s[0].due) then
      assert forall j :: 0 <= j < |s| ==> DueLe(e.due, s[j].due) by {
        forall j | 0 <= j < |s| ensures DueLe(e.due, s[j].due) {
          if j > 0 { DueLeTransitive(e.due, s[0].due, s[j].due); }
        }
      }
      [e] + s
    else
      DueLeTotal(e.due, s[0].due);
      var rest := InsertByDue(e, s[1..]);
      assert s == [s[0]] + s[1..];
      assert forall x :: x in rest ==> DueLe(s[0].due, x.due) by {
        forall x | x in rest ensures DueLe(s[0].due, x.due) {
          assert x in multiset(rest);
          if x != e {
            assert x in multiset(s[1..]);
            var j :| 0 <= j < |s[1..]| && s[1..][j] == x;
            assert s[j + 1] == x;
          }
        }
      }
      [s[0]] + rest
  }

  /** `sorted(events, key=due)`, built by insertion. */
  function SortByDue(s: seq<Event>): (r: seq<Event>)
    ensures SortedByDue(r)
    ensures multiset(r) == multiset(s)
  {
    if s == [] then []
    else
      assert s == [s[0]] + s[1..];
      InsertByDue(s[0], SortByDue(s[1..]))
  }

  const UpcomingLimit := 7

  /** The "Next 7 Days' Events" strip: due today or later, earliest first, the first seven. */
  function Upcoming(events: seq<Event>, today: Date): (r: seq<Event>)
    ensures |r| == if |DueFrom(events, today)| <= UpcomingLimit then |DueFrom(events, today)| else UpcomingLimit
    ensures SortedByDue(r)
    ensures multiset(r) <= multiset(DueFrom(events, today))
  {
    var sorted := SortByDue(DueFrom(events, today));
    assert |multiset(sorted)| == |multiset(DueFrom(events, today))|;
    var r := if |sorted| <= UpcomingLimit then sorted else sorted[..UpcomingLimit];
    assert sorted == r + sorted[|r|..];
    r
  }

  /** The strip is a prefix of the sorted list of events due today or later. */
  lemma UpcomingIsPrefix(events: seq<Event>, today: Date)
    ensures var sorted := SortByDue(DueFrom(events, today));
      var r := Upcoming(events, today);
      && |sorted| == |DueFrom(events, today)|
      && |r| == (if |sorted| <= UpcomingLimit then |sorted| else UpcomingLimit)
      && sorted == r + sorted[|r|..]
      && multiset(sorted) == multiset(r) + multiset(sorted[|r|..])
  {
    var sorted := SortByDue(DueFrom(events, today));
    assert |multiset(sorted)| == |multiset(DueFrom(events, today))|;
    var r := Upcoming(events, today);
    assert sorted == r + sorted[|r|..];
  }

  /** Every event shown is stored and not yet past, and the strip is in due order. */
  lemma UpcomingShowsDueEvents(events: seq<Event>, today: Date)
    ensures var r := Upcoming(events, today);
      && (forall e :: e in r ==> e in events && !DateBefore(e.due.date, today))
      && SortedByDue(r)
      && multiset(r) <= multiset(DueFrom(events, today))
  {
    var due := DueFrom(events, today);
    var sorted := SortByDue(due);
    var r := Upcoming(events, today);
    UpcomingIsPrefix(events, today);
    forall e | e in r ensures e in events && !DateBefore(e.due.date, today) {
      assert e in multiset(r);
      assert e in multiset(due);
    }
  }

  /** None of the events due today or later that the strip leaves off is due before one it shows. */
  lemma UpcomingShowsEarliest(events: seq<Event>, today: Date)
    ensures var r := Upcoming(events, today);
      var due := DueFrom(events, today);
      forall i, x :: 0 <= i < |r| && (multiset(due) - multiset(r))[x] > 0 ==> DueLe(r[i].due, x.due)
  {
    var due := DueFrom(events, today);
    var sorted := SortByDue(due);
    var r := Upcoming(events, today);
    UpcomingIsPrefix(events, today);
    var k := |r|;
    forall i, x | 0 <= i < k && (multiset(due) - multiset(r))[x] > 0
      ensures DueLe(r[i].due, x.due)
    {
      assert x in multiset(sorted[k..]);
      var j :| 0 <= j < |sorted[k..]| && sorted[k..][j] == x;
      assert sorted[k + j] == x;
      assert r[i] == sorted[i];
    }
  }
}
