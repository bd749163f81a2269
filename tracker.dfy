/**
 * The activity timer of app.py: the activity catalog, the single running
 * session (`current_activity` / `start_time`), the append-only log and the
 * per-day summary that joins log records to catalog entries by display name.
 *
 * The wall clock is the parameter `now` (local time, in whole seconds) and a
 * calendar day is `DayOf(now)`. `st.rerun()` is read as a no-op, so every
 * handler runs to its end, as written.
 */
module ActivityTracker {
  import opened Optional
  import Durations

  type Key = string

  const SecondsPerDay := 86400

  /** The local calendar day of a timestamp (what strftime("%Y-%m-%d") tells apart). */
  function DayOf(t: int): int {
    t / SecondsPerDay
  }

  /** A catalog entry; `target` is the source's `duration` field (seconds, or None). */
  datatype Activity = Activity(name: string, target: Option<int>, color: string)

  /** One finished session, recorded under the activity's display name. */
  datatype LogEntry = LogEntry(activity: string, date: int, startTime: int, duration: int, completed: bool)

  /** One activity's line of the day's summary. */
  datatype Bucket = Bucket(total: int, completed: bool)

  /** The whole tracker state: catalog (with its insertion order), session and log. */
  datatype State = State(
    activities: map<Key, Activity>,
    order: seq<Key>,
    current: Option<Key>,
    startTime: Option<int>,
    logs: seq<LogEntry>)

  predicate Distinct(s: seq<Key>) {
    forall i, j :: 0 <= i < j < |s| ==> s[i] != s[j]
  }

  /**
   * The catalog's key order lists each key once, exactly the catalog's keys,
   * and a running session belongs to an activity of the catalog.
   */
  ghost predicate Valid(st: State) {
    && Distinct(st.order)
    && (forall k :: k in st.order <==> k in st.activities)
    && (st.current.Some? ==> st.current.value in st.activities && st.startTime.Some?)
  }

  // ---------------------------------------------------------------------------
  // Defaults (init_session_state and the catalog load_data falls back to)
  // ---------------------------------------------------------------------------

  const DefaultOrder: seq<Key> := ["gym", "study", "shower", "cycle", "course"]

  function DefaultCatalog(): map<Key, Activity> {
    map[
      "gym" := Activity("\U{1F3CB} Gym", None, "#4a90e2"),
      "study" := Activity("\U{1F4DA} Study", None, "#00cec9"),
      "shower" := Activity("\U{1F6BF} Shower", None, "#fd79a8"),
      "cycle" := Activity("\U{1F6B4} Leisure", Some(3 * 3600), "#fdcb6e"),
      "course" := Activity("\U{1F4BB} Course", Some(2 * 3600), "#6c5ce7")
    ]
  }

  function DefaultState(): (st: State)
    ensures Valid(st)
    ensures st.current == None && st.logs == []
    ensures st.activities.Keys == {"gym", "study", "shower", "cycle", "course"}
  {
    State(DefaultCatalog(), DefaultOrder, None, None, [])
  }

  // ---------------------------------------------------------------------------
  // Finishing a session
  // ---------------------------------------------------------------------------

  /**
   * `activity['duration'] and duration >= activity['duration']`: a missing or
   * zero target is falsy, so it never completes.
   */
  predicate Reached(target: Option<int>, duration: int) {
    target.Some? && target.value != 0 && duration >= target.value
  }

  /**
   * The record stop_activity appends for a session of `a` begun at `start`.
   * Completion law: the record is completed iff its activity has a positive
   * target that the duration reached, and never when there is no target.
   */
  function Finalize(a: Activity, start: int, now: int): (r: LogEntry)
    ensures r.activity == a.name && r.date == DayOf(now)
    ensures r.startTime == start && r.duration == now - start
    ensures a.target.Some? && a.target.value > 0 ==> (r.completed <==> now - start >= a.target.value)
    ensures a.target.None? || a.target.value == 0 ==> !r.completed
  {
    LogEntry(a.name, DayOf(now), start, now - start, Reached(a.target, now - start))
  }

  // ---------------------------------------------------------------------------
  // Transitions of the session tracker and the catalog
  // ---------------------------------------------------------------------------

  /** stop_activity: nothing when idle; otherwise one record is appended and the session ends. */
  function StopState(st: State, now: int): (r: State)
    requires Valid(st)
    ensures Valid(r)
    ensures r.current == None
    ensures r.activities == st.activities && r.order == st.order && r.startTime == st.startTime
    ensures |r.logs| == |st.logs| + (if st.current.Some? then 1 else 0)
    ensures r.logs[..|st.logs|] == st.logs
    ensures st.current.None? ==> r == st
    ensures st.current.Some? ==>
      r.logs == st.logs + [Finalize(st.activities[st.current.value], st.startTime.value, now)]
  {
    match st.current
    case None => st
    case Some(key) =>
      var entry := Finalize(st.activities[key], st.startTime.value, now);
      st.(logs := st.logs + [entry], current := None)
  }

  /** start_activity: stop whatever runs, then run `key` from `now`. */
  function StartState(st: State, key: Key, now: int): (r: State)
    requires Valid(st) && key in st.activities
    ensures Valid(r)
    ensures r.current == Some(key) && r.startTime == Some(now)
    ensures r.activities == st.activities && r.order == st.order
    ensures r.logs == StopState(st, now).logs
    ensures st.current.None? ==> r.logs == st.logs
  {
    StopState(st, now).(current := Some(key), startTime := Some(now))
  }

  /** The add-activity form accepts the entry only when both name and emoji are given. */
  predicate Accepted(name: string, emoji: string) {
    name != "" && emoji != ""
  }

  /**
   * The add-activity handler. `key` stands for the generated key; like the
   * dict assignment it replaces an entry that already has that key, which
   * keeps its place in the order.
   */
  function AddState(st: State, key: Key, name: string, emoji: string, color: string,
                    target: int, unit: Durations.TimeUnit): (r: State)
    requires Valid(st)
    ensures Valid(r)
    ensures !Accepted(name, emoji) ==> r == st
    ensures Accepted(name, emoji) ==>
      && r.activities.Keys == st.activities.Keys + {key}
      && r.activities[key] == Activity(emoji + " " + name, Durations.TargetSeconds(target, unit), color)
      && (forall k :: k in st.activities && k != key ==> r.activities[k] == st.activities[k])
      && r.order == (if key in st.activities then st.order else st.order + [key])
    ensures r.current == st.current && r.startTime == st.startTime && r.logs == st.logs
  {
    if Accepted(name, emoji) then
      var entry := Activity(emoji + " " + name, Durations.TargetSeconds(target, unit), color);
      var order := if key in st.order then st.order else st.order + [key];
      st.(activities := st.activities[key := entry], order := order)
    else
      st
  }

  /** Position of a key in the order. */
  function IndexOf(s: seq<Key>, k: Key): (i: nat)
    requires k in s
    ensures i < |s| && s[i] == k
  {
    if s[0] == k then 0 else 1 + IndexOf(s[1..], k)
  }

  /** In a list without repeats, the position of the key at index m is m. */
  lemma IndexOfDistinct(s: seq<Key>, m: int)
    requires Distinct(s) && 0 <= m < |s|
    ensures IndexOf(s, s[m]) == m
  {
  }

  /** The order with one key taken out, the others keeping their places. */
  function RemoveKey(s: seq<Key>, k: Key): (r: seq<Key>)
    requires k in s && Distinct(s)
    ensures Distinct(r) && |r| == |s| - 1
    ensures forall x :: x in r <==> x in s && x != k
    ensures forall i, j :: 0 <= i < j < |r| ==> IndexOf(s, r[i]) < IndexOf(s, r[j])
  {
    var i := IndexOf(s, k);
    assert forall x :: x in s ==> x == s[i] || x in s[..i] || x in s[i + 1..];
    var r := s[..i] + s[i + 1..];
    assert forall m :: 0 <= m < |r| ==> r[m] == s[if m < i then m else m + 1];
    forall m | 0 <= m < |r|
      ensures IndexOf(s, r[m]) == if m < i then m else m + 1
    {
      IndexOfDistinct(s, if m < i then m else m + 1);
    }
    r
  }

  /** The delete handler: stop the session if it is this activity's, then drop the entry. */
  function DeleteState(st: State, key: Key, now: int): (r: State)
    requires Valid(st) && key in st.activities
    ensures Valid(r)
    ensures r.activities == st.activities - {key}
    ensures r.order == RemoveKey(st.order, key)
    ensures r.startTime == st.startTime
    ensures st.current == Some(key) ==> r.current == None && r.logs == StopState(st, now).logs
    ensures st.current != Some(key) ==> r.current == st.current && r.logs == st.logs
  {
    var stopped := if st.current == Some(key) then StopState(st, now) else st;
    stopped.(activities := stopped.activities - {key}, order := RemoveKey(stopped.order, key))
  }

  // ---------------------------------------------------------------------------
  // The summary of a day (get_today_summary)
  // ---------------------------------------------------------------------------

  /** A record counts for activity `name` on `day` (the date test and the name join). */
  predicate Matches(e: LogEntry, day: int, name: string) {
    e.date == day && e.activity == name
  }

  /** Seconds logged under `name` on `day`, summed in log order. */
  function LoggedTotal(logs: seq<LogEntry>, day: int, name: string): int {
    if logs == [] then 0
    else
      var last := logs[|logs| - 1];
      LoggedTotal(logs[..|logs| - 1], day, name) + (if Matches(last, day, name) then last.duration else 0)
  }

  /** Some record logged under `name` on `day` is completed. */
  predicate AnyCompleted(logs: seq<LogEntry>, day: int, name: string) {
    if logs == [] then false
    else
      var last := logs[|logs| - 1];
      AnyCompleted(logs[..|logs| - 1], day, name) || (Matches(last, day, name) && last.completed)
  }

  /** What the log alone contributes to the bucket of an activity called `name`. */
  function Logged(logs: seq<LogEntry>, day: int, name: string): Bucket {
    Bucket(LoggedTotal(logs, day, name), AnyCompleted(logs, day, name))
  }

  /** The bucket of key `k`: the logged part, plus the live elapsed time if `k` is running. */
  function Expected(st: State, now: int, k: Key): Bucket
    requires Valid(st) && k in st.activities
  {
    var b := Logged(st.logs, DayOf(now), st.activities[k].name);
    if st.current == Some(k) then Bucket(b.total + (now - st.startTime.value), b.completed) else b
  }

  /** The summary of the day of `now`: one bucket per catalog key. */
  function Summary(st: State, now: int): (s: map<Key, Bucket>)
    requires Valid(st)
    ensures s.Keys == st.activities.Keys
  {
    map k | k in st.activities :: Expected(st, now, k)
  }

  /** The summary is the log's buckets with the live elapsed time added to the running key. */
  lemma SummaryFromLogged(st: State, now: int, logged: map<Key, Bucket>)
    requires Valid(st)
    requires logged.Keys == st.activities.Keys
    requires forall k :: k in logged ==> logged[k] == Logged(st.logs, DayOf(now), st.activities[k].name)
    ensures Summary(st, now) ==
      match st.current
      case None => logged
      case Some(run) =>
        logged[run := Bucket(logged[run].total + (now - st.startTime.value), logged[run].completed)]
  {
  }

  /** Appending one record adds its duration and its completion when it matches. */
  lemma LoggedSnoc(logs: seq<LogEntry>, e: LogEntry, day: int, name: string)
    ensures LoggedTotal(logs + [e], day, name) ==
      LoggedTotal(logs, day, name) + (if Matches(e, day, name) then e.duration else 0)
    ensures AnyCompleted(logs + [e], day, name) <==>
      AnyCompleted(logs, day, name) || (Matches(e, day, name) && e.completed)
    ensures Logged(logs + [e], day, name) ==
      if e.date == day then Credit(Logged(logs, day, name), e, name) else Logged(logs, day, name)
  {
    assert (logs + [e])[..|logs|] == logs;
  }

  /** Filter, then sum: the reference reading of the aggregation law. */
  function MatchingLogs(logs: seq<LogEntry>, day: int, name: string): (r: seq<LogEntry>)
    ensures forall e :: e in r ==> e in logs && Matches(e, day, name)
  {
    if logs == [] then []
    else (if Matches(logs[0], day, name) then [logs[0]] else []) + MatchingLogs(logs[1..], day, name)
  }

  function SumDurations(s: seq<LogEntry>): int {
    if s == [] then 0 else s[0].duration + SumDurations(s[1..])
  }

  lemma {:induction false} SumDurationsAppend(a: seq<LogEntry>, b: seq<LogEntry>)
    ensures SumDurations(a + b) == SumDurations(a) + SumDurations(b)
  {
    if a == [] {
      assert a + b == b;
    } else {
      assert (a + b)[1..] == a[1..] + b;
      SumDurationsAppend(a[1..], b);
    }
  }

  lemma {:induction false} MatchingLogsSnoc(logs: seq<LogEntry>, e: LogEntry, day: int, name: string)
    ensures MatchingLogs(logs + [e], day, name) ==
      MatchingLogs(logs, day, name) + (if Matches(e, day, name) then [e] else [])
  {
    if logs == [] {
      assert [e][1..] == [];
    } else {
      assert (logs + [e])[1..] == logs[1..] + [e];
      MatchingLogsSnoc(logs[1..], e, day, name);
    }
  }

  /** The running sum equals the sum of the durations of the matching records. */
  lemma {:induction false} LoggedTotalIsFilteredSum(logs: seq<LogEntry>, day: int, name: string)
    ensures LoggedTotal(logs, day, name) == SumDurations(MatchingLogs(logs, day, name))
  {
    if logs != [] {
      var init, last := logs[..|logs| - 1], logs[|logs| - 1];
      assert logs == init + [last];
      LoggedTotalIsFilteredSum(init, day, name);
      MatchingLogsSnoc(init, last, day, name);
      SumDurationsAppend(MatchingLogs(init, day, name), if Matches(last, day, name) then [last] else []);
    }
  }

  /** The completion flag is set iff some matching record is completed. */
  lemma {:induction false} AnyCompletedIff(logs: seq<LogEntry>, day: int, name: string)
    ensures AnyCompleted(logs, day, name) <==>
      exists i :: 0 <= i < |logs| && Matches(logs[i], day, name) && logs[i].completed
  {
    if logs != [] {
      var init := logs[..|logs| - 1];
      AnyCompletedIff(init, day, name);
      if AnyCompleted(init, day, name) {
        var i :| 0 <= i < |init| && Matches(init[i], day, name) && init[i].completed;
        assert logs[i] == init[i];
      }
      if i :| 0 <= i < |logs| && Matches(logs[i], day, name) && logs[i].completed {
        if i < |init| {
          assert init[i] == logs[i];
        }
      }
    }
  }

  /** Without matching records, the log contributes a zero, uncompleted bucket. */
  lemma {:induction false} NoMatchesLogsNothing(logs: seq<LogEntry>, day: int, name: string)
    requires forall e :: e in logs ==> e.date != day
    ensures Logged(logs, day, name) == Bucket(0, false)
  {
    if logs != [] {
      var init := logs[..|logs| - 1];
      assert forall e :: e in init ==> e in logs;
      NoMatchesLogsNothing(init, day, name);
    }
  }

  /**
   * Aggregation law: a key's total is the sum over the day's records carrying
   * its display name, plus the elapsed time if it is the running key; its flag
   * is set iff one of those records is completed (the live time never sets it).
   */
  lemma SummaryLaw(st: State, now: int, k: Key)
    requires Valid(st) && k in st.activities
    ensures var name := st.activities[k].name;
      && Summary(st, now)[k].total ==
           SumDurations(MatchingLogs(st.logs, DayOf(now), name))
           + (if st.current == Some(k) then now - st.startTime.value else 0)
      && (Summary(st, now)[k].completed <==>
           exists i :: 0 <= i < |st.logs| && Matches(st.logs[i], DayOf(now), name) && st.logs[i].completed)
  {
    LoggedTotalIsFilteredSum(st.logs, DayOf(now), st.activities[k].name);
    AnyCompletedIff(st.logs, DayOf(now), st.activities[k].name);
  }

  /** A day without records and without a running session: every bucket is zero and not completed. */
  lemma EmptyDaySummary(st: State, now: int)
    requires Valid(st) && st.current == None
    requires forall e :: e in st.logs ==> e.date != DayOf(now)
    ensures forall k :: k in Summary(st, now) ==> Summary(st, now)[k] == Bucket(0, false)
  {
    forall k | k in st.activities
      ensures Summary(st, now)[k] == Bucket(0, false)
    {
      NoMatchesLogsNothing(st.logs, DayOf(now), st.activities[k].name);
    }
  }

  /**
   * No elapsed time is lost by stopping: the running key keeps its total (the
   * live time becomes a record), every other key that shares its display name
   * gains the duration as well, and the rest are unchanged. A completion flag
   * is only ever set, and only by a record that reached its target.
   */
  lemma StopConservesTime(st: State, now: int, k: Key)
    requires Valid(st) && st.current.Some? && k in st.activities
    ensures var run := st.current.value;
      var shared := k != run && st.activities[k].name == st.activities[run].name;
      && Summary(StopState(st, now), now)[k].total ==
           Summary(st, now)[k].total + (if shared then now - st.startTime.value else 0)
      && (Summary(StopState(st, now), now)[k].completed <==>
           Summary(st, now)[k].completed
           || (st.activities[k].name == st.activities[run].name
               && Reached(st.activities[run].target, now - st.startTime.value)))
  {
    var run := st.current.value;
    LoggedSnoc(st.logs, Finalize(st.activities[run], st.startTime.value, now), DayOf(now), st.activities[k].name);
  }

  /** With distinct display names, stopping leaves every total of the day as it was. */
  lemma StopKeepsTotalsWhenNamesDistinct(st: State, now: int)
    requires Valid(st) && st.current.Some?
    requires forall a, b :: a in st.activities && b in st.activities && a != b ==>
      st.activities[a].name != st.activities[b].name
    ensures forall k :: k in st.activities ==>
      Summary(StopState(st, now), now)[k].total == Summary(st, now)[k].total
  {
    forall k | k in st.activities
      ensures Summary(StopState(st, now), now)[k].total == Summary(st, now)[k].total
    {
      StopConservesTime(st, now, k);
    }
  }

  /** A second stop right after the first does nothing: one session, one record. */
  lemma StopIdempotent(st: State, now: int, later: int)
    requires Valid(st)
    ensures StopState(StopState(st, now), later) == StopState(st, now)
  {
  }

  /**
   * Starting while a session runs first turns that session into exactly one
   * record; the earlier records stay as they were.
   */
  lemma StartFinalizesPrevious(st: State, key: Key, now: int)
    requires Valid(st) && key in st.activities && st.current.Some?
    ensures var r := StartState(st, key, now);
      && r.logs == st.logs + [Finalize(st.activities[st.current.value], st.startTime.value, now)]
      && r.current == Some(key)
  {
  }

  /** Records are never rewritten: the completion flag of a day only goes from false to true. */
  lemma CompletionPersists(logs: seq<LogEntry>, more: seq<LogEntry>, day: int, name: string)
    requires AnyCompleted(logs, day, name)
    ensures AnyCompleted(logs + more, day, name)
  {
    AnyCompletedIff(logs, day, name);
    var i :| 0 <= i < |logs| && Matches(logs[i], day, name) && logs[i].completed;
    assert (logs + more)[i] == logs[i];
    AnyCompletedIff(logs + more, day, name);
  }

  /**
   * Deleting the running activity first records its session, then removes it;
   * the summary no longer has its bucket.
   */
  lemma DeleteRunning(st: State, key: Key, now: int)
    requires Valid(st) && st.current == Some(key)
    ensures var r := DeleteState(st, key, now);
      && r.logs == st.logs + [Finalize(st.activities[key], st.startTime.value, now)]
      && r.current == None
      && key !in Summary(r, now)
  {
  }

  /**
   * The join is by display name: two keys that share a name and are not
   * running get the same bucket, so history follows the name, not the key.
   */
  lemma SharedNameSharesHistory(st: State, now: int, a: Key, b: Key)
    requires Valid(st) && a in st.activities && b in st.activities
    requires st.activities[a].name == st.activities[b].name
    requires st.current != Some(a) && st.current != Some(b)
    ensures Summary(st, now)[a] == Summary(st, now)[b]
  {
  }

  // ---------------------------------------------------------------------------
  // The state as the program keeps it: fields updated in place
  // ---------------------------------------------------------------------------

  class Tracker {
    var activities: map<Key, Activity>
    var order: seq<Key>
    var current: Option<Key>
    var startTime: Option<int>
    var logs: seq<LogEntry>

    function Model(): State
      reads this
    {
      State(activities, order, current, startTime, logs)
    }

    ghost predicate Inv()
      reads this
    {
      Valid(Model())
    }

    /** init_session_state followed by load_data without saved files. */
    constructor ()
      ensures Inv() && Model() == DefaultState()
    {
      activities := DefaultCatalog();
      order := DefaultOrder;
      current := None;
      startTime := None;
      logs := [];
    }

    method Stop(now: int)
      requires Inv()
      modifies this
      ensures Inv() && Model() == StopState(old(Model()), now)
    {
      if current.Some? {
        var key := current.value;
        var duration := now - startTime.value;
        var activity := activities[key];
        var completed := activity.target.Some? && activity.target.value != 0 && duration >= activity.target.value;
        var entry := LogEntry(activity.name, DayOf(now), startTime.value, duration, completed);
        logs := logs + [entry];
        current := None;
      }
    }

    method Start(key: Key, now: int)
      requires Inv() && key in activities
      modifies this
      ensures Inv() && Model() == StartState(old(Model()), key, now)
    {
      Stop(now);
      current := Some(key);
      startTime := Some(now);
    }

    /** The activity button: stop the activity if it is the running one, start it otherwise. */
    method Toggle(key: Key, now: int)
      requires Inv() && key in activities
      modifies this
      ensures Inv()
      ensures old(current) == Some(key) ==> Model() == StopState(old(Model()), now)
      ensures old(current) != Some(key) ==> Model() == StartState(old(Model()), key, now)
    {
      if current == Some(key) {
        Stop(now);
      } else {
        Start(key, now);
      }
    }

    method AddActivity(key: Key, name: string, emoji: string, color: string,
                       target: int, unit: Durations.TimeUnit) returns (added: bool)
      requires Inv()
      modifies this
      ensures added <==> Accepted(name, emoji)
      ensures Inv() && Model() == AddState(old(Model()), key, name, emoji, color, target, unit)
    {
      if name != "" && emoji != "" {
        var duration := if unit == Durations.Hours then target * 3600 else target * 60;
        var stored := if unit != Durations.NoUnit && target > 0 then Some(duration) else None;
        if key !in activities {
          order := order + [key];
        }
        activities := activities[key := Activity(emoji + " " + name, stored, color)];
        added := true;
      } else {
        added := false;
      }
    }

    method DeleteActivity(key: Key, now: int)
      requires Inv() && key in activities
      modifies this
      ensures Inv() && Model() == DeleteState(old(Model()), key, now)
    {
      if current == Some(key) {
        Stop(now);
      }
      order := RemoveKey(order, key);
      activities := activities - {key};
    }

    /**
     * get_today_summary: zeroed buckets, then each record of the day is
     * credited to every key whose display name it carries, then the running
     * key gets the elapsed time.
     */
    method TodaySummary(now: int) returns (summary: map<Key, Bucket>)
      requires Inv()
      ensures summary == Summary(Model(), now)
    {
      var today := DayOf(now);
      var acts, keys, records := activities, order, logs;
      summary := map k | k in acts :: Bucket(0, false);
      var i := 0;
      while i < |records|
        invariant 0 <= i <= |records|
        invariant summary.Keys == acts.Keys
        invariant forall k :: k in summary ==> summary[k] == Logged(records[..i], today, acts[k].name)
      {
        var log := records[i];
        assert records[..i + 1] == records[..i] + [log];
        if log.date == today {
          summary := CreditMatching(summary, acts, keys, log);
        }
        forall k | k in summary
          ensures summary[k] == Logged(records[..i + 1], today, acts[k].name)
        {
          LoggedSnoc(records[..i], log, today, acts[k].name);
        }
        i := i + 1;
      }
      assert records[..i] == records;
      ghost var logged := summary;
      if current.Some? {
        var key := current.value;
        var elapsed := now - startTime.value;
        summary := summary[key := Bucket(summary[key].total + elapsed, summary[key].completed)];
      }
      SummaryFromLogged(Model(), now, logged);
    }
  }

  /** One record's effect on the bucket of an activity called `name`. */
  function Credit(b: Bucket, e: LogEntry, name: string): Bucket {
    if e.activity == name then Bucket(b.total + e.duration, b.completed || e.completed) else b
  }

  /**
   * The inner loop of get_today_summary: walk the whole catalog (no early
   * exit) and credit the record to every key whose display name it carries.
   */
  method CreditMatching(summary: map<Key, Bucket>, acts: map<Key, Activity>, keys: seq<Key>, log: LogEntry)
    returns (r: map<Key, Bucket>)
    requires Distinct(keys) && summary.Keys == acts.Keys
    requires forall k :: k in keys <==> k in acts
    ensures r.Keys == summary.Keys
    ensures forall k :: k in r ==> r[k] == Credit(summary[k], log, acts[k].name)
  {
    r := summary;
    var j := 0;
    while j < |keys|
      invariant 0 <= j <= |keys|
      invariant r.Keys == summary.Keys
      invariant forall k :: k in r ==>
        r[k] == if k in keys[..j] then Credit(summary[k], log, acts[k].name) else summary[k]
    {
      var key := keys[j];
      assert keys[..j + 1] == keys[..j] + [key];
      assert key !in keys[..j];
      if acts[key].name == log.activity {
        var b := r[key];
        r := r[key := Bucket(b.total + log.duration, b.completed || log.completed)];
      }
      j := j + 1;
    }
    assert keys[..j] == keys;
  }

  // ---------------------------------------------------------------------------
  // Scenarios, played on the class
  // ---------------------------------------------------------------------------

  /** A two-hour target run for 8000 s: one completed record, and the day's bucket shows it. */
  method CourseScenario(t0: int) returns (entry: LogEntry, bucket: Bucket)
    ensures entry == LogEntry("\U{1F4BB} Course", DayOf(t0 + 8000), t0, 8000, true)
    ensures bucket == Bucket(8000, true)
  {
    var t := new Tracker();
    t.Start("course", t0);
    t.Stop(t0 + 8000);
    entry := t.logs[0];
    assert t.logs == [entry];
    LoggedSnoc([], entry, DayOf(t0 + 8000), entry.activity);
    assert [] + [entry] == [entry];
    var summary := t.TodaySummary(t0 + 8000);
    bucket := summary["course"];
  }

  /** Starting another activity without stopping the first records the first exactly once. */
  method AutoStopScenario(t0: int, t1: int) returns (logs: seq<LogEntry>, running: Option<Key>, keys: set<Key>)
    ensures logs == [LogEntry("\U{1F3CB} Gym", DayOf(t1), t0, t1 - t0, false)]
    ensures running == Some("course")
    ensures keys == {"gym", "study", "shower", "cycle", "course"}
  {
    var t := new Tracker();
    t.Start("gym", t0);
    t.Start("course", t1);
    logs, running, keys := t.logs, t.current, t.activities.Keys;
  }

  /** Stopping twice in a row yields one record. */
  method DoubleStopScenario(t0: int, t1: int, t2: int) returns (count: nat)
    ensures count == 1
  {
    var t := new Tracker();
    t.Start("study", t0);
    t.Stop(t1);
    t.Stop(t2);
    count := |t.logs|;
  }

  /** Deleting the running activity records its session and drops its bucket. */
  method DeleteRunningScenario(t0: int, t1: int) returns (count: nat, summaryKeys: set<Key>)
    ensures count == 1
    ensures summaryKeys == {"study", "shower", "cycle", "course"}
  {
    var t := new Tracker();
    t.Start("gym", t0);
    t.DeleteActivity("gym", t1);
    assert t.activities.Keys == DefaultCatalog().Keys - {"gym"};
    count := |t.logs|;
    var summary := t.TodaySummary(t1);
    summaryKeys := summary.Keys;
  }
}
