/**
 * The list logic of the dashboard page (app/dashboard/page.tsx): turning fetched
 * rows into `Event`s, the search/sport/status filter, the status counters, the
 * avatar initials, and the local list update after a delete.
 */
module Dashboard {
  import opened Wrappers
  import opened Types
  import opened Strings
  import opened Seqs
  import opened Ordering
  import opened Events

  /** The value of the sport selector: 'all' or one `SportType`. */
  datatype SportFilter = AllSports | SportIs(sport: Sport)

  /** The value of the status selector: 'all' or one `EventStatus`. */
  datatype StatusFilter = AllStatuses | StatusIs(status: EventStatus)

  /**
   * The transform in `fetchData`: each column to its `Event` field, values
   * unchanged, so that only `created_by` is needed to rebuild the row.
   */
  function ToEvent(row: EventRow): (e: Event)
    ensures ToRow(e, row.createdBy) == row
  {
    Event(row.id, row.title, row.sport, row.status, row.eventDate, row.eventTime, row.venue,
          row.homeTeam, row.awayTeam, row.homeScore, row.awayScore, row.description,
          row.attendees, row.maxCapacity)
  }

  function ToEvents(rows: seq<EventRow>): seq<Event> {
    Map(ToEvent, rows)
  }

  /** The row an event was read from, given the one column the view drops. */
  function ToRow(e: Event, createdBy: UserId): EventRow {
    EventRow(e.id, e.title, e.sport, e.status, e.date, e.time, e.venue, e.homeTeam, e.awayTeam,
             e.homeScore, e.awayScore, e.description, e.attendees, e.maxCapacity, createdBy)
  }

  /** The renamed columns land in their fields: `event_date` in `date`, `home_team` in `homeTeam`, ... */
  lemma ToEventLossless(row: EventRow)
    ensures ToEvent(row).date == row.eventDate && ToEvent(row).time == row.eventTime
    ensures ToEvent(row).homeTeam == row.homeTeam && ToEvent(row).awayTeam == row.awayTeam
    ensures ToEvent(row).maxCapacity == row.maxCapacity
  {
  }

  /** Case-insensitive substring search over the four text fields. */
  predicate MatchesSearch(e: Event, query: string) {
    var q := Lower(query);
    Contains(Lower(e.title), q) || Contains(Lower(e.homeTeam), q)
    || Contains(Lower(e.awayTeam), q) || Contains(Lower(e.venue), q)
  }

  predicate MatchesSport(e: Event, f: SportFilter) {
    f.AllSports? || e.sport == SportName(f.sport)
  }

  predicate MatchesStatus(e: Event, f: StatusFilter) {
    f.AllStatuses? || e.status == StatusName(f.status)
  }

  function Keeps(query: string, sport: SportFilter, status: StatusFilter): Event -> bool {
    (e: Event) => MatchesSearch(e, query) && MatchesSport(e, sport) && MatchesStatus(e, status)
  }

  /** `filteredEvents`: an event is shown exactly when it matches the search, the sport and the status. */
  function FilteredEvents(events: seq<Event>, query: string, sport: SportFilter, status: StatusFilter): (r: seq<Event>)
    ensures |r| <= |events|
    ensures forall e :: e in r <==> e in events && MatchesSearch(e, query) && MatchesSport(e, sport) && MatchesStatus(e, status)
  {
    FilterMembershipAll(Keeps(query, sport, status), events);
    Filter(Keeps(query, sport, status), events)
  }

  /**
   * The filtered list is an order-preserving sub-sequence of the events, and it
   * keeps every occurrence of each event it keeps.
   */
  lemma FilteredEventsSpec(events: seq<Event>, query: string, sport: SportFilter, status: StatusFilter)
    ensures IsSubsequence(FilteredEvents(events, query, sport, status), events)
    ensures forall e :: e in events && Keeps(query, sport, status)(e) ==>
                        multiset(FilteredEvents(events, query, sport, status))[e] == multiset(events)[e]
  {
    var p := Keeps(query, sport, status);
    FilterSubsequence(p, events);
    forall e | e in events && p(e) ensures multiset(Filter(p, events))[e] == multiset(events)[e] {
      FilterMultiplicity(p, events, e);
    }
  }

  /** An empty search with both selectors on 'all' shows every event, in order. */
  lemma NoFilterShowsAll(events: seq<Event>)
    ensures FilteredEvents(events, "", AllSports, AllStatuses) == events
  {
    assert Lower("") == "";
    forall e | e in events ensures Keeps("", AllSports, AllStatuses)(e) {
      ContainsEmpty(Lower(e.title));
    }
    FilterAllPass(Keeps("", AllSports, AllStatuses), events);
  }

  /** A selected sport or status shows only events with exactly that sport or status. */
  lemma SelectorsAreExact(events: seq<Event>, query: string, sport: SportFilter, status: StatusFilter)
    ensures sport.SportIs? ==> forall e :: e in FilteredEvents(events, query, sport, status) ==> e.sport == SportName(sport.sport)
    ensures status.StatusIs? ==> forall e :: e in FilteredEvents(events, query, sport, status) ==> e.status == StatusName(status.status)
  {
  }

  function HasStatus(st: EventStatus): Event -> bool {
    (e: Event) => e.status == StatusName(st)
  }

  /** `events.filter(e => e.status === name).length`: at most the total. */
  function StatusCount(events: seq<Event>, st: EventStatus): (n: nat)
    ensures n <= |events|
  {
    |Filter(HasStatus(st), events)|
  }

  /** A counter shows zero exactly when no event has its status. */
  lemma StatusCountZero(events: seq<Event>, st: EventStatus)
    ensures StatusCount(events, st) == 0 <==> forall e :: e in events ==> e.status != StatusName(st)
  {
    var f := Filter(HasStatus(st), events);
    FilterMembershipAll(HasStatus(st), events);
    if f != [] {
      assert f[0] in f;
    }
  }

  /** Counting over a list with a head: the head adds one when it has the status. */
  lemma StatusCountCons(events: seq<Event>, st: EventStatus)
    requires events != []
    ensures StatusCount(events, st) == (if events[0].status == StatusName(st) then 1 else 0) + StatusCount(events[1..], st)
  {
  }

  /**
   * The three counters never exceed the total, and add up to it exactly when every
   * event's status is one of the three `EventStatus` values.
   */
  lemma {:induction false} StatusCountsAddUp(events: seq<Event>)
    ensures StatusCount(events, Live) + StatusCount(events, Upcoming) + StatusCount(events, Completed) <= |events|
    ensures StatusCount(events, Live) + StatusCount(events, Upcoming) + StatusCount(events, Completed) == |events|
            <==> forall e :: e in events ==> IsStatusName(e.status)
  {
    if events != [] {
      var rest := events[1..];
      StatusCountsAddUp(rest);
      StatusCountCons(events, Live);
      StatusCountCons(events, Upcoming);
      StatusCountCons(events, Completed);
      if IsStatusName(events[0].status) {
        assert forall e :: e in events <==> e == events[0] || e in rest;
      } else {
        assert events[0] in events;
      }
    }
  }

  /**
   * `n[0]` of each piece, joined: an empty piece contributes nothing (its `n[0]` is
   * `undefined`, which `join` writes as ""), so there is one initial per non-empty piece.
   */
  function Initials(words: seq<string>): (r: string)
    ensures |r| <= |words|
    ensures |r| == |words| <==> forall i :: 0 <= i < |words| ==> words[i] != ""
  {
    if words == [] then ""
    else
      assert forall i :: 0 <= i < |words| - 1 ==> words[1..][i] == words[i + 1];
      (if words[0] == "" then "" else [words[0][0]]) + Initials(words[1..])
  }

  /** The characters of `s` that begin a word: not a space, and first or after a space. */
  function WordStarts(s: string, afterSpace: bool): string {
    if s == [] then ""
    else (if s[0] != ' ' && afterSpace then [s[0]] else "") + WordStarts(s[1..], s[0] == ' ')
  }

  lemma {:induction false} InitialsConcat(a: seq<string>, b: seq<string>)
    ensures Initials(a + b) == Initials(a) + Initials(b)
  {
    if a == [] {
      assert a + b == b;
    } else {
      var head := if a[0] == "" then "" else [a[0][0]];
      calc {
        Initials(a + b);
        { assert (a + b)[0] == a[0]; assert (a + b)[1..] == a[1..] + b; }
        head + Initials(a[1..] + b);
        { InitialsConcat(a[1..], b); }
        head + (Initials(a[1..]) + Initials(b));
        (head + Initials(a[1..])) + Initials(b);
      }
    }
  }

  /** The initials of the split are the word-initial characters of the name. */
  lemma {:induction false} InitialsOfSplit(s: string)
    ensures Initials(SplitOnSpace(s)) == WordStarts(s, true)
    ensures Initials(SplitOnSpace(s)[1..]) == WordStarts(s, false)
  {
    if s != [] {
      InitialsOfSplit(s[1..]);
      var rest := SplitOnSpace(s[1..]);
      if s[0] == ' ' {
        assert SplitOnSpace(s) == [""] + rest;
        InitialsConcat([""], rest);
      } else {
        var words := SplitOnSpace(s);
        assert words == [[s[0]] + rest[0]] + rest[1..];
        InitialsConcat([[s[0]] + rest[0]], rest[1..]);
        assert words[1..] == rest[1..];
      }
    }
  }

  /**
   * `getUserInitials()`: 'U' without a full name; otherwise the upper-cased first
   * character of each space-separated word, in order.
   */
  function UserInitials(fullName: Option<string>): (r: string)
    ensures fullName.None? || fullName == Some("") ==> r == "U"
    ensures fullName.Some? && fullName.value != "" ==> r == Upper(WordStarts(fullName.value, true))
  {
    if fullName.None? || fullName.value == "" then "U"
    else
      InitialsOfSplit(fullName.value);
      Upper(Initials(SplitOnSpace(fullName.value)))
  }

  /** A name made only of spaces is truthy but has no word, so the avatar shows nothing. */
  lemma {:induction false} BlankNameHasNoInitials(s: string, afterSpace: bool)
    requires forall i :: 0 <= i < |s| ==> s[i] == ' '
    ensures WordStarts(s, afterSpace) == ""
  {
    if s != [] {
      BlankNameHasNoInitials(s[1..], true);
    }
  }

  /**
   * With the model's stable order among equal dates, the local list after a delete
   * agrees with a fresh fetch: removing the id from the fetched list gives the list
   * fetched from the table after the delete.
   */
  lemma DeleteAgreesWithRefetch(rows: seq<EventRow>, id: EventId)
    ensures Filter(EventIdIsNot(id), ToEvents(SortBy(DateKey, rows)))
            == ToEvents(SortBy(DateKey, DeleteRows(rows, id)))
  {
    FilterMap(EventIdIsNot(id), ToEvent, IdIsNot(id), SortBy(DateKey, rows));
    SortByFilter(DateKey, IdIsNot(id), rows);
  }

  /**
   * The same agreement for any order the backend gives rows with equal dates: if a
   * fetch returned `fetched`, dropping the id from the shown list gives the
   * transform of a date-ordered list of exactly the rows left after the delete,
   * which is a list a fetch after the delete may return.
   */
  lemma DeleteAgreesWithAnyRefetch(rows: seq<EventRow>, fetched: seq<EventRow>, id: EventId)
    requires SortedBy(DateKey, fetched) && multiset(fetched) == multiset(rows)
    ensures Filter(EventIdIsNot(id), ToEvents(fetched)) == ToEvents(Filter(IdIsNot(id), fetched))
    ensures SortedBy(DateKey, Filter(IdIsNot(id), fetched))
    ensures multiset(Filter(IdIsNot(id), fetched)) == multiset(DeleteRows(rows, id))
  {
    FilterMap(EventIdIsNot(id), ToEvent, IdIsNot(id), fetched);
    FilterSorted(DateKey, IdIsNot(id), fetched);
    DeleteRowsPermutation(fetched, rows, id);
  }

  function EventIdIsNot(id: EventId): Event -> bool {
    (e: Event) => e.id != id
  }

  /** The page's `events` state. */
  class DashboardPage {
    var events: seq<Event>

    constructor ()
      ensures events == []
    {
      events := [];
    }

    /** `fetchData`: on success the list becomes the transformed rows; on failure it stays. */
    method FetchData(table: EventsTable, fault: Option<string>)
      modifies this
      ensures fault.None? ==> events == ToEvents(SortBy(DateKey, table.rows))
      ensures fault.Some? ==> events == old(events)
    {
      var result := ListEvents(table.rows, fault);
      if result.Success? {
        events := ToEvents(result.data);
      }
    }

    /**
     * `handleDeleteEvent(id)`: if confirmed, deletes on the server; on success
     * drops the events with that id from the list, on failure alerts and keeps it.
     */
    method HandleDeleteEvent(table: EventsTable, id: EventId, confirmed: bool, fault: Option<string>)
      returns (alert: Option<string>)
      requires table.Valid()
      modifies this, table
      ensures table.Valid() && table.nextId == old(table.nextId)
      ensures table.revalidations == if confirmed && fault.None? then old(table.revalidations) + 1 else old(table.revalidations)
      ensures !confirmed ==> events == old(events) && table.rows == old(table.rows) && alert.None?
      ensures confirmed && fault.None? ==>
                events == Filter(EventIdIsNot(id), old(events)) && table.rows == DeleteRows(old(table.rows), id) && alert.None?
      ensures confirmed && fault.Some? ==>
                events == old(events) && table.rows == old(table.rows) && alert == Some("Failed to delete event: " + fault.value)
    {
      if !confirmed {
        return None;
      }
      var result := table.DeleteEvent(id, fault);
      if !result.Success? {
        return Some("Failed to delete event: " + result.error);
      }
      events := Filter(EventIdIsNot(id), events);
      alert := None;
    }
  }
}
