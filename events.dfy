/**
 * The event server actions (actions/events.ts) over an in-memory `events` table.
 * The signed-in user and each backend call's failure are inputs; revalidation of
 * the dashboard is counted in `revalidations`.
 */
module Events {
  import opened Wrappers
  import opened Types
  import opened ActionHelpers
  import opened Seqs
  import opened Ordering

  /** A row of the `events` table. Nullable columns are `Option`s. */
  datatype EventRow = EventRow(
    id: EventId,
    title: string,
    sport: string,
    status: string,
    eventDate: string,
    eventTime: string,
    venue: string,
    homeTeam: string,
    awayTeam: string,
    homeScore: Option<int>,
    awayScore: Option<int>,
    description: Option<string>,
    attendees: Option<int>,
    maxCapacity: Option<int>,
    createdBy: UserId)

  /** The argument of `createEvent`; absent optional keys are `None`. */
  datatype NewEvent = NewEvent(
    title: string,
    sport: string,
    status: string,
    eventDate: string,
    eventTime: string,
    venue: string,
    homeTeam: string,
    awayTeam: string,
    description: Option<string>,
    maxCapacity: Option<int>)

  /** One key of an update object: left out (or `undefined`, which the client drops), or given. */
  datatype Patch<T> = Keep | Put(value: T)

  /** The argument of `updateEvent`. `created_by` is not among its keys. */
  datatype EventChanges = EventChanges(
    title: string,
    sport: string,
    status: string,
    eventDate: string,
    eventTime: string,
    venue: string,
    homeTeam: string,
    awayTeam: string,
    homeScore: Patch<Option<int>>,
    awayScore: Patch<Option<int>>,
    description: Patch<string>,
    attendees: Patch<int>,
    maxCapacity: Patch<int>)

  const NotAuthenticated := "Not authenticated"

  /**
   * The row `createEvent` inserts: exactly the submitted fields, its new id, and the
   * creator; the columns the caller cannot supply are null.
   */
  function Inserted(input: NewEvent, id: EventId, user: UserId): (row: EventRow)
    ensures Submitted(row) == input
    ensures row.id == id && row.createdBy == user
    ensures row.homeScore.None? && row.awayScore.None? && row.attendees.None?
  {
    EventRow(id, input.title, input.sport, input.status, input.eventDate, input.eventTime,
             input.venue, input.homeTeam, input.awayTeam, None, None,
             input.description, None, input.maxCapacity, user)
  }

  /** The columns of a row that a caller of `createEvent` supplies. */
  function Submitted(row: EventRow): NewEvent {
    NewEvent(row.title, row.sport, row.status, row.eventDate, row.eventTime, row.venue,
             row.homeTeam, row.awayTeam, row.description, row.maxCapacity)
  }

  /** A nullable column after an update whose key, if given, holds a value. */
  function Patched<T>(p: Patch<T>, current: Option<T>): Option<T> {
    match p
    case Keep => current
    case Put(v) => Some(v)
  }

  /** A nullable column after an update whose key, if given, may hold `null`. */
  function PatchedNullable<T>(p: Patch<Option<T>>, current: Option<T>): Option<T> {
    match p
    case Keep => current
    case Put(v) => v
  }

  /** The row after `.update(changes)`: given keys overwrite their columns, the rest stay. */
  function Updated(row: EventRow, c: EventChanges): EventRow {
    row.(title := c.title, sport := c.sport, status := c.status,
         eventDate := c.eventDate, eventTime := c.eventTime, venue := c.venue,
         homeTeam := c.homeTeam, awayTeam := c.awayTeam,
         homeScore := PatchedNullable(c.homeScore, row.homeScore),
         awayScore := PatchedNullable(c.awayScore, row.awayScore),
         description := Patched(c.description, row.description),
         attendees := Patched(c.attendees, row.attendees),
         maxCapacity := Patched(c.maxCapacity, row.maxCapacity))
  }

  function IdIs(id: EventId): EventRow -> bool {
    (row: EventRow) => row.id == id
  }

  function IdIsNot(id: EventId): EventRow -> bool {
    (row: EventRow) => row.id != id
  }

  function UpdateIfId(id: EventId, c: EventChanges): EventRow -> EventRow {
    (row: EventRow) => if row.id == id then Updated(row, c) else row
  }

  /** The rows `.eq('id', id)` selects. */
  function RowsWithId(rows: seq<EventRow>, id: EventId): seq<EventRow> {
    Filter(IdIs(id), rows)
  }

  /**
   * The table after `.update(changes).eq('id', id)`: the same rows in the same
   * places, ids and creators unchanged, and rows with another id untouched.
   */
  function UpdateRows(rows: seq<EventRow>, id: EventId, c: EventChanges): (r: seq<EventRow>)
    ensures |r| == |rows|
    ensures forall k :: 0 <= k < |rows| ==> r[k].id == rows[k].id && r[k].createdBy == rows[k].createdBy
    ensures forall k :: 0 <= k < |rows| && rows[k].id != id ==> r[k] == rows[k]
  {
    Map(UpdateIfId(id, c), rows)
  }

  /** The table after `.delete().eq('id', id)`: exactly the rows with another id remain. */
  function DeleteRows(rows: seq<EventRow>, id: EventId): (r: seq<EventRow>)
    ensures |r| <= |rows|
    ensures forall x :: x in r <==> x in rows && x.id != id
  {
    FilterMembershipAll(IdIsNot(id), rows);
    Filter(IdIsNot(id), rows)
  }

  /** Deleting from two orderings of one table leaves two orderings of one table. */
  lemma DeleteRowsPermutation(a: seq<EventRow>, b: seq<EventRow>, id: EventId)
    requires multiset(a) == multiset(b)
    ensures multiset(DeleteRows(a, id)) == multiset(DeleteRows(b, id))
  {
    forall x ensures multiset(DeleteRows(a, id))[x] == multiset(DeleteRows(b, id))[x] {
      FilterMultiplicity(IdIsNot(id), a, x);
      FilterMultiplicity(IdIsNot(id), b, x);
    }
  }

  function DateKey(row: EventRow): string {
    row.eventDate
  }

  /** No two rows share an id (the table's primary key). */
  ghost predicate DistinctIds(rows: seq<EventRow>) {
    forall i, j :: 0 <= i < j < |rows| ==> rows[i].id != rows[j].id
  }

  /**
   * `getEvents()` on a table holding `rows`: every row, ordered by `event_date`
   * ascending, or the backend's message when the query fails.
   */
  function ListEvents(rows: seq<EventRow>, fault: Option<string>): (r: ActionResponse<seq<EventRow>>)
    ensures fault.Some? ==> r == Failure(fault.value)
    ensures fault.None? ==> r.Success? && SortedBy(DateKey, r.data) && multiset(r.data) == multiset(rows)
  {
    match fault
    case Some(m) => Failure(m)
    case None => SortBySorted(DateKey, rows); Success(SortBy(DateKey, rows))
  }

  /**
   * `getEventById(id)` on a table holding `rows`. `.single()` turns anything but
   * exactly one matching row into a backend error, whose text is `notSingle`.
   */
  function EventById(rows: seq<EventRow>, id: EventId, fault: Option<string>, notSingle: string): (r: ActionResponse<EventRow>)
    ensures r.Success? <==> fault.None? && |RowsWithId(rows, id)| == 1
    ensures r.Success? ==> r.data in rows && r.data.id == id
    ensures fault.Some? ==> r == Failure(fault.value)
    ensures fault.None? && r.Failure? ==> r.error == notSingle
  {
    match fault
    case Some(m) => Failure(m)
    case None =>
      var matching := RowsWithId(rows, id);
      if |matching| == 1 then
        assert matching[0] in matching;
        Success(matching[0])
      else Failure(notSingle)
  }

  /** An empty table lists as success with no rows, not as a failure. */
  lemma ListEmptyTable()
    ensures ListEvents([], None) == Success([])
  {
  }

  /** A row whose id is unique in the table is exactly what a lookup of that id returns. */
  lemma {:induction false} LookupUnique(rows: seq<EventRow>, k: nat, notSingle: string)
    requires DistinctIds(rows) && k < |rows|
    ensures RowsWithId(rows, rows[k].id) == [rows[k]]
    ensures EventById(rows, rows[k].id, None, notSingle) == Success(rows[k])
  {
    var id := rows[k].id;
    if k == 0 {
      forall x | x in rows[1..] ensures !IdIs(id)(x) {
        var j :| 0 <= j < |rows[1..]| && rows[1..][j] == x;
        assert rows[j + 1] == x;
      }
      FilterNonePass(IdIs(id), rows[1..]);
    } else {
      assert DistinctIds(rows[1..]) by {
        forall i, j | 0 <= i < j < |rows| - 1 ensures rows[1..][i].id != rows[1..][j].id {
          assert rows[1..][i] == rows[i + 1] && rows[1..][j] == rows[j + 1];
        }
      }
      LookupUnique(rows[1..], k - 1, notSingle);
      assert rows[1..][k - 1] == rows[k];
      assert rows[0].id != id;
    }
  }

  /** Filtering the table keeps its ids distinct. */
  lemma {:induction false} FilterKeepsDistinct(p: EventRow -> bool, rows: seq<EventRow>)
    requires DistinctIds(rows)
    ensures DistinctIds(Filter(p, rows))
  {
    if rows == [] {
      return;
    }
    var rest := rows[1..];
    assert DistinctIds(rest) by {
      forall i, j | 0 <= i < j < |rest| ensures rest[i].id != rest[j].id {
        assert rest[i] == rows[i + 1] && rest[j] == rows[j + 1];
      }
    }
    FilterKeepsDistinct(p, rest);
    var fr := Filter(p, rest);
    if p(rows[0]) {
      var f := Filter(p, rows);
      assert f == [rows[0]] + fr;
      forall i, j | 0 <= i < j < |f| ensures f[i].id != f[j].id {
        if i == 0 {
          assert f[j] == fr[j - 1] && fr[j - 1] in fr;
          var k :| 0 <= k < |rest| && rest[k] == f[j];
          assert rows[k + 1] == f[j];
        } else {
          assert f[i] == fr[i - 1] && f[j] == fr[j - 1];
        }
      }
    }
  }

  /** The row just inserted under a fresh id is what a lookup of that id returns. */
  lemma FetchAfterInsert(rows: seq<EventRow>, row: EventRow, notSingle: string)
    requires forall x :: x in rows ==> x.id != row.id
    ensures RowsWithId(rows + [row], row.id) == [row]
    ensures EventById(rows + [row], row.id, None, notSingle) == Success(row)
  {
    FilterConcat(IdIs(row.id), rows, [row]);
    FilterNonePass(IdIs(row.id), rows);
    assert Filter(IdIs(row.id), [row]) == [row] + Filter(IdIs(row.id), []);
  }

  /**
   * Deleting by id removes exactly the rows with that id: the rest keep their order
   * and their number of occurrences, and a later lookup of the id fails.
   */
  lemma DeleteRowsSpec(rows: seq<EventRow>, id: EventId, fault: Option<string>, notSingle: string)
    ensures IsSubsequence(DeleteRows(rows, id), rows)
    ensures forall x :: multiset(DeleteRows(rows, id))[x] == if x.id == id then 0 else multiset(rows)[x]
    ensures RowsWithId(DeleteRows(rows, id), id) == []
    ensures EventById(DeleteRows(rows, id), id, fault, notSingle).Failure?
  {
    FilterSubsequence(IdIsNot(id), rows);
    forall x ensures multiset(DeleteRows(rows, id))[x] == if x.id == id then 0 else multiset(rows)[x] {
      FilterMultiplicity(IdIsNot(id), rows, x);
    }
    FilterNonePass(IdIs(id), DeleteRows(rows, id));
  }

  /**
   * `updateEvent` changes only the rows with the given id, and in them only the
   * columns the update names, each to the value given; ids and creators never change.
   */
  lemma UpdateRowsSpec(rows: seq<EventRow>, id: EventId, c: EventChanges, k: nat)
    requires k < |rows|
    ensures |UpdateRows(rows, id, c)| == |rows|
    ensures UpdateRows(rows, id, c)[k].id == rows[k].id
    ensures UpdateRows(rows, id, c)[k].createdBy == rows[k].createdBy
    ensures rows[k].id != id ==> UpdateRows(rows, id, c)[k] == rows[k]
    ensures rows[k].id == id ==>
      var u := UpdateRows(rows, id, c)[k];
      && u.title == c.title && u.sport == c.sport && u.status == c.status
      && u.eventDate == c.eventDate && u.eventTime == c.eventTime && u.venue == c.venue
      && u.homeTeam == c.homeTeam && u.awayTeam == c.awayTeam
      && (c.homeScore.Keep? ==> u.homeScore == rows[k].homeScore)
      && (c.awayScore.Keep? ==> u.awayScore == rows[k].awayScore)
      && (c.description.Keep? ==> u.description == rows[k].description)
      && (c.attendees.Keep? ==> u.attendees == rows[k].attendees)
      && (c.maxCapacity.Keep? ==> u.maxCapacity == rows[k].maxCapacity)
      && (c.homeScore.Put? ==> u.homeScore == c.homeScore.value)
      && (c.awayScore.Put? ==> u.awayScore == c.awayScore.value)
      && (c.description.Put? ==> u.description == Some(c.description.value))
      && (c.attendees.Put? ==> u.attendees == Some(c.attendees.value))
      && (c.maxCapacity.Put? ==> u.maxCapacity == Some(c.maxCapacity.value))
  {
  }

  /** Updating leaves ids where they were, so they stay distinct. */
  lemma UpdateKeepsDistinct(rows: seq<EventRow>, id: EventId, c: EventChanges)
    requires DistinctIds(rows)
    ensures DistinctIds(UpdateRows(rows, id, c))
    ensures forall x :: x in UpdateRows(rows, id, c) ==> exists y :: y in rows && y.id == x.id
  {
    var u := UpdateRows(rows, id, c);
    forall x | x in u ensures exists y :: y in rows && y.id == x.id {
      var k :| 0 <= k < |u| && u[k] == x;
      assert rows[k] in rows;
    }
  }

  /** Applying the same update twice is the same as applying it once. */
  lemma UpdateIdempotent(rows: seq<EventRow>, id: EventId, c: EventChanges)
    ensures UpdateRows(UpdateRows(rows, id, c), id, c) == UpdateRows(rows, id, c)
  {
  }

  /** The `events` table, with the backend's next fresh id and a count of dashboard revalidations. */
  class EventsTable {
    var rows: seq<EventRow>
    var nextId: nat
    var revalidations: nat

    ghost predicate Valid()
      reads this
    {
      DistinctIds(rows) && forall row :: row in rows ==> row.id < nextId
    }

    constructor ()
      ensures Valid() && rows == [] && revalidations == 0
    {
      rows, nextId, revalidations := [], 0, 0;
    }

    /**
     * `createEvent(input)`: with no user, fails before touching the table; otherwise
     * inserts one row stamped with the user's id and returns it.
     */
    method CreateEvent(user: Option<UserId>, input: NewEvent, fault: Option<string>) returns (r: ActionResponse<EventRow>)
      requires Valid()
      modifies this
      ensures Valid()
      ensures user.None? ==> r == Failure(NotAuthenticated)
      ensures user.Some? && fault.Some? ==> r == Failure(fault.value)
      ensures r.Failure? ==> rows == old(rows) && nextId == old(nextId) && revalidations == old(revalidations)
      ensures user.Some? && fault.None? ==> r == Success(Inserted(input, old(nextId), user.value))
      ensures r.Success? ==> (forall row :: row in old(rows) ==> row.id != r.data.id)
      ensures r.Success? ==> rows == old(rows) + [r.data] && revalidations == old(revalidations) + 1
    {
      if user.None? {
        return Failure(NotAuthenticated);
      }
      if fault.Some? {
        return Failure(fault.value);
      }
      var row := Inserted(input, nextId, user.value);
      rows := rows + [row];
      nextId := nextId + 1;
      revalidations := revalidations + 1;
      r := Success(row);
    }

    /** `updateEvent(id, changes)`: rewrites the matching rows; success carries no data. */
    method UpdateEvent(id: EventId, c: EventChanges, fault: Option<string>) returns (r: ActionResponse<()>)
      requires Valid()
      modifies this
      ensures Valid() && nextId == old(nextId)
      ensures fault.Some? ==> r == Failure(fault.value) && rows == old(rows) && revalidations == old(revalidations)
      ensures fault.None? ==> r == Success(()) && rows == UpdateRows(old(rows), id, c) && revalidations == old(revalidations) + 1
    {
      if fault.Some? {
        return Failure(fault.value);
      }
      UpdateKeepsDistinct(rows, id, c);
      rows := UpdateRows(rows, id, c);
      revalidations := revalidations + 1;
      r := Success(());
    }

    /** `deleteEvent(id)`: removes the rows with that id; success carries no data. */
    method DeleteEvent(id: EventId, fault: Option<string>) returns (r: ActionResponse<()>)
      requires Valid()
      modifies this
      ensures Valid() && nextId == old(nextId)
      ensures fault.Some? ==> r == Failure(fault.value) && rows == old(rows) && revalidations == old(revalidations)
      ensures fault.None? ==> r == Success(()) && rows == DeleteRows(old(rows), id) && revalidations == old(revalidations) + 1
    {
      if fault.Some? {
        return Failure(fault.value);
      }
      FilterKeepsDistinct(IdIsNot(id), rows);
      rows := DeleteRows(rows, id);
      revalidations := revalidations + 1;
      r := Success(());
    }
  }

  /** Create, read back, record a result, delete, and read again, as a caller sees it. */
  method LifecycleScenario(notSingle: string) {
    var table := new EventsTable();
    var input := NewEvent("Lakers vs Warriors", "Basketball", "upcoming", "2025-10-27", "19:30",
                          "", "Lakers", "Warriors", None, Some(20000));
    var anonymous := table.CreateEvent(None, input, None);
    assert anonymous == Failure(NotAuthenticated) && table.rows == [];

    var created := table.CreateEvent(Some("u1"), input, None);
    var row := created.data;
    FetchAfterInsert([], row, notSingle);
    var fetched := EventById(table.rows, row.id, None, notSingle);
    assert fetched == Success(row) && Submitted(row) == input;
    assert row.createdBy == "u1" && row.attendees.None?;

    var changes := EventChanges("Lakers vs Warriors", "Basketball", "completed", "2025-10-27", "19:30",
                                "", "Lakers", "Warriors", Put(Some(102)), Put(Some(98)), Keep, Keep, Put(20000));
    var updated := table.UpdateEvent(row.id, changes, None);
    assert updated == Success(());
    var after := table.rows[0];
    assert table.rows == [after];
    assert after.status == "completed" && after.homeScore == Some(102) && after.awayScore == Some(98);
    assert after.createdBy == "u1";

    var deleted := table.DeleteEvent(row.id, None);
    assert deleted == Success(());
    DeleteRowsSpec([after], row.id, None, notSingle);
    assert EventById(table.rows, row.id, None, notSingle).Failure?;
  }
}
