/** The core types of the dashboard (lib/types.ts) and the identifiers shared by the tables. */
module Types {
  import opened Wrappers

  /** Event identifiers are assigned by the backend; the model draws them from a counter. */
  type EventId = nat
  type VenueId = nat
  /** The identifier of a signed-in user, as the identity provider reports it. */
  type UserId = string

  datatype Sport = Basketball | Football | Soccer | Baseball | Tennis

  datatype EventStatus = Upcoming | Live | Completed

  /** The string a `SportType` value is at run time. */
  function SportName(s: Sport): string {
    match s
    case Basketball => "Basketball"
    case Football => "Football"
    case Soccer => "Soccer"
    case Baseball => "Baseball"
    case Tennis => "Tennis"
  }

  /** The string an `EventStatus` value is at run time. */
  function StatusName(s: EventStatus): string {
    match s
    case Upcoming => "upcoming"
    case Live => "live"
    case Completed => "completed"
  }

  /** The sport a string names, if it names one. */
  function SportOf(name: string): (r: Option<Sport>)
    ensures r.Some? ==> SportName(r.value) == name
    ensures r.None? ==> forall s :: SportName(s) != name
  {
    if name == "Basketball" then Some(Basketball)
    else if name == "Football" then Some(Football)
    else if name == "Soccer" then Some(Soccer)
    else if name == "Baseball" then Some(Baseball)
    else if name == "Tennis" then Some(Tennis)
    else None
  }

  /** The status a string names, if it names one. */
  function StatusOf(name: string): (r: Option<EventStatus>)
    ensures r.Some? ==> StatusName(r.value) == name
    ensures r.None? ==> forall s :: StatusName(s) != name
  {
    if name == "upcoming" then Some(Upcoming)
    else if name == "live" then Some(Live)
    else if name == "completed" then Some(Completed)
    else None
  }

  predicate IsSportName(name: string) {
    SportOf(name).Some?
  }

  predicate IsStatusName(name: string) {
    StatusOf(name).Some?
  }

  /** Names are distinct, so reading a name back gives the value it came from. */
  lemma NamesRoundTrip(sp: Sport, st: EventStatus)
    ensures SportOf(SportName(sp)) == Some(sp)
    ensures StatusOf(StatusName(st)) == Some(st)
  {
  }

  /**
   * `Event` as the dashboard holds it. The source types `sport` and `status` as
   * `SportType` and `EventStatus`, but fills them with unchecked casts from the
   * backend's text columns, so the model keeps the strings; `IsSportName` and
   * `IsStatusName` say when they are values of those types.
   */
  datatype Event = Event(
    id: EventId,
    title: string,
    sport: string,
    status: string,
    date: string,
    time: string,
    venue: string,
    homeTeam: string,
    awayTeam: string,
    homeScore: Option<int>,
    awayScore: Option<int>,
    description: Option<string>,
    attendees: Option<int>,
    maxCapacity: Option<int>)
}
