/**
 * The venue server actions (actions/venues.ts) over an in-memory `venues` table
 * and the `event_venues` join table.
 */
module Venues {
  import opened Wrappers
  import opened Types
  import opened ActionHelpers
  import opened Seqs
  import opened Ordering

  datatype Venue = Venue(
    id: VenueId,
    name: string,
    city: string,
    state: Option<string>,
    country: string,
    capacity: Option<int>,
    createdAt: string)

  /** A row of `event_venues`: the event takes place at the venue. */
  datatype Link = Link(eventId: EventId, venueId: VenueId)

  /**
   * What one backend call does: succeeds, comes back with an error message, or
   * throws. A call that throws is taken to have had no effect.
   */
  datatype Reply = Ok | Rejects(message: string) | Raises

  /** The failure `setEventVenues` reports for a step that did not succeed. */
  function ReplyError(reply: Reply): string
    requires !reply.Ok?
  {
    match reply
    case Rejects(m) => m
    case Raises => UnexpectedError
  }

  function NameKey(v: Venue): string {
    v.name
  }

  function VenueIdOf(v: Venue): VenueId {
    v.id
  }

  function LinkedVenue(l: Link): VenueId {
    l.venueId
  }

  function ForEvent(e: EventId): Link -> bool {
    (l: Link) => l.eventId == e
  }

  function NotForEvent(e: EventId): Link -> bool {
    (l: Link) => l.eventId != e
  }

  function LinkTo(e: EventId): VenueId -> Link {
    (v: VenueId) => Link(e, v)
  }

  /** The link rows `.eq('event_id', e)` selects. */
  function LinksOf(links: seq<Link>, e: EventId): seq<Link> {
    Filter(ForEvent(e), links)
  }

  /** The link rows `.delete().eq('event_id', e)` leaves. */
  function LinksNotOf(links: seq<Link>, e: EventId): seq<Link> {
    Filter(NotForEvent(e), links)
  }

  /**
   * The rows `venueIds.map(venueId => ({ event_id: e, venue_id: venueId }))` inserts:
   * one per id, each linking `e` to an id of the list.
   */
  function NewLinks(e: EventId, ids: seq<VenueId>): (r: seq<Link>)
    ensures |r| == |ids|
    ensures forall l :: l in r <==> l.eventId == e && l.venueId in ids
  {
    var r := Map(LinkTo(e), ids);
    assert forall l :: l in r <==> l.eventId == e && l.venueId in ids by {
      forall l ensures l in r <==> l.eventId == e && l.venueId in ids {
        if l in r {
          var i :| 0 <= i < |r| && r[i] == l;
          assert ids[i] in ids;
        }
        if l.eventId == e && l.venueId in ids {
          var i :| 0 <= i < |ids| && ids[i] == l.venueId;
          assert r[i] == l;
        }
      }
    }
    r
  }

  /**
   * The link table after a `setEventVenues(e, ids)` whose two steps both succeed:
   * the links of other events, and a link from `e` to each id of the list.
   */
  function ReplaceLinks(links: seq<Link>, e: EventId, ids: seq<VenueId>): (r: seq<Link>)
    ensures forall l :: l in r <==> (l in links && l.eventId != e) || (l.eventId == e && l.venueId in ids)
  {
    FilterMembershipAll(NotForEvent(e), links);
    LinksNotOf(links, e) + NewLinks(e, ids)
  }

  /** `getVenues()`: every venue, ordered by name, or the backend's message. */
  function ListVenues(venues: seq<Venue>, fault: Option<string>): (r: ActionResponse<seq<Venue>>)
    ensures fault.Some? ==> r == Failure(fault.value)
    ensures fault.None? ==> r.Success? && SortedBy(NameKey, r.data) && multiset(r.data) == multiset(venues)
  {
    match fault
    case Some(m) => Failure(m)
    case None => SortBySorted(NameKey, venues); Success(SortBy(NameKey, venues))
  }

  /** The venue the join `venues (*)` finds for an id, or `null` when the link dangles. */
  function FindVenue(venues: seq<Venue>, id: VenueId): (r: Option<Venue>)
    ensures r.Some? ==> r.value in venues && r.value.id == id
    ensures r.None? ==> forall v :: v in venues ==> v.id != id
  {
    if venues == [] then None
    else if venues[0].id == id then Some(venues[0])
    else FindVenue(venues[1..], id)
  }

  /** The link's venue exists, so the join `venues (*)` is not `null`. */
  function Resolves(venues: seq<Venue>): Link -> bool {
    (l: Link) => FindVenue(venues, l.venueId).Some?
  }

  /** `links.map(ev => ev.venues).filter(Boolean)`: the joined venues, dangling links dropped. */
  function JoinVenues(links: seq<Link>, venues: seq<Venue>): (r: seq<Venue>)
    ensures |r| <= |links|
    ensures forall v :: v in r ==> v in venues && exists l :: l in links && l.venueId == v.id
  {
    if links == [] then []
    else
      var joined := match FindVenue(venues, links[0].venueId)
                    case Some(v) => [v]
                    case None => [];
      joined + JoinVenues(links[1..], venues)
  }

  /**
   * `getEventVenues(e)`: the venues linked to `e`; never more than `e` has links,
   * and each of them is a stored venue that some link of `e` points at.
   */
  function EventVenues(links: seq<Link>, venues: seq<Venue>, e: EventId, fault: Option<string>): (r: ActionResponse<seq<Venue>>)
    ensures fault.Some? ==> r == Failure(fault.value)
    ensures fault.None? ==> r.Success?
    ensures r.Success? ==> |r.data| <= |LinksOf(links, e)|
    ensures r.Success? ==> forall v :: v in r.data ==> v in venues && Link(e, v.id) in links
    ensures r.Success? ==> Map(VenueIdOf, r.data) == Map(LinkedVenue, Filter(Resolves(venues), LinksOf(links, e)))
  {
    match fault
    case Some(m) => Failure(m)
    case None =>
      var mine := LinksOf(links, e);
      var r := JoinVenues(mine, venues);
      JoinVenuesExact(mine, venues);
      assert forall v :: v in r ==> Link(e, v.id) in links by {
        forall v | v in r ensures Link(e, v.id) in links {
          var l :| l in mine && l.venueId == v.id;
          assert l == Link(e, v.id);
        }
      }
      Success(r)
  }

  /**
   * The join drops exactly the dangling links: the venue ids it returns are those
   * of the links whose venue exists, in link order.
   */
  lemma {:induction false} JoinVenuesExact(links: seq<Link>, venues: seq<Venue>)
    ensures Map(VenueIdOf, JoinVenues(links, venues)) == Map(LinkedVenue, Filter(Resolves(venues), links))
  {
    if links != [] {
      JoinVenuesExact(links[1..], venues);
      var found := FindVenue(venues, links[0].venueId);
      var joined := if found.Some? then [found.value] else [];
      var kept := if found.Some? then [links[0]] else [];
      var rest := JoinVenues(links[1..], venues);
      var keptRest := Filter(Resolves(venues), links[1..]);
      assert JoinVenues(links, venues) == joined + rest;
      assert Filter(Resolves(venues), links) == kept + keptRest;
      MapConcat(VenueIdOf, joined, rest);
      MapConcat(LinkedVenue, kept, keptRest);
      assert Map(VenueIdOf, joined) == Map(LinkedVenue, kept);
    }
  }

  /** When no link of `e` dangles, every link of `e` gives one venue. */
  lemma {:induction false} JoinVenuesComplete(links: seq<Link>, venues: seq<Venue>)
    requires forall l :: l in links ==> FindVenue(venues, l.venueId).Some?
    ensures |JoinVenues(links, venues)| == |links|
    ensures Map(VenueIdOf, JoinVenues(links, venues)) == Map(LinkedVenue, links)
  {
    if links != [] {
      assert forall l :: l in links[1..] ==> l in links;
      JoinVenuesComplete(links[1..], venues);
      var v := FindVenue(venues, links[0].venueId).value;
      assert JoinVenues(links, venues) == [v] + JoinVenues(links[1..], venues);
    }
  }

  /**
   * After a successful replace, the links of `e` are exactly the new ones, in the
   * order given, and every other event keeps its links.
   */
  lemma ReplaceLinksSpec(links: seq<Link>, e: EventId, ids: seq<VenueId>, other: EventId)
    requires other != e
    ensures LinksOf(ReplaceLinks(links, e, ids), e) == NewLinks(e, ids)
    ensures Map(LinkedVenue, LinksOf(ReplaceLinks(links, e, ids), e)) == ids
    ensures LinksNotOf(ReplaceLinks(links, e, ids), e) == LinksNotOf(links, e)
    ensures LinksOf(ReplaceLinks(links, e, ids), other) == LinksOf(links, other)
  {
    var kept := LinksNotOf(links, e);
    var added := NewLinks(e, ids);
    FilterConcat(ForEvent(e), kept, added);
    FilterConcat(NotForEvent(e), kept, added);
    FilterConcat(ForEvent(other), kept, added);
    FilterNonePass(ForEvent(e), kept);
    FilterAllPass(ForEvent(e), added);
    FilterIdempotent(NotForEvent(e), links);
    FilterNonePass(NotForEvent(e), added);
    FilterNonePass(ForEvent(other), added);
    FilterStrengthen(ForEvent(other), NotForEvent(e), links);
    assert Map(LinkedVenue, added) == ids;
  }

  /** Replacing with an empty list leaves `e` without links. */
  lemma ClearLinks(links: seq<Link>, e: EventId)
    ensures LinksOf(ReplaceLinks(links, e, []), e) == []
  {
    FilterNonePass(ForEvent(e), LinksNotOf(links, e));
    assert ReplaceLinks(links, e, []) == LinksNotOf(links, e);
  }

  /** After the delete step alone, `e` has no links left. */
  lemma DeleteStepLeavesNoLinks(links: seq<Link>, e: EventId)
    ensures LinksOf(LinksNotOf(links, e), e) == []
  {
    FilterNonePass(ForEvent(e), LinksNotOf(links, e));
  }

  /** Setting the same venues twice in a row gives the same table as setting them once. */
  lemma ReplaceLinksIdempotent(links: seq<Link>, e: EventId, ids: seq<VenueId>)
    ensures ReplaceLinks(ReplaceLinks(links, e, ids), e, ids) == ReplaceLinks(links, e, ids)
  {
    var kept := LinksNotOf(links, e);
    var added := NewLinks(e, ids);
    calc {
      LinksNotOf(ReplaceLinks(links, e, ids), e);
      Filter(NotForEvent(e), kept + added);
      { FilterConcat(NotForEvent(e), kept, added); }
      Filter(NotForEvent(e), kept) + Filter(NotForEvent(e), added);
      { FilterIdempotent(NotForEvent(e), links); FilterNonePass(NotForEvent(e), added); }
      kept + [];
      kept;
    }
  }

  /** Reading back after a successful set gives the venues set, in order, when none dangles. */
  lemma SetThenGet(links: seq<Link>, venues: seq<Venue>, e: EventId, ids: seq<VenueId>)
    requires forall id :: id in ids ==> FindVenue(venues, id).Some?
    ensures EventVenues(ReplaceLinks(links, e, ids), venues, e, None).Success?
    ensures Map(VenueIdOf, EventVenues(ReplaceLinks(links, e, ids), venues, e, None).data) == ids
  {
    ReplaceLinksSpec(links, e, ids, e + 1);
    var added := NewLinks(e, ids);
    forall l | l in added ensures FindVenue(venues, l.venueId).Some? {
      var k :| 0 <= k < |added| && added[k] == l;
      assert ids[k] in ids;
    }
    JoinVenuesComplete(added, venues);
  }

  /**
   * The select behind `getEventVenues` has no `.order`, so the backend may return
   * the event's link rows in any order: whatever order it picks, reading back after
   * a successful set gives each venue set as often as it was set.
   */
  lemma SetThenGetAnyOrder(links: seq<Link>, venues: seq<Venue>, e: EventId, ids: seq<VenueId>, fetched: seq<Link>)
    requires forall id :: id in ids ==> FindVenue(venues, id).Some?
    requires multiset(fetched) == multiset(LinksOf(ReplaceLinks(links, e, ids), e))
    ensures multiset(Map<Venue, VenueId>(VenueIdOf, JoinVenues(fetched, venues))) == multiset(ids)
  {
    ReplaceLinksSpec(links, e, ids, e + 1);
    ReorderedNewLinks(fetched, e, ids);
    JoinVenuesComplete(fetched, venues);
  }

  /** Any reordering of the links built for `ids` names each id as often as `ids` does. */
  lemma ReorderedNewLinks(fetched: seq<Link>, e: EventId, ids: seq<VenueId>)
    requires multiset(fetched) == multiset(NewLinks(e, ids))
    ensures forall l :: l in fetched ==> l.eventId == e && l.venueId in ids
    ensures multiset(Map<Link, VenueId>(LinkedVenue, fetched)) == multiset(ids)
  {
    forall l | l in fetched ensures l.eventId == e && l.venueId in ids {
      assert l in multiset(NewLinks(e, ids));
    }
    forall v ensures multiset(Map<Link, VenueId>(LinkedVenue, fetched))[v] == multiset(ids)[v] {
      LinkedVenueMultiplicity(fetched, e, v);
      NewLinksMultiplicity(e, ids, v);
    }
    assert multiset(Map<Link, VenueId>(LinkedVenue, fetched)) == multiset(ids);
  }

  /** Each occurrence of an id gives one link row joining it to the event. */
  lemma {:induction false} NewLinksMultiplicity(e: EventId, ids: seq<VenueId>, v: VenueId)
    ensures multiset(NewLinks(e, ids))[Link(e, v)] == multiset(ids)[v]
  {
    if ids != [] {
      NewLinksMultiplicity(e, ids[1..], v);
      assert ids == [ids[0]] + ids[1..];
      assert NewLinks(e, ids) == [Link(e, ids[0])] + NewLinks(e, ids[1..]);
    }
  }

  /** Over one event's link rows, a venue id occurs as often as its row does. */
  lemma {:induction false} LinkedVenueMultiplicity(fetched: seq<Link>, e: EventId, v: VenueId)
    requires forall l :: l in fetched ==> l.eventId == e
    ensures multiset(Map<Link, VenueId>(LinkedVenue, fetched))[v] == multiset(fetched)[Link(e, v)]
  {
    if fetched != [] {
      assert fetched[0] in fetched;
      LinkedVenueMultiplicity(fetched[1..], e, v);
      assert fetched == [fetched[0]] + fetched[1..];
    }
  }

  /** The `venues` table and the `event_venues` join table. */
  class VenueStore {
    var venues: seq<Venue>
    var links: seq<Link>

    constructor (venues: seq<Venue>, links: seq<Link>)
      ensures this.venues == venues && this.links == links
    {
      this.venues := venues;
      this.links := links;
    }

    /**
     * `setEventVenues(e, ids)`: delete the links of `e`, then insert the new ones
     * if there are any. The two steps are separate calls: when the insert fails
     * after the delete succeeded, `e` is left with no links and failure is reported.
     */
    method SetEventVenues(e: EventId, ids: seq<VenueId>, deleteReply: Reply, insertReply: Reply)
      returns (r: ActionResponse<()>)
      modifies this`links
      ensures !deleteReply.Ok? ==> r == Failure(ReplyError(deleteReply)) && links == old(links)
      ensures deleteReply.Ok? && (ids == [] || insertReply.Ok?) ==>
                r == Success(()) && links == ReplaceLinks(old(links), e, ids)
      ensures deleteReply.Ok? && ids != [] && !insertReply.Ok? ==>
                r == Failure(ReplyError(insertReply)) && links == LinksNotOf(old(links), e)
    {
      if !deleteReply.Ok? {
        return Failure(ReplyError(deleteReply));
      }
      links := LinksNotOf(links, e);
      if |ids| > 0 {
        if !insertReply.Ok? {
          return Failure(ReplyError(insertReply));
        }
        links := links + NewLinks(e, ids);
      }
      r := Success(());
    }
  }

  /** Two fault-free calls in a row leave the same links as one. */
  method SetTwiceScenario(store: VenueStore, e: EventId, ids: seq<VenueId>)
    modifies store
  {
    var before := store.links;
    var first := store.SetEventVenues(e, ids, Ok, Ok);
    var once := store.links;
    var second := store.SetEventVenues(e, ids, Ok, Ok);
    ReplaceLinksIdempotent(before, e, ids);
    assert first == second == Success(());
    assert store.links == once == ReplaceLinks(before, e, ids);
  }
}
