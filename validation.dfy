/**
 * The two form schemas (lib/validations/event.ts) as validity predicates over a
 * record of optional fields, and the parse that a valid create form yields.
 * Numbers arrive already converted (no `z.coerce`), as exact reals, so that
 * `.int()` is a real check. String bounds count UTF-16 code units, as Zod's
 * `.min`/`.max` compare JavaScript's `length`.
 */
module EventValidation {
  import opened Wrappers
  import opened Types
  import opened Strings

  /** The keys `eventFormSchema` reads; `None` is an absent key. */
  datatype EventForm = EventForm(
    title: Option<string>,
    sport: Option<string>,
    status: Option<string>,
    eventDate: Option<string>,
    eventTime: Option<string>,
    venue: Option<string>,
    homeTeam: Option<string>,
    awayTeam: Option<string>,
    description: Option<string>,
    maxCapacity: Option<real>)

  /** A key that may be absent, `null`, or hold a value. */
  datatype Nullable<T> = Absent | Null | Present(value: T)

  /** The keys `eventEditFormSchema` reads: those of the create form and three more. */
  datatype EventEditForm = EventEditForm(
    base: EventForm,
    homeScore: Nullable<real>,
    awayScore: Nullable<real>,
    attendees: Option<real>)

  const TitleMax := 100
  const VenueMax := 200
  const TeamMax := 100

  /** `z.number().int().min(0)`. */
  predicate NonNegativeInteger(x: real) {
    x >= 0.0 && x.Floor as real == x
  }

  /** A present string whose `length` is between `lo` and `hi`. */
  predicate Bounded(s: Option<string>, lo: nat, hi: nat) {
    s.Some? && lo <= Utf16Length(s.value) <= hi
  }

  /** `z.string().min(1)`. */
  predicate Required(s: Option<string>) {
    s.Some? && Utf16Length(s.value) >= 1
  }

  predicate OptionalNonNegativeInteger(x: Option<real>) {
    x.None? || NonNegativeInteger(x.value)
  }

  predicate NullableNonNegativeInteger(x: Nullable<real>) {
    !x.Present? || NonNegativeInteger(x.value)
  }

  /**
   * `eventFormSchema` accepts the form. `description` may be absent or any string.
   * An accepted form has every required key, names a `SportType` and an
   * `EventStatus`, and has no title or team name longer than 100 characters.
   */
  predicate EventFormValid(f: EventForm): (b: bool)
    ensures b ==> f.title.Some? && f.eventDate.Some? && f.eventTime.Some? && f.homeTeam.Some? && f.awayTeam.Some?
    ensures b ==> f.sport.Some? && SportOf(f.sport.value).Some? && f.status.Some? && StatusOf(f.status.value).Some?
    ensures b ==> |f.title.value| <= TitleMax && |f.homeTeam.value| <= TeamMax && |f.awayTeam.value| <= TeamMax
  {
    && Bounded(f.title, 1, TitleMax)
    && f.sport.Some? && IsSportName(f.sport.value)
    && f.status.Some? && IsStatusName(f.status.value)
    && Required(f.eventDate)
    && Required(f.eventTime)
    && (f.venue.None? || Utf16Length(f.venue.value) <= VenueMax)
    && Bounded(f.homeTeam, 1, TeamMax)
    && Bounded(f.awayTeam, 1, TeamMax)
    && OptionalNonNegativeInteger(f.maxCapacity)
  }

  /**
   * `eventEditFormSchema` accepts the form: it extends the create schema, so the
   * create keys must be valid, and it is no stricter when the new keys are absent.
   */
  predicate EventEditFormValid(e: EventEditForm): (b: bool)
    ensures b ==> EventFormValid(e.base)
    ensures e.homeScore.Absent? && e.awayScore.Absent? && e.attendees.None? ==> (b <==> EventFormValid(e.base))
    ensures b && e.homeScore.Present? ==> e.homeScore.value >= 0.0 && e.homeScore.value.Floor as real == e.homeScore.value
    ensures b && e.awayScore.Present? ==> e.awayScore.value >= 0.0 && e.awayScore.value.Floor as real == e.awayScore.value
  {
    && EventFormValid(e.base)
    && NullableNonNegativeInteger(e.homeScore)
    && NullableNonNegativeInteger(e.awayScore)
    && OptionalNonNegativeInteger(e.attendees)
  }

  /** What a successful parse of the create form yields (`EventFormValues`). */
  datatype EventFormValues = EventFormValues(
    title: string,
    sport: Sport,
    status: EventStatus,
    eventDate: string,
    eventTime: string,
    venue: Option<string>,
    homeTeam: string,
    awayTeam: string,
    description: Option<string>,
    maxCapacity: Option<nat>)

  /** The form a set of values came from. */
  function FormOf(v: EventFormValues): EventForm {
    EventForm(Some(v.title), Some(SportName(v.sport)), Some(StatusName(v.status)),
              Some(v.eventDate), Some(v.eventTime), v.venue, Some(v.homeTeam), Some(v.awayTeam),
              v.description, if v.maxCapacity.Some? then Some(v.maxCapacity.value as real) else None)
  }

  /** The values respect the bounds the schema checks. */
  predicate InBounds(v: EventFormValues) {
    && 1 <= Utf16Length(v.title) <= TitleMax
    && Utf16Length(v.eventDate) >= 1 && Utf16Length(v.eventTime) >= 1
    && (v.venue.None? || Utf16Length(v.venue.value) <= VenueMax)
    && 1 <= Utf16Length(v.homeTeam) <= TeamMax && 1 <= Utf16Length(v.awayTeam) <= TeamMax
  }

  /** `eventFormSchema.safeParse(f)`: the typed values when the form is valid. */
  function ParseEventForm(f: EventForm): (r: Option<EventFormValues>)
    ensures r.Some? <==> EventFormValid(f)
    ensures r.Some? ==> FormOf(r.value) == f && InBounds(r.value)
  {
    if !EventFormValid(f) then None
    else
      var capacity: Option<nat> := if f.maxCapacity.Some? then Some(f.maxCapacity.value.Floor) else None;
      Some(EventFormValues(f.title.value, SportOf(f.sport.value).value, StatusOf(f.status.value).value,
                           f.eventDate.value, f.eventTime.value, f.venue, f.homeTeam.value, f.awayTeam.value,
                           f.description, capacity))
  }

  /** Every in-bounds value set is accepted and parses back to itself. */
  lemma ParseFormOf(v: EventFormValues)
    requires InBounds(v)
    ensures ParseEventForm(FormOf(v)) == Some(v)
  {
    NamesRoundTrip(v.sport, v.status);
  }

  /**
   * The edit schema extends the create schema: an edit-valid form restricted to
   * the create keys is create-valid, and a create-valid form with the extra keys
   * absent is edit-valid.
   */
  lemma EditExtendsCreate(e: EventEditForm, f: EventForm)
    ensures EventEditFormValid(e) ==> EventFormValid(e.base)
    ensures EventFormValid(f) <==> EventEditFormValid(EventEditForm(f, Absent, Absent, None))
  {
  }

  /** The scores of an edit form may be `null`; a negative or fractional one is refused. */
  lemma ScoresInEditForm(f: EventForm)
    requires EventFormValid(f)
    ensures EventEditFormValid(EventEditForm(f, Null, Null, None))
    ensures !EventEditFormValid(EventEditForm(f, Present(-1.0), Absent, None))
    ensures !EventEditFormValid(EventEditForm(f, Absent, Present(2.5), None))
  {
  }

  /**
   * A form is valid when its strings are short enough whatever characters they
   * hold: a code point takes at most two UTF-16 code units, so half the bound in
   * characters always fits.
   */
  lemma ValidWhenShort(f: EventForm)
    requires f.title.Some? && 1 <= |f.title.value| && 2 * |f.title.value| <= TitleMax
    requires f.homeTeam.Some? && 1 <= |f.homeTeam.value| && 2 * |f.homeTeam.value| <= TeamMax
    requires f.awayTeam.Some? && 1 <= |f.awayTeam.value| && 2 * |f.awayTeam.value| <= TeamMax
    requires f.eventDate.Some? && f.eventDate.value != [] && f.eventTime.Some? && f.eventTime.value != []
    requires f.venue.None? || 2 * |f.venue.value| <= VenueMax
    requires f.sport.Some? && IsSportName(f.sport.value) && f.status.Some? && IsStatusName(f.status.value)
    requires OptionalNonNegativeInteger(f.maxCapacity)
    ensures EventFormValid(f)
  {
  }

  /** The example fixture is a valid create form. */
  lemma ExampleFormValid()
    ensures EventFormValid(EventForm(Some("Lakers vs Warriors"), Some("Basketball"), Some("upcoming"),
                                     Some("2025-10-27"), Some("19:30"), None, Some("Lakers"), Some("Warriors"),
                                     None, Some(20000.0)))
  {
    ValidWhenShort(EventForm(Some("Lakers vs Warriors"), Some("Basketball"), Some("upcoming"),
                             Some("2025-10-27"), Some("19:30"), None, Some("Lakers"), Some("Warriors"),
                             None, Some(20000.0)));
  }

  /** A 101-character title is refused. */
  lemma LongTitleRefused(long: string)
    requires |long| == 101
    ensures !EventFormValid(EventForm(Some(long), Some("Basketball"), Some("upcoming"),
                                      Some("2025-10-27"), Some("19:30"), None, Some("Lakers"), Some("Warriors"),
                                      None, None))
  {
  }

  /** 100 emoji are 100 characters but 200 UTF-16 code units, so the title is refused. */
  lemma EmojiTitleRefused(emoji: string)
    requires |emoji| == 100 && forall i :: 0 <= i < |emoji| ==> emoji[i] == '\U{1F600}'
    ensures !EventFormValid(EventForm(Some(emoji), Some("Basketball"), Some("upcoming"),
                                      Some("2025-10-27"), Some("19:30"), None, Some("Lakers"), Some("Warriors"),
                                      None, None))
  {
    Utf16LengthIsCount(emoji);
  }
}
