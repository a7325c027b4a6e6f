# Fastbreak event dashboard — a Dafny model

This project models the logic of the Fastbreak sports-event dashboard:

- **Response envelope.** Every server action returns a two-case response, either success with data or failure with a message. The model covers the helpers that build it (`safeAction`), test it, unwrap it and dispatch on it.
- **Event actions.** These list, fetch, create (stamping the signed-in user), update and delete rows of the `events` table.
- **Venue link table.** An event is linked to venues through a join table. The model covers listing venues, joining an event's links to their venue rows, and the two-step delete-then-insert that replaces an event's links.
- **Event form schemas.** The create-form and edit-form Zod schemas become validity predicates.
- **Dashboard page.** It maps each table row to an `Event`, filters by search text, sport and status, and counts events per status. It also computes the avatar initials and updates its local list after a delete.
- **Multi-select component.** It filters options by label, and selects or removes values.

The backend is an in-memory value. Each call's behaviour comes from inputs:

- the signed-in user is an `Option<UserId>`;
- each query's outcome is an `Option<string>`, whose `Some(m)` means "the backend returned error `m`";
- for the venue steps, the outcome is a `Reply`: `Ok`, `Rejects(m)`, or `Raises` for a throw caught by the action's `catch`.

Objects the source updates in place are classes with `modifies` frames:

- `Events.EventsTable` for the events table;
- `Venues.VenueStore` for the venue and link tables;
- `Dashboard.DashboardPage` for the page's `events` state.

Everything that only computes is a function, with lemmas relating it to an independent statement of what it promises. Modules:

| module | file | models |
|---|---|---|
| `Wrappers` | wrappers.dfy | `Option` |
| `Seqs` | seqs.dfy | `Array.prototype.filter` / `map` and their algebra (sub-sequence, membership, multiplicity, concatenation) |
| `Strings` | strings.dfy | ASCII `toLowerCase`/`toUpperCase`, `includes`, code-point ordering, UTF-16 `length`, `split(' ')` (with a space join used only to state its inverse) |
| `Ordering` | ordering.dfy | `.order(column, { ascending: true })` as a stable sort: sorted, a permutation, commutes with filtering |
| `Types` | types.dfy | `SportType`, `EventStatus`, `Event` |
| `ActionHelpers` | action_helpers.dfy | `ActionResponse`, `safeAction`, the guards, `unwrapResponse`, `handleResponse` |
| `Events` | events.dfy | the `events` table and its five actions |
| `Venues` | venues.dfy | `venues`, `event_venues` and the three venue actions |
| `EventValidation` | validation.dfy | `eventFormSchema`, `eventEditFormSchema` |
| `Dashboard` | dashboard.dfy | the dashboard page's transform, filter, counters, initials and delete handler |
| `MultiSelect` | multi_select.dfy | `filteredOptions`, `handleSelect`, `handleRemove` |

Notes on how the model reads the code:

- **Unchecked casts.** Event rows keep `sport` and `status` as text, because the source's `as SportType` / `as EventStatus` casts check nothing. So the status counters add up to the total only when every status is one of the three names.
- **Row order.** PostgreSQL leaves unspecified the order of rows that no `.order` ranks: rows with equal `event_date`, and all rows of the `event_venues` select, which has no `.order`. The model returns such rows in its table order, a choice the backend does not promise. `Events.ListEvents` promises only sorted and a permutation. `Dashboard.DashboardPage.FetchData`, `Dashboard.DeleteAgreesWithRefetch`, `Venues.EventVenues` and `Venues.SetThenGet` rely on the model's order. `Dashboard.DeleteAgreesWithAnyRefetch` and `Venues.SetThenGetAnyOrder` hold for any order.
- **Failure of `.single()`.** When the id does not match exactly one row, the backend's error text is a parameter (`notSingle`).
- **String lengths.** Zod's `min`/`max` count JavaScript `length`, that is UTF-16 code units, so a character above U+FFFF counts twice.
- **`getUserInitials`.** `"".split(' ')` gives `[""]`, and `undefined` joins as the empty string. So a name made only of spaces yields `""`, not `'U'`. The model keeps that behaviour.

## Model

| member | source | states |
|---|---|---|
| ActionHelpers.SafeAction | lib/action-helpers.ts:19-32 | success exactly when the action returns, carrying its value; a thrown `Error` gives its message, any other throw the fixed "An unexpected error occurred" |
| ActionHelpers.IsSuccessResponse | lib/action-helpers.ts:37-50 | holds exactly when `isErrorResponse` does not, so one of the two guards holds for every response |
| ActionHelpers.UnwrapResponse | lib/action-helpers.ts:55-60 | a success unwraps to its data; a failure throws an `Error` with the response's message |
| ActionHelpers.UnwrapSafeAction | lib/action-helpers.ts:19-32 | unwrapping `safeAction(f)` gives f's value back, re-throws f's `Error` message unchanged, and turns a non-`Error` throw into the fixed message |
| ActionHelpers.SafeActionUnwrap | lib/action-helpers.ts:19-60 | wrapping the unwrap of any response gives the same response back |
| ActionHelpers.HandleResponse | lib/action-helpers.ts:65-77 | exactly one handler is called: `onSuccess` with the data on success, or `onError` with the error string |
| ActionHelpers.HandleSafeAction | lib/action-helpers.ts:19-77 | dispatching `safeAction(f)` calls `onSuccess(value)` when f returns and `onError(message)` when it throws |
| Types.SportOf | lib/types.ts:3 | a sport name is recognised exactly when some `SportType` has that name |
| Types.StatusOf | lib/types.ts:5 | a status name is recognised exactly when some `EventStatus` has that name |
| Types.NamesRoundTrip | lib/types.ts:3-5 | reading back the name of a sport or status gives the same value |
| Events.ListEvents | actions/events.ts:10-24 | a backend error becomes failure with its message; otherwise success with all rows, ordered by `event_date` ascending, as a permutation of the table |
| Events.ListEmptyTable | actions/events.ts:13-23 | an empty table lists as success with an empty list, not a failure |
| Events.EventById | actions/events.ts:26-41 | success exactly when there is no backend error and exactly one row has the id; the data is that row; otherwise failure with the backend's message |
| Events.LookupUnique | actions/events.ts:29-40 | in a table with distinct ids, the lookup of any stored row's id returns that row |
| Events.Inserted | actions/events.ts:64-71 | the inserted row holds the submitted fields unchanged, the new id and `created_by` = the user; scores and `attendees` start empty |
| Events.FetchAfterInsert | actions/events.ts:26-41 | after appending a row with a fresh id, the lookup of that id returns the row |
| Events.DeleteRows | actions/events.ts:120-123 | a row survives the delete exactly when it was in the table and has another id; the table never grows |
| Events.DeleteRowsPermutation | actions/events.ts:120-123 | deleting an id from two orderings of one table leaves two orderings of one result |
| Events.DeleteRowsSpec | actions/events.ts:120-123 | deleting keeps an order-preserving sub-sequence: every row with another id keeps its multiplicity, no row with the id remains, and a later lookup of the id fails |
| Events.UpdateRows | actions/events.ts:101-104 | the update keeps the table's length, every row's `id` and `created_by`, and every row with another id unchanged |
| Events.UpdateRowsSpec | actions/events.ts:84-104 | updating changes only rows with the id; in those, the required fields take the new values, an optional field that is supplied takes its value, an omitted one keeps the old value, and `id` and `created_by` never change |
| Events.UpdateKeepsDistinct | actions/events.ts:101-104 | an update keeps ids distinct and introduces no new id |
| Events.UpdateIdempotent | actions/events.ts:101-104 | applying the same update twice equals applying it once |
| Events.FilterKeepsDistinct | actions/events.ts:120-123 | filtering rows out keeps ids distinct |
| Events.EventsTable.CreateEvent | actions/events.ts:43-82 | with no user: failure "Not authenticated" and nothing written; on a backend error: failure with its message and nothing written; otherwise exactly one row with a fresh id and `created_by` = user is appended and returned, and the dashboard is revalidated once |
| Events.EventsTable.UpdateEvent | actions/events.ts:84-115 | on error the table and revalidation count are unchanged and the message is returned; otherwise the table becomes the id-matching update, the dashboard is revalidated, and success carries no data |
| Events.EventsTable.DeleteEvent | actions/events.ts:117-134 | on error nothing changes and the message is returned; otherwise exactly the rows with the id go, the dashboard is revalidated, and success carries no data |
| Venues.ListVenues | actions/venues.ts:5-19 | a backend error becomes failure with its message; otherwise success with all venues sorted by name ascending, as a permutation |
| Venues.FindVenue | actions/venues.ts:26-29 | the joined venue, when found, is a stored venue with that id; when absent no stored venue has that id |
| Venues.JoinVenues | actions/venues.ts:38 | the join drops unmatched links, so it is never longer than the links, and every venue in it is stored and linked |
| Venues.JoinVenuesExact | actions/venues.ts:38 | the join drops exactly the dangling links: its venue ids are those of the links whose venue exists, in link order |
| Venues.JoinVenuesComplete | actions/venues.ts:38 | when every link has a venue, nothing is dropped and the venue ids are the link ids in order |
| Venues.EventVenues | actions/venues.ts:21-40 | a backend error gives failure with its message; otherwise success with only venues linked to the event, never more than its links, and exactly the venues of the event's resolvable links, in the model's table order |
| Venues.NewLinks | actions/venues.ts:59-62 | one link per given id, and a link is built exactly when it joins the event to one of the ids |
| Venues.ReplaceLinks | actions/venues.ts:46-72 | a link is present after the replace exactly when it belongs to another event and was there, or joins the event to one of the given ids |
| Venues.ReplaceLinksSpec | actions/venues.ts:46-72 | after a replace, the event's links are exactly the given ids in order, and the links of every other event are untouched |
| Venues.ClearLinks | actions/venues.ts:47-58 | replacing with an empty list leaves the event with no links |
| Venues.DeleteStepLeavesNoLinks | actions/venues.ts:47-50 | after the delete step alone the event has no links, which is the state a failed insert leaves |
| Venues.ReplaceLinksIdempotent | actions/venues.ts:46-72 | replacing twice with the same ids equals replacing once |
| Venues.SetThenGet | actions/venues.ts:21-72 | after a replace with known venue ids, fetching the event's venues succeeds and returns those venues, in the model's table order |
| Venues.SetThenGetAnyOrder | actions/venues.ts:21-72 | after a replace with known venue ids, whatever order the backend returns the link rows in, the read-back names each given venue exactly as often as it was given |
| Venues.ReorderedNewLinks | actions/venues.ts:59-62 | any reordering of the rows built for the ids belongs to the event and names each id exactly as often as the ids do |
| Venues.VenueStore.SetEventVenues | actions/venues.ts:42-79 | a failed delete returns its message (or the fixed message for a throw) with the links unchanged; a failed insert returns its message and leaves the event with no links; otherwise success and the event's links replaced, with no insert for an empty list |
| EventValidation.EventFormValid | lib/validations/event.ts:6-17 | a valid form has every required field, a known sport and status, and title and teams of at most 100 characters |
| EventValidation.EventEditFormValid | lib/validations/event.ts:19-23 | an edit-valid form is create-valid, with no new fields it is edit-valid exactly when create-valid, and present scores are non-negative integers |
| EventValidation.ParseEventForm | lib/validations/event.ts:6-17 | a form parses exactly when it is valid: title and teams 1 to 100 UTF-16 code units, a known sport and status, non-empty date and time, venue at most 200 code units, capacity absent or a non-negative integer; the parsed value re-forms the same input |
| EventValidation.ParseFormOf | lib/validations/event.ts:6-17 | every in-bounds value parses back from its form unchanged |
| EventValidation.EditExtendsCreate | lib/validations/event.ts:19-23 | an edit-valid form restricted to the base fields is create-valid, and a create-valid form with no score or attendance fields is edit-valid |
| EventValidation.ScoresInEditForm | lib/validations/event.ts:20-21 | scores may be null, and are refused when negative or fractional |
| EventValidation.ValidWhenShort | lib/validations/event.ts:6-17 | a form is valid when its strings are at most half their bound in characters, whatever the characters |
| EventValidation.ExampleFormValid | lib/validations/event.ts:6-17 | a typical basketball form is valid |
| EventValidation.LongTitleRefused | lib/validations/event.ts:7 | a 101-character title is refused |
| EventValidation.EmojiTitleRefused | lib/validations/event.ts:7 | a title of 100 emoji is refused, being 200 UTF-16 code units |
| Dashboard.ToEvent | app/dashboard/page.tsx:59-74 | the row can be rebuilt from the event with its `created_by`, so no column is lost or altered |
| Dashboard.ToEventLossless | app/dashboard/page.tsx:59-74 | the renamed columns land in their fields: `event_date` in `date`, `event_time` in `time`, `home_team`, `away_team` and `max_capacity` likewise |
| Dashboard.FilteredEvents | app/dashboard/page.tsx:88-101 | an event is shown exactly when it is in the list and matches the case-insensitive search on title, teams or venue, the sport choice and the status choice |
| Dashboard.FilteredEventsSpec | app/dashboard/page.tsx:88-101 | the filtered list is an order-preserving sub-sequence, and each matching event keeps its multiplicity |
| Dashboard.NoFilterShowsAll | app/dashboard/page.tsx:90-97 | an empty query with both choices "all" shows every event in order |
| Dashboard.SelectorsAreExact | app/dashboard/page.tsx:96-99 | with a specific sport or status chosen, every shown event has exactly that sport or status |
| Dashboard.StatusCount | app/dashboard/page.tsx:212-228 | a status counter never exceeds the number of events |
| Dashboard.StatusCountZero | app/dashboard/page.tsx:212-228 | a counter reads zero exactly when no event has its status |
| Dashboard.StatusCountsAddUp | app/dashboard/page.tsx:204-228 | the live, upcoming and completed counts never exceed the total, and add up to it exactly when every status is one of the three names |
| Dashboard.Initials | app/dashboard/page.tsx:151-155 | at most one initial per piece, and exactly one per piece when no piece is empty |
| Dashboard.InitialsConcat | app/dashboard/page.tsx:151-155 | the initials of two word lists joined are the two sets of initials joined |
| Dashboard.InitialsOfSplit | app/dashboard/page.tsx:151-155 | first characters of the space-split pieces are the characters of the name that start a word |
| Dashboard.UserInitials | app/dashboard/page.tsx:149-156 | "U" without a full name; otherwise the uppercased first character of each space-separated word, in order |
| Dashboard.BlankNameHasNoInitials | app/dashboard/page.tsx:151-155 | a name made only of spaces has no initials |
| Dashboard.DeleteAgreesWithRefetch | app/dashboard/page.tsx:128-136 | removing the id from the fetched list equals fetching again after deleting the id from the table |
| Dashboard.DeleteAgreesWithAnyRefetch | app/dashboard/page.tsx:128-136 | whatever order the refetch returns among equal dates, removing the id locally gives a date-sorted list holding the same rows as the table after the delete |
| Dashboard.DashboardPage.FetchData | app/dashboard/page.tsx:47-81 | on success the events are the transformed rows in date order; on failure the list is unchanged |
| Dashboard.DashboardPage.HandleDeleteEvent | app/dashboard/page.tsx:119-141 | the dashboard is revalidated once exactly when a confirmed delete succeeds, and the id counter never moves; without confirmation nothing happens; on success exactly the events with the id leave the list and the table; on failure the list is unchanged and the alert reads "Failed to delete event: " and the message |
| MultiSelect.FilteredOptions | components/ui/multi-select.tsx:33-38 | an option is shown exactly when its lower-cased label contains the lower-cased query, so an empty query shows every option |
| MultiSelect.FilteredOptionsSpec | components/ui/multi-select.tsx:33-38 | the options shown are the label filter of the list, in order |
| MultiSelect.HandleSelect | components/ui/multi-select.tsx:40-46 | the query is always cleared; `onChange` fires exactly when the value is new; the value is selected afterwards |
| MultiSelect.SelectSpec | components/ui/multi-select.tsx:40-43 | a new value is appended at the end, a present one changes nothing, and selecting twice equals selecting once |
| MultiSelect.SelectKeepsNoDuplicates | components/ui/multi-select.tsx:41-42 | a selection without duplicates still has none after a select |
| MultiSelect.HandleRemove | components/ui/multi-select.tsx:48-50 | a value stays selected exactly when it was selected and is not the removed one |
| MultiSelect.RemoveSpec | components/ui/multi-select.tsx:48-50 | the other values keep their order and multiplicity, and removing an absent value changes nothing |
| MultiSelect.SelectThenRemove | components/ui/multi-select.tsx:40-50 | selecting a fresh value and removing it restores the original selection |
| Ordering.SortBySorted | actions/events.ts:16 | the sort used for `.order(..., { ascending: true })` returns its input ordered by the key |
| Ordering.FilterSorted | app/dashboard/page.tsx:136 | filtering a sorted list keeps it sorted |
| Ordering.SortByFilter | actions/events.ts:16 | sorting then filtering equals filtering then sorting |
| Seqs.FilterSubsequence | app/dashboard/page.tsx:89 | `filter` returns an order-preserving sub-sequence of its input |
| Seqs.FilterMultiplicity | app/dashboard/page.tsx:136 | `filter` keeps every passing element as often as it occurs and drops every other one |
| Strings.SplitJoin | app/dashboard/page.tsx:152 | joining the pieces of `split(' ')` with spaces gives the string back |
| Strings.SplitPiecesHaveNoSpace | app/dashboard/page.tsx:152 | no piece of `split(' ')` contains a space |
| Strings.Utf16LengthIsCount | lib/validations/event.ts:7 | a string's UTF-16 length equals its character count exactly when every character is below U+10000 |
| Strings.LexLeTransitive | actions/venues.ts:11 | the code-point order used for ascending text columns is transitive |
| Strings.LexLeTotal | actions/venues.ts:11 | any two strings are ordered one way or the other |

## Left out

- The Supabase client, auth session and environment wiring are left out. The signed-in user and every query's outcome are inputs.
- Ids are modelled as natural numbers from a counter. The table's id generation and the string form of ids are left out.
- `revalidatePath('/dashboard')` is counted, not modelled, as `EventsTable.revalidations`.
- `console.error` logging is left out. It has no effect on results.
- Async and concurrency are left out. Every action runs its awaits in order, so the model treats them as straight-line steps. Concurrent requests that interleave the two venue steps are not modelled.
- Events.EventById: the text of the backend's "not exactly one row" error is a parameter, because the backend produces it.
- Events.ListEvents: rows are ordered by code point on the `event_date` text, which stands in for the database collation. Only "sorted and a permutation" is promised; the order among equal dates is not.
- Venues.ListVenues: the same code-point stand-in for name collation applies.
- `getVenues` and `getEventVenues` return extra `data: null` / `error: null` keys. They are represented by the two-case response only.
- Venues.VenueStore.SetEventVenues: a throw is assumed to happen before the failing step has any effect.
- The backend's handling of duplicate venue ids, and cascade on event delete, are not visible and are left out.
- Exceptions thrown out of the event actions are left out. They do not use `safeAction`, and a thrown delete in the dashboard's `catch` branch (alert "Failed to delete event") is not modelled.
- Venue-id lists in create and update are not modelled. The event actions modelled take the free-text `venue` field and no venue list.
- Zod's `z.coerce` string-to-number conversion is left out. Numeric fields are already-typed reals, and the validation messages are not modelled.
- Case conversion covers ASCII letters only. Full Unicode case folding is left out.
- Dashboard.UserInitials: `n[0]` is modelled as the first code point. JavaScript takes the first UTF-16 code unit, which for a name starting above U+FFFF is a lone surrogate that a Dafny `char` cannot hold.
- Dashboard.DeleteAgreesWithRefetch: relies on the model's stable order among equal dates. DeleteAgreesWithAnyRefetch states the agreement for any order.
- Dashboard.DashboardPage.FetchData: the list is the rows in the model's stable date order. The backend may order rows with equal dates differently.
- Venues.EventVenues: the select has no `.order`, so its rows come in the model's table order, which the backend does not promise. Only the multiset of venues is determined.
- Venues.SetThenGet: the read-back order is the model's table order, which the backend does not promise. SetThenGetAnyOrder states the result for any order.
- Floating point is left out. That covers the attendance-bar percentage and `toLocaleString` formatting.
- Rendering, routing, toasts, `confirm` and `alert` are left out. Confirmation is a boolean input and the alert text a result.
- The sign-in page is not part of this model, nor the root redirect.
- The create and edit form pages are left out. Their logic is default values plus the success/failure branch already modelled.
- `formatDate`, `formatTime` and `cn` are left out. They depend on JavaScript `Date`, locale formatting and styling libraries.
- The `User` interface in `lib/types.ts` is used by no core code and is left out.
