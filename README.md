# Рядом (Master-APP): a Dafny model of the request/offer lifecycle

"Рядом" is a neighbourhood-help board. Residents post **requests** for help,
with a reward of thanks or money. Other residents make **offers** to help. The
first offer moves a request from `open` to `in_progress`. The author can close
a request. A request's contact value is kept private: listings never carry it,
and only the author or a helper who has offered may read it.

This project models the server side of that lifecycle and the small
client-side rules around it, and proves what they promise:

- **Store** (`store.dfy`): the `requests` and `offers` tables as a class with
  two sequences of rows and a set of profile ids.
  - The constraints it enforces are stated: distinct request ids, one offer
    per (request, helper) pair, distinct offer ids, and foreign keys to
    requests and profiles.
  - It raises PostgreSQL SQLSTATE 23505 (unique_violation) and 23503
    (foreign_key_violation) as listed in Appendix A of the PostgreSQL manual.
  - A failure from outside the model (lost connection, another writer) is a
    `fault` parameter, and it pre-empts everything else.
- **Server actions** (`actions.dfy`): `getRequests`, `createRequest`,
  `getRequestContact`, `createOffer` and `closeRequest`.
  - Each returns a value or throws an Error message.
  - Every write keeps the store consistent. The constraints hold, no offer is
    by the request's own author, and a thanks reward has no amount.
  - Every write *advances* the store: rows are only appended, a row only ever
    changes its status, and no status returns to `open`.
- **Route handlers** (`offers_route.dfy`, `requests_route.dfy`):
  `POST /api/offers`, `GET /api/requests` and `POST /api/requests`. They keep
  their status codes and fixed error messages and the same invariants.
- **Listing** (`listing.dfy`): the pure filter, sort and redaction behind
  both listings.
- **Dashboard rules**:
  - calendar bucketing and week arithmetic (`calendar.dfy`)
  - the "time ago" text and the contact cache (`my_offers.dfy`)
  - marker placement on the mock map (`mock_map.dfy`)
  - the sidebar's name, initials and menu (`sidebar.dfy`)
  - the category toggle (`category_tiles.dfy`)
- **JavaScript behaviour** (`text.dfy`, `optional.dfy`), written out where the
  code relies on it:
  - truthiness and `||` defaults
  - `split`/`join`, `padStart(2, '0')`, `parseInt` and `toUpperCase`
  - `%` truncating toward zero, where Dafny's `%` is Euclidean

Behaviour worth noting, as the code has it:

- A second helper's `createOffer` on the same request is refused with
  "Request is not open". The first offer has already moved the request to
  `in_progress` (`RequestActions.AdmittedRequestRefusesOthers`).
- `closeRequest` on a missing request throws "Forbidden", not a not-found
  error.
- The `createOffer` action has no duplicate-offer pre-check. A repeat offer is
  refused by the unique constraint and reported as
  "Failed to create offer: 23505". The `POST /api/offers` route has the
  pre-check.
- The `createRequest` action passes a money reward's amount through
  unchecked, so a money request may be stored without an amount. The store
  invariant is therefore only "thanks has no amount". The `POST /api/requests`
  route rejects a missing or zero amount, and its rows pair the amount with
  the money reward both ways (`RequestsRoute.ValidatedRowPairsReward`).

The body of the `get_request_contact` database function is not part of this
model. It is taken to return the contact exactly when the request exists and
the caller is its author or has offered on it (`RequestActions.MayViewContact`).
The messages "Contact not available. Create an offer first." and the client's
"make sure you have responded to the request" suggest that rule.

## Model

| member | source | states |
|---|---|---|
| Domain.StatusText | lib/supabase/types.ts:46 | a status's text is "open" exactly when the status is `open` |
| Domain.RedactKeepsAllButContact | lib/types.ts:22-23 | a SafeRequest is its Request with every field but `contact_value` kept |
| Domain.RedactForgetsContact | lib/types.ts:22-23 | the redacted row does not depend on the contact value |
| Domain.RedactAll | app/actions/requests.ts:72-73 | redacting a list redacts each row in place and keeps the length |
| Domain.StepsMoveForward | app/actions/requests.ts:182-187 | along any trace of status steps the rank never drops; a trace that leaves `open` never returns to it, and `closed` stays `closed` |
| Store.FindRequest | app/actions/requests.ts:150-154 | the row `.eq('id', id).single()` selects: a row carrying that id, or None only when no row has it |
| Store.SecondOfferViolatesUniqueness | app/api/offers/route.ts:79-83 | inserting a second offer for an existing (request, helper) pair fails with 23505 |
| Store.FoundRowIsUnique | app/actions/requests.ts:150-154 | with distinct ids, any row carrying the id is the one the lookup finds |
| Store.FindAfterStatusChange | app/actions/requests.ts:183-187 | a status update moves no row: every lookup gives the same index after it |
| Store.AdvancesTransitive | app/actions/requests.ts:204-219 | chained writes still only append rows and step statuses forward |
| Store.Database.InsertRequest | app/actions/requests.ts:94-103 | the insert fails with the fault, 23505 for a taken id or 23503 for an unknown author, in that order; otherwise it appends exactly the row; the constraints still hold |
| Store.Database.InsertOffer | app/actions/requests.ts:168-175 | the insert fails with the fault, 23505 for a taken id or a repeated pair, 23503 for an unknown request or helper; otherwise it appends exactly the offer; the constraints still hold |
| Store.RequestInsertError | app/actions/requests.ts:94-103 | the error a request insert raises (the `requests` primary key and author foreign key), or None; `RequestInsertErrorCases` states when |
| Store.RequestInsertErrorCases | app/actions/requests.ts:94-103 | an outside fault wins; otherwise the insert fails exactly for a taken id (23505) or an author without a profile (23503) |
| Store.OfferInsertError | app/actions/requests.ts:168-175 | the error an offer insert raises (the `offers` keys, the (request, helper) uniqueness and both foreign keys), or None; `OfferInsertErrorCases` states when |
| Store.OfferInsertErrorCases | app/actions/requests.ts:168-175 | an outside fault wins; otherwise 23505 exactly for a taken offer id or a repeated (request, helper) pair, 23503 for a missing request or helper profile, and success exactly when none of these holds |
| Store.Database.UpdateStatus | app/actions/requests.ts:183-187 | a compare-and-set on the row with the id: it changes only that row's status, and only if the expected status matches; it returns the rows it changed |
| Listing.EqFilter | app/actions/requests.ts:40-50 | an equality filter applies exactly when its value is non-empty and not the "all" sentinel |
| Listing.EffectiveStatus | app/actions/requests.ts:37 | the status filter is the given status, or `open` when none is given |
| Listing.SelectKeepsMatches | app/actions/requests.ts:37-61 | a row is selected exactly when it is stored and matches the filters |
| Listing.SelectAppend | app/actions/requests.ts:37-61 | selecting from two runs of rows is selecting from each in turn, so the kept rows stay in storage order, each as often as it is stored |
| Listing.Select | app/actions/requests.ts:37-61 | the WHERE clause keeps no more rows than are stored; its meaning is stated by `SelectKeepsMatches` and `SelectAppend` |
| Listing.Matches | app/actions/requests.ts:37-61 | the conjunction of the status, district, category, urgency, paid-only and text-search filters (a predicate; `QueryRespectsFilters` states each filter per listed row) |
| Listing.SortNewestFirst | app/actions/requests.ts:38 | the `created_at` descending order, by insertion; `SortNewestFirstSpec` states it is a newest-first permutation |
| Listing.Query | app/actions/requests.ts:17-73 | select, sort newest first, drop `contact_value`; `QueryNewestFirst`, `QueryIsFilteredRows` and `QueryIgnoresContacts` state its meaning |
| Listing.InsertNewestPermutes | app/actions/requests.ts:38 | inserting into the newest-first order adds exactly that row |
| Listing.InsertNewestSorted | app/actions/requests.ts:38 | inserting into a newest-first list keeps it newest-first |
| Listing.SortNewestFirstSpec | app/actions/requests.ts:38 | the sort is a permutation of its input ordered by `created_at` non-increasing |
| Listing.QueryNewestFirst | app/actions/requests.ts:37-38 | listed rows come newest first |
| Listing.QueryIsFilteredRows | app/actions/requests.ts:17-73 | a SafeRequest is listed exactly when it is the redaction of a matching row; the listing has one entry per matching row |
| Listing.QueryRespectsFilters | app/actions/requests.ts:37-54 | every listed row has the requested status (`open` by default), the district, category and urgency asked for unless skipped, and a money reward under paid-only |
| Listing.SelectIgnoresContacts | app/actions/requests.ts:40-61 | which rows match never depends on contact values |
| Listing.QueryIgnoresContacts | app/actions/requests.ts:72-73 | two stores that differ only in contact values give the same listing, so no listing reveals a contact |
| RequestActions.CodeOrUnknown | app/actions/requests.ts:69 | the error text names the store's code, or "unknown" for an empty code |
| RequestActions.GetRequests | app/actions/requests.ts:6-74 | a failed query throws "Database query failed: " and the code; otherwise the result is newest-first, holds exactly the redacted matching rows, and has one entry per matching row |
| RequestActions.GetRequestsHidesStoreMessage | app/actions/requests.ts:65-70 | the thrown message depends on the code alone, never on the store's message |
| RequestActions.NewRow | app/actions/requests.ts:96-101 | the inserted row has the caller as author, status `open`, the form's title, description, category, urgency, reward type, district and contact, no amount for thanks and the form's amount for money |
| RequestActions.AppendFreshRow | app/actions/requests.ts:94-103 | appending a row with a fresh id keeps "no self-offers" and "thanks has no amount" |
| RequestActions.CreateRequest | app/actions/requests.ts:76-115 | with no caller it throws Unauthorized and inserts nothing; an insert error throws "Failed to create request: " and the code and changes nothing; otherwise exactly the new row is appended and returned without its contact; the store stays consistent and advances |
| RequestActions.PreCheck | app/actions/requests.ts:150-166 | the offer pre-checks in order: not found, own request, not open; None exactly when the request exists, is someone else's and is open |
| RequestActions.AdmittedRequestRefusesOthers | app/actions/requests.ts:164-187 | after an offer moves an open request to `in_progress`, every other non-author is refused with "Request is not open" |
| RequestActions.CloseIsIdempotent | app/actions/requests.ts:214-219 | a closed request is found in the same place, and closing it again rewrites nothing |
| RequestActions.StatusChangeKeepsInvariants | app/actions/requests.ts:183-187 | a status change keeps "no self-offers" and "thanks has no amount" |
| RequestActions.AppendForeignOffer | app/actions/requests.ts:160-175 | appending an offer by someone other than the author keeps "no self-offers" |
| RequestActions.CreateOffer | app/actions/requests.ts:141-193 | Unauthorized, then the pre-checks in order, each leaving the store unchanged; an insert error throws "Failed to create offer: " and the code with nothing changed; otherwise exactly one offer (request, caller) is appended and only that request moves from `open` to `in_progress`; consistent and advancing |
| RequestActions.CloseRequest | app/actions/requests.ts:195-231 | Unauthorized; "Forbidden" for a missing request or a non-author; a failed update throws "Failed to close request: " and the code; otherwise only that request is set to `closed`, from any status, and returned without its contact |
| RequestActions.ContactRpc | lib/supabase/types.ts:104-112 | the RPC returns at most one contact, and one exactly when the caller may view it |
| RequestActions.GetRequestContact | app/actions/requests.ts:117-139 | Unauthorized; a failed RPC throws "Failed to get contact: " and the code; otherwise a contact is returned exactly when the caller is the author or has offered, it is that request's contact, and any other outcome is "Contact not available. Create an offer first." |
| OffersRoute.InsertErrorMessage | app/api/offers/route.ts:79-89 | 23505 maps to the same message as the duplicate pre-check; any other code maps to "Failed to create offer" |
| OffersRoute.InsertErrorHidesStoreMessage | app/api/offers/route.ts:79-89 | the insert-error response depends on the code alone |
| OffersRoute.RefusalStatus | app/api/offers/route.ts:33-52 | a missing request is 404 and the other refusals are 400 |
| OffersRoute.Post | app/api/offers/route.ts:4-99 | 401, then 400 without `request_id` before any read, then 404, 400 own, 400 not open, 400 already offered, each with no change; 400 with the mapped message on an insert error; otherwise 201 with the offer, exactly one offer appended and only an `open` request moved to `in_progress`; consistent and advancing |
| RequestsRoute.ParseFilters | app/api/requests/route.ts:5-11 | each filter is read from its query parameter; paid-only is on exactly when `paid_only` is the string `true` |
| RequestsRoute.GetErrorMessage | app/api/requests/route.ts:66-77 | PGRST116 maps to "No rows found", 23505 to "Duplicate entry", anything else to "Database query failed" |
| RequestsRoute.Get | app/api/requests/route.ts:4-84 | a failed query is a 400 with the mapped message; otherwise a 200 holding exactly the redacted rows that match the parsed filters, one entry per matching row, newest first |
| RequestsRoute.GetDefaultsToOpen | app/api/requests/route.ts:11-36 | without a `status` parameter only `open` requests are listed |
| RequestsRoute.GetPaidOnlyFilter | app/api/requests/route.ts:9-54 | with `paid_only=true` only money requests are listed |
| RequestsRoute.GetErrorHidesStoreMessage | app/api/requests/route.ts:66-77 | a failed query is always a 400 whose body does not depend on the store's message |
| RequestsRoute.BodyRow | app/api/requests/route.ts:126-140 | the inserted row has the caller as author, status `open`, the body's title, description, category, urgency, reward type, district and contact, and the body's amount only for money |
| RequestsRoute.ValidatedRowPairsReward | app/api/requests/route.ts:119-135 | after validation, a row has an amount exactly when its reward is money, and never a zero amount |
| RequestsRoute.PostErrorMessage | app/api/requests/route.ts:144-155 | 23505 maps to "Duplicate entry", 23503 to "Invalid reference", anything else to "Failed to create request" |
| RequestsRoute.Post | app/api/requests/route.ts:86-162 | 401; 400 "Missing required fields" when any of the six text fields is missing or empty; 400 for a money reward with a missing or zero amount; each with no insert; an insert error is a 400 with the mapped message; otherwise 201 with the row without its contact, appended to the store; consistent and advancing |
| Text.PadStart2 | components/dashboard/calendar-tab.tsx:58 | the padded hour is at least two digits, denotes the hour, and is exactly two digits below 100 |
| Text.JoinSplit | components/dashboard/sidebar.tsx:79 | joining the parts of a split with the separator gives the string back |
| Text.ParsePadded | components/dashboard/calendar-tab.tsx:42 | `parseInt` of a padded hour followed by a non-digit gives the hour back |
| Text.ParseInt | components/dashboard/calendar-tab.tsx:42 | a number is read exactly when the string starts with a digit |
| Text.ParseNatThen | components/dashboard/my-offers-tab.tsx:20-22 | a decimal count followed by a non-digit reads back as that count |
| Text.Split | components/dashboard/sidebar.tsx:79 | at least one part, the first being the text before the first separator; `JoinSplit` states nothing is lost |
| Text.UpperChar | components/dashboard/sidebar.tsx:79 | ASCII `a`-`z` and Cyrillic `а`-`я` move down 32 code points to their capitals, `ѐ`-`џ` move down 80 to `Ѐ`-`Џ`, and every other character is kept |
| CalendarTab.TimeSlotHour | components/dashboard/calendar-tab.tsx:138 | slot k of the table parses to hour 8 + 2k |
| CalendarTab.TwoDigitSlot | components/dashboard/calendar-tab.tsx:42 | a slot written as two digits and a colon parses to the number those digits denote |
| CalendarTab.SlotsCoverDay | components/dashboard/calendar-tab.tsx:55 | an hour from 8 to 21 falls in exactly one slot of the table, and any other hour in none |
| CalendarTab.EndHour | components/dashboard/calendar-tab.tsx:57 | the label's end hour is the slot hour plus 2, capped at 24 |
| CalendarTab.SlotLabelReadsBack | components/dashboard/calendar-tab.tsx:56-58 | the label starts with the slot hour, and its second half starts with the end hour |
| CalendarTab.SlotLabelHalves | components/dashboard/calendar-tab.tsx:58 | the label is the padded start hour, `:00 - `, then the padded end hour and `:00` from position 8 |
| CalendarTab.SlotHour | components/dashboard/calendar-tab.tsx:42 | `parseInt` of the part before the first colon; `TimeSlotHour` states what it gives for each slot of the grid |
| CalendarTab.SlotLabel | components/dashboard/calendar-tab.tsx:56-58 | the `hh:00 - hh:00` range of a slot; `SlotLabelReadsBack` and `SlotLabelHalves` state its layout |
| CalendarTab.FirstOfferFor | components/dashboard/calendar-tab.tsx:61-64 | the index found is inside the offer list; `FirstOfferForIsFirst` states it is the first linked offer |
| CalendarTab.Assignee | components/dashboard/calendar-tab.tsx:61-65 | the first linked offer's helper name, or "Исполнитель"; its use is stated by `RequestTasksExactly` |
| CalendarTab.FirstOfferForIsFirst | components/dashboard/calendar-tab.tsx:61-64 | finds the first offer whose nested request id, or else its `request_id`, is the request's id; None exactly when no offer is linked |
| CalendarTab.GetTasksForSlot | components/dashboard/calendar-tab.tsx:24-109 | the cell holds the request tasks and then the offer tasks, as their reference definitions give them, each labelled with the cell's `hh:00 - hh:00` range; the public `requests` argument plays no part |
| CalendarTab.CollectRequestTasks | components/dashboard/calendar-tab.tsx:45-77 | the loop over the caller's requests pushes exactly the request tasks of the cell, in order |
| CalendarTab.CollectOfferTasks | components/dashboard/calendar-tab.tsx:80-106 | the loop over the caller's offers pushes exactly the offer tasks of the cell, in order |
| CalendarTab.RequestTasksStep | components/dashboard/calendar-tab.tsx:45-77 | one more request adds only its own task, after the earlier ones |
| CalendarTab.OfferTasksStep | components/dashboard/calendar-tab.tsx:80-106 | one more offer adds only its own task, after the earlier ones |
| CalendarTab.RequestTasksExactly | components/dashboard/calendar-tab.tsx:45-77 | a request task appears exactly for an own request created that day within the slot, with its id, title, green colour and the first linked offer's helper name or "Исполнитель" |
| CalendarTab.OfferTasksExactly | components/dashboard/calendar-tab.tsx:80-106 | an offer task appears exactly for an offer whose nested request was created that day within the slot, with the offer id, blue colour and the helper name or "Я"; offers without a nested request are skipped |
| CalendarTab.RequestTasksAppend | components/dashboard/calendar-tab.tsx:45-77 | request tasks keep the input order of the requests |
| CalendarTab.OfferTasksAppend | components/dashboard/calendar-tab.tsx:80-106 | offer tasks keep the input order of the offers |
| CalendarTab.CellGroupsByKind | components/dashboard/calendar-tab.tsx:44-108 | every request task comes before every offer task; request tasks are green and offer tasks blue |
| CalendarTab.RequestTasksAreGreen | components/dashboard/calendar-tab.tsx:67-74 | every request task is of type request and coloured green |
| CalendarTab.OfferTasksAreBlue | components/dashboard/calendar-tab.tsx:96-103 | every offer task is of type offer and coloured blue |
| CalendarTab.Weekday | components/dashboard/calendar-tab.tsx:119 | `getDay()` is a weekday number below 7 |
| CalendarTab.WeekStart | components/dashboard/calendar-tab.tsx:117-122 | the week start is a Monday on or before the date, less than seven days before it |
| CalendarTab.WeekStartIsTheMonday | components/dashboard/calendar-tab.tsx:117-122 | it is the only such Monday; a Sunday goes back six days |
| CalendarTab.WeekStartShifts | components/dashboard/calendar-tab.tsx:140-150 | moving a date by seven days moves its week start by seven days |
| CalendarTab.WeekDays | components/dashboard/calendar-tab.tsx:127-135 | the seven days from the week start, Monday to Sunday |
| CalendarTab.WeekNavigator.WeekShown | components/dashboard/calendar-tab.tsx:124 | the week shown is the Monday-started week holding `currentWeek` |
| CalendarTab.WeekNavigator.GoToPreviousWeek | components/dashboard/calendar-tab.tsx:140-144 | moves `currentWeek` back seven days, and the week shown back one week |
| CalendarTab.WeekNavigator.GoToNextWeek | components/dashboard/calendar-tab.tsx:146-150 | moves `currentWeek` forward seven days, and the week shown forward one week |
| CalendarTab.WeekNavigator.GoToToday | components/dashboard/calendar-tab.tsx:152-154 | sets `currentWeek` to today, whose week is then shown |
| CalendarTab.BackAndForthShowsSameWeek | components/dashboard/calendar-tab.tsx:140-150 | going back a week and then forward shows the same week |
| MyOffersTab.TimeAgoOf | components/dashboard/my-offers-tab.tsx:12-23 | minutes exactly below one hour, hours exactly from one hour to below one day, days from one day on; each count is the number of whole units elapsed |
| MyOffersTab.Render | components/dashboard/my-offers-tab.tsx:20-22 | the text ends with its unit's words and, for a non-negative count, `parseInt` reads the count back |
| MyOffersTab.RenderIsInjective | components/dashboard/my-offers-tab.tsx:20-22 | two forms or counts never render to the same text |
| MyOffersTab.FormatTimeAgo | components/dashboard/my-offers-tab.tsx:12-23 | for a past date the text starts with the number of whole units elapsed and ends with the words of the unit `TimeAgoOf` picks |
| MyOffersTab.TimeAgoCoarsens | components/dashboard/my-offers-tab.tsx:16-22 | as more time passes the form only gets coarser, and within a form the count never drops |
| MyOffersTab.ContactPanel.HandleGetContact | components/dashboard/my-offers-tab.tsx:33-51 | a cached request changes nothing; otherwise exactly the entry for the request is added when the action returns its contact, every other entry is kept, nothing is added on failure, and the loading marker is cleared |
| MockMap.PositionsHaveThreeSlots | components/mock-map.tsx:29-55 | the table holds the central district, and every district has three slots |
| MockMap.JsRem | components/mock-map.tsx:58 | JavaScript `%`: the Euclidean remainder for a non-negative index; negative exactly for a negative index that is not a multiple |
| MockMap.DistrictPositions | components/mock-map.tsx:57 | a known district's own slots, otherwise the central district's |
| MockMap.MarkerPosition | components/mock-map.tsx:28-59 | a position, when there is one, is one of the district's slots; there is none exactly for a negative index that is not a multiple of three |
| MockMap.UnknownDistrictIsCentral | components/mock-map.tsx:57 | an unknown district is drawn like the central district |
| MockMap.MarkerIsDistrictSlot | components/mock-map.tsx:58 | a non-negative index gets slot `index % 3` of its district's list |
| MockMap.MarkersRepeatEveryThree | components/mock-map.tsx:58 | for non-negative indices positions repeat with period 3 |
| MockMap.NegativeIndexDefinedOnMultiples | components/mock-map.tsx:58 | a negative index has a position exactly when it is a multiple of 3 |
| Sidebar.DisplayName | components/dashboard/sidebar.tsx:78 | the profile name if non-empty, else the email's part before `@` if non-empty, else "Пользователь"; never empty |
| Sidebar.DisplayNameFromEmail | components/dashboard/sidebar.tsx:78 | without a profile name, an address `local@domain` shows `local` |
| Sidebar.Initials | components/dashboard/sidebar.tsx:79 | the initials are one or two characters; `InitialsAreWordStarts` says which |
| Sidebar.FirstCharsOfWords | components/dashboard/sidebar.tsx:79 | the first characters of the space-separated words are exactly the name's word starts, in order |
| Sidebar.InitialsAreWordStarts | components/dashboard/sidebar.tsx:79 | the initials are one or two characters: the first two word starts upper-cased, or "U" when there are none |
| Sidebar.HandleTabClick | components/dashboard/sidebar.tsx:45-57 | "/" navigates and never calls `onTabChange`; any other href cancels the link and calls `onTabChange(href)` exactly when it is given |
| Sidebar.IsActive | components/dashboard/sidebar.tsx:116-120 | the source's four-way `isActive` test (a predicate; `IsActiveIsHrefMatch` reduces it to one comparison) |
| Sidebar.IsActiveIsHrefMatch | components/dashboard/sidebar.tsx:116-120 | an item is active exactly when its href equals `activeTab`, or the path when no tab is given |
| Sidebar.VisibleItems | components/dashboard/sidebar.tsx:122 | the rendered items are exactly the items not marked secondary |
| Sidebar.VisibleAppend | components/dashboard/sidebar.tsx:122 | filtering two runs of entries is filtering each in turn, so rendered entries keep menu order and multiplicity |
| Sidebar.SecondaryEntryHidden | components/dashboard/sidebar.tsx:72 | the secondary entry repeats "Мои отклики"'s href and is not rendered |
| Sidebar.AtMostOneHighlighted | components/dashboard/sidebar.tsx:114-155 | at most one rendered item is highlighted; the hidden duplicate would share its highlight |
| CategoryTiles.HandleClick | components/category-tiles.tsx:60-70 | without a callback nothing is emitted; the selected category emits the deselect value; any other category emits itself |
| CategoryTiles.EmitsCategoryOrSentinel | components/category-tiles.tsx:60-70 | whatever is emitted is the clicked category or one of the two sentinels |
| CategoryTiles.ClickTwiceClears | components/category-tiles.tsx:64-69 | clicking an unselected category selects it, and clicking it again clears the selection |
| CategoryTiles.ShowAllClearsListingFilter | components/category-tiles.tsx:65 | with `showAll`, the cleared selection switches the listing's category filter off |

## Left out

- Network and auth I/O are not modelled. The signed-in user is a parameter. A store failure is the `fault` parameter or the `queryError` parameter.
- Full-text search (`textSearch` with websearch syntax and the Russian configuration) is a PostgreSQL feature. It is an uninterpreted predicate `textMatch` over the row.
- The race between the offer insert and the status update is left out. Each call runs as sequential steps over one store.
- Failures of the conditional status update after a successful offer insert are left out. The code ignores that result, and the model performs the update.
- Failed reads in the pre-checks are left out: the route's lookups of the request and of an existing offer, the `createOffer` action's lookup (a failed read throws "Request not found" for an existing request) and the `closeRequest` action's lookup (a failed read throws "Forbidden" even for the author). The model's `fault` reaches only the writes. The route treats a failed request lookup as "not found".
- `reward_amount` is a JavaScript `number`, so it can be fractional or negative. The model takes it as an integer (`Option<int>`), and only its presence and zero test matter to the code.
- RequestActions.GetRequests: the listing's `profiles:author_id (display_name, district)` join is not modelled. Each listed item in the source also carries its author's display name and district, which the model's `SafeRequest` leaves out.
- RequestsRoute.Get: the same author join (`display_name`, `district`) is dropped from the 200 body.
- RequestActions.ContactRpc: the body of the `get_request_contact` database function is not available. The rule that the author or a helper with an offer may see the contact is an assumption, drawn from the messages the action reports.
- RequestActions.NewRow: form payloads with keys beyond the declared form type are not modelled. Because `...formData` is spread after `author_id`, an untyped call carrying `author_id`, `id` or `created_at` would override the caller, the generated id or the timestamp; the model takes the typed form only.
- Request bodies with enum values outside their types are not modelled. Neither is malformed JSON.
- `revalidatePath`, console logging, toasts, `router.push`, `window.open` and React rendering are not modelled.
- The close and contact API routes (`app/api/requests/[id]/...`) are not part of this model.
- Real dates and time zones are not modelled. Times are integer milliseconds, and `toLocal` stands for the browser's local calendar day and hour. `setDate(±n)` is addition on day numbers.
- The calendar's `formatDate` and the day-name labels are rendering only.
- The pagination types are left out, and so is the declared but unused `type` filter.
- Text.UpperChar: only ASCII `a`-`z`, Cyrillic `а`-`я` and `ѐ`-`џ` are upper-cased. Every other character is left unchanged, including letters JavaScript does upper-case (Latin-1 and other accented letters such as `é`, Greek) and case mappings that change length (such as `ß`).
- Sidebar.Initials: JavaScript's `n[0]` and `.slice(0, 2)` index UTF-16 code units. The model indexes whole characters, so for a word starting with a character outside the Basic Multilingual Plane (an emoji) it takes the whole character, where JavaScript takes a lone surrogate.
- Text.ParseInt: leading blanks, signs and hexadecimal prefixes are not modelled. The slot labels have none.
- MockMap.DistrictPositions: keys inherited from `Object.prototype` (such as `constructor`) are treated as unknown districts.
- MyOffersTab.ContactPanel.HandleGetContact: the intermediate `loadingContact = requestId` is visible only during the fetch. The model does not expose it.
- MyOffersTab.ContactPanel.HandleGetContact: the "null result" branch is unreachable. The action either returns a contact or throws.
- MyOffersTab.TimeAgoOf: an unparsable date (NaN) is not modelled. `my-requests-tab.tsx` and `my-requests-client.tsx` hold identical copies of `formatTimeAgo`, and this one model covers them.
