# Futsal booking widget: booking page and availability grid

This project models the two pieces of logic in the futsal booking widget (`orbit-sanctuary`)
and proves properties about them.

- **The booking page** (`client/pages/Index.tsx`) keeps a list of bookings, the selected day,
  court and hour, and the name and email typed into the form.
  - *Confirm* rejects an incomplete form first, then a slot that is already taken. Otherwise it
    appends a booking whose id is derived from the slot (`<day>-<court>-<hour>`) and whose name
    and email are trimmed, and it clears the selected hour.
  - The *day listing* holds the selected day's bookings for all courts, stably sorted by start hour.
  - *Loading* at start-up falls back to an empty list when storage is unreadable, empty or does
    not parse.
- **The availability grid** (`client/components/TimeGrid.tsx`) lists the hours of the opening
  window, 08:00 to 22:00 by default. For each hour it says whether the hour is booked on this
  court and day, and whether it has already begun (the hour in progress counts as past). From
  that it derives the status label ("booked" before "past" before "available"), the "selected"
  mark and the disabled flag.

Layout:

- `wrappers.dfy` holds `Option`, the page's `number | null`.
- `js_string.dfy` (module `JsString`) holds the two JavaScript runtime operations the page relies
  on. One is `String.prototype.trim`, modelled over the full ECMAScript WhiteSpace and
  LineTerminator set. The other is the decimal text of an integer, as interpolated into the id.
- `time_grid.dfy` (module `TimeGrid`) holds the `Booking` type and the grid, as pure functions.
- `index_page.dfy` (module `IndexPage`) holds the page.
  - The class `BookingPage` carries the page state. Its `Confirm` method updates `bookings` and
    `selectedHour` in place.
  - The conflict test, the confirm decision (`Submit`), the listing and the load fallback are
    pure functions.

The day is an opaque key string (`yyyy-MM-dd`). The clock enters the grid only as two inputs:
`isToday`, meaning the grid's day is the clock's calendar day, and `nowHour`, the clock's hour.

The model follows the code in two places where a reader might expect otherwise:

- **Label precedence.** A booked hour that has already begun is labelled "booked", because the
  code tests `isBooked` first (`TimeGrid.tsx:55-60`). It is disabled either way.
  `TimeGrid.Grid` states this precedence.
- **No range checks on Confirm.** Confirm checks neither the court nor whether the hour is inside
  the window or has passed (`Index.tsx:43-60`). The model adds no such check, and
  `IndexPage.Submit` states that only the two rejections exist.

## Model

| member | source | states |
|---|---|---|
| JsString.Trim | orbit-sanctuary/client/pages/Index.tsx:44 | `trim` gives the empty text exactly when the input is all white space; otherwise the result neither starts nor ends with white space |
| JsString.TrimBy | orbit-sanctuary/client/pages/Index.tsx:44-56 | trimming keeps the slice of the input between a prefix and a suffix drawn from the stripped set; it is empty iff every character is in the set, otherwise its ends are outside the set |
| JsString.SkipForward | orbit-sanctuary/client/pages/Index.tsx:44 | the first kept index: everything before it is stripped, and it is the end or a kept character |
| JsString.SkipBackward | orbit-sanctuary/client/pages/Index.tsx:44 | the end of the kept part: everything after it is stripped, and it is the start bound or follows a kept character |
| JsString.TrimKeepsTrimmed | orbit-sanctuary/client/pages/Index.tsx:56 | a text that neither starts nor ends with white space is its own trim |
| JsString.TrimIdempotent | orbit-sanctuary/client/pages/Index.tsx:56 | trimming a stored (already trimmed) name or email again changes nothing |
| JsString.NatToString | orbit-sanctuary/client/pages/Index.tsx:55 | the decimal text of a non-negative integer is non-empty, all digits, and has no leading zero unless it is "0" |
| JsString.ParseNatToString | orbit-sanctuary/client/pages/Index.tsx:55 | reading the decimal text back gives the number |
| JsString.IntToString | orbit-sanctuary/client/pages/Index.tsx:55 | `${n}` is the digits of n, with a leading '-' exactly when n is negative; the digits read back as \|n\| |
| JsString.IntToStringInjective | orbit-sanctuary/client/pages/Index.tsx:55 | different integers have different decimal texts |
| JsString.SplitAtLastDash | orbit-sanctuary/client/pages/Index.tsx:55 | a text ending in '-' and a run of digits splits there in only one way |
| TimeGrid.Hours | orbit-sanctuary/client/components/TimeGrid.tsx:34 | the window is openHour, openHour+1, ..., closeHour-1 in ascending order, of length closeHour-openHour (empty when that is not positive); h is in it iff openHour <= h < closeHour |
| TimeGrid.BookedHours | orbit-sanctuary/client/components/TimeGrid.tsx:37-41 | h is in the booked set iff some booking has this court, this day key and start hour h |
| TimeGrid.RowAt | orbit-sanctuary/client/components/TimeGrid.tsx:47-60 | one hour's row: labelled booked iff the hour is in the booked set, past iff not booked and today and h <= nowHour, disabled iff past or booked, selected iff it is the selected hour |
| TimeGrid.Grid | orbit-sanctuary/client/components/TimeGrid.tsx:45-70 | one row per window hour, in order. The label is booked iff the slot is taken. It is past iff not taken and today and h <= nowHour. Disabled iff (today and h <= nowHour) or taken. Selected iff selectedHour == h |
| TimeGrid.OnlyTodayHasPastHours | orbit-sanctuary/client/components/TimeGrid.tsx:33-50 | on a day other than today no row is past, and a row is disabled exactly when it is booked |
| TimeGrid.StartedHoursAreDisabled | orbit-sanctuary/client/components/TimeGrid.tsx:47-50 | today, the hour in progress and every earlier hour are disabled and not labelled available |
| TimeGrid.AtMostOneSelected | orbit-sanctuary/client/components/TimeGrid.tsx:49 | two rows marked selected are the same row |
| TimeGrid.OtherSlotsDoNotAffectGrid | orbit-sanctuary/client/components/TimeGrid.tsx:37-41 | removing a booking of another court or another day from anywhere in the list leaves every row unchanged |
| IndexPage.BookingId | orbit-sanctuary/client/pages/Index.tsx:55 | the body is the template `${dateKey}-${court}-${selectedHour}`; the contract adds that the id starts with the day key and a dash and, for a non-negative hour, ends with a dash and the hour's digits. `IndexPage.BookingIdInjective` proves the id determines the slot for non-negative courts and hours; `IndexPage.ExampleId` gives "2024-06-10-1-9" for court 1 at 9 on "2024-06-10" |
| IndexPage.BookingIdInjective | orbit-sanctuary/client/pages/Index.tsx:55 | for non-negative courts and hours, equal ids mean equal day, court and hour |
| IndexPage.BookingIdCollidesForNegativeCourt | orbit-sanctuary/client/pages/Index.tsx:55 | with a negative court, two different slots ("x-", 1, 0) and ("x", -1, 0) share an id |
| IndexPage.DistinctIds | orbit-sanctuary/client/pages/Index.tsx:48-57 | bookings with distinct slots, derived ids and non-negative courts and hours have pairwise distinct ids, as the list keys (Index.tsx:143) require |
| IndexPage.HasConflict | orbit-sanctuary/client/pages/Index.tsx:48-50 | the conflict test is true iff some booking holds the same day, court and start hour |
| IndexPage.Submit | orbit-sanctuary/client/pages/Index.tsx:43-60 | incomplete iff name or email is all white space or no hour is selected (checked first); conflict iff complete and the slot is taken; a confirmed booking holds the selected slot, has id `<day>-<court>-<hour>` and non-empty trimmed name and email |
| IndexPage.ConfirmKeepsInvariants | orbit-sanctuary/client/pages/Index.tsx:48-57 | appending a confirmed booking keeps the slots pairwise distinct and every id derived from its slot |
| IndexPage.GridAgreesWithConfirm | orbit-sanctuary/client/pages/Index.tsx:106-114 | with a complete form, the grid labels the selected hour booked iff Confirm reports a conflict, and otherwise Confirm accepts it |
| IndexPage.ConfirmedSlotShowsBooked | orbit-sanctuary/client/pages/Index.tsx:48-57 | the confirmed hour was not in the booked set of its day and court before, and is after |
| IndexPage.PageWindow | orbit-sanctuary/client/pages/Index.tsx:112-113 | the page passes the grid's default window (8 and 22, TimeGrid.tsx:29-30), which is the fourteen hours 8 to 21 |
| IndexPage.SubmitAccepts | orbit-sanctuary/client/pages/Index.tsx:43-56 | a complete, already trimmed form on a free slot is confirmed with exactly the booking built from the form and the slot |
| IndexPage.ExampleFirstConfirm | orbit-sanctuary/client/pages/Index.tsx:43-57 | on an empty list, booking court 1 at 9 on "2024-06-10" as "A" / "a@x.com" confirms the booking with id "2024-06-10-1-9" |
| IndexPage.ExampleFormTrimmed | orbit-sanctuary/client/pages/Index.tsx:44 | "A" and "a@x.com" are their own trims |
| IndexPage.ExampleId | orbit-sanctuary/client/pages/Index.tsx:55 | the id of court 1 at 9 on "2024-06-10" is "2024-06-10-1-9" |
| IndexPage.ExampleRepeatConflicts | orbit-sanctuary/client/pages/Index.tsx:48-54 | booking the same slot again is a conflict |
| IndexPage.ExampleNoHourIncomplete | orbit-sanctuary/client/pages/Index.tsx:44-47 | with no selected hour the form is incomplete, whatever the list holds |
| IndexPage.OnDate | orbit-sanctuary/client/pages/Index.tsx:62 | the filter: the bookings of the day key, all courts, in list order; its contract says every kept booking is on the day and the result is no longer than the list; `IndexPage.OnDateCounts` gives the counts, `IndexPage.OnDateAppend` and `IndexPage.OnDateSingle` give the order |
| IndexPage.OnDateCounts | orbit-sanctuary/client/pages/Index.tsx:62 | the filter keeps every booking of the day key as often as the list has it, and no other booking |
| IndexPage.OnDateAppend | orbit-sanctuary/client/pages/Index.tsx:62 | filtering a concatenation is the concatenation of the filtered parts, so the filter keeps list order |
| IndexPage.OnDateSingle | orbit-sanctuary/client/pages/Index.tsx:62 | a single booking is kept exactly when its date is the day key |
| IndexPage.InsertByHourSorted | orbit-sanctuary/client/pages/Index.tsx:62 | inserting into a list sorted by start hour keeps it sorted and adds one element |
| IndexPage.InsertByHourPermutes | orbit-sanctuary/client/pages/Index.tsx:62 | inserting adds exactly the inserted booking to the multiset |
| IndexPage.SortByHour | orbit-sanctuary/client/pages/Index.tsx:62 | the sort's result ascends by start hour and is a permutation of its input |
| IndexPage.TodaysBookings | orbit-sanctuary/client/pages/Index.tsx:62 | the listing ascends by start hour and holds exactly the day's bookings (all courts), each as often as the list has it |
| IndexPage.OfHourCons | orbit-sanctuary/client/pages/Index.tsx:62 | the bookings of one hour in x followed by t are x (if it starts then) followed by those of t |
| IndexPage.OfHourInsert | orbit-sanctuary/client/pages/Index.tsx:62 | insertion puts the inserted booking ahead of the equal-hour bookings already present |
| IndexPage.SortByHourStable | orbit-sanctuary/client/pages/Index.tsx:62 | sorting keeps the list order of the bookings of each hour (stability) |
| IndexPage.OfHourHas | orbit-sanctuary/client/pages/Index.tsx:62 | each booking is among the bookings of its own hour |
| IndexPage.OfHourFrom | orbit-sanctuary/client/pages/Index.tsx:62 | the bookings of an hour come from the list and start at that hour |
| IndexPage.SameFirst | orbit-sanctuary/client/pages/Index.tsx:62 | two sorted lists with the same per-hour orders begin with the same booking |
| IndexPage.OfHourTails | orbit-sanctuary/client/pages/Index.tsx:62 | dropping the same first booking keeps per-hour orders equal |
| IndexPage.SortedByHourUnique | orbit-sanctuary/client/pages/Index.tsx:62 | two sorted lists with the same per-hour orders are equal, so a stable sort has a single result |
| IndexPage.TodaysBookingsIsStableSort | orbit-sanctuary/client/pages/Index.tsx:62 | the listing keeps each hour's bookings in list order, and it is the only sorted sequence that does: it is what the stable `Array.prototype.sort` gives |
| IndexPage.LoadBookings | orbit-sanctuary/client/pages/Index.tsx:12-19 | a stored non-empty text that parses gives exactly the parsed list, and a non-empty result only arises that way; a failed read, nothing stored, an empty text or a syntax error give the empty list |
| IndexPage.LoadAfterSave | orbit-sanctuary/client/pages/Index.tsx:12-23 | loading what was saved gives the saved list back when its text parses back to it |
| IndexPage.BookingPage.constructor | orbit-sanctuary/client/pages/Index.tsx:26-31 | the first state: today selected, court 1, no hour, empty name and email, no bookings |
| IndexPage.BookingPage.Load | orbit-sanctuary/client/pages/Index.tsx:33-35 | the start-up effect replaces the bookings by what loading gives, and changes nothing else |
| IndexPage.BookingPage.Confirm | orbit-sanctuary/client/pages/Index.tsx:43-60 | the outcome is Submit's on the old state. On success the booking is appended at the end (earlier ones unchanged, in order) and the hour is cleared. On a rejection neither bookings nor hour change. The form, day and court never change. Distinct slots and derived ids are kept |

## Left out

- Browser storage and JSON are parameters. What reading the key gives is a `Stored` value: the
  read failed, nothing was stored, or a text. The JSON parser is a function from text to
  `Parsed`, either a list of bookings or a syntax error. A parsed value of the wrong shape
  (`null`, an object, a list of other records) is returned unchecked by the source. The model
  cannot represent it.
- The save effect (`Index.tsx:37-39`) and its ordering against the load effect are React
  lifecycle, not modelled. `IndexPage.LoadAfterSave` relates saving and loading through the
  serialiser and parser parameters.
- React hooks, rendering, JSX and CSS are not modelled. The page state is a class whose fields
  the input handlers assign directly (name, email, court tab, day strip, grid button). These
  setters are plain field assignments, not separate methods.
- The date library and the clock (`format`, `isSameDay`, `startOfDay`, `new Date()`) are not
  modelled. The day is an opaque key, and `isToday` and `nowHour` are inputs to the grid.
- Toast messages, the zero-padded hour labels and the `Intl` clock display are presentation only.
- The date strip (`DateScroller.tsx`), the site layout, the not-found page and the court tab
  buttons are not modelled: they have no rule of their own.
- JsString.IntToString: models only integral numbers written without an exponent, that is, of
  magnitude below 10^21. The page only interpolates small courts and hours.
- JsString.Trim: strings are sequences of code points, not UTF-16 code units. Every character
  `trim` strips lies in the Basic Multilingual Plane, so the two views agree on what is stripped.
- IndexPage.BookingIdInjective: proved only for non-negative courts and hours. With a negative
  court, ids can collide (`IndexPage.BookingIdCollidesForNegativeCourt`). The page only offers
  courts 1-3 and hours 8-21.
- IndexPage.DistinctIds: proved only for non-negative courts and hours, for the same reason.
