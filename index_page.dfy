/** The booking page: the state it keeps (bookings, selected day, court, hour, name, email),
    the confirm action that validates the form, rejects a taken slot and appends the new
    booking, the listing of the selected day's bookings, and the start-up load that degrades to
    an empty list. The day is an opaque key (`yyyy-MM-dd`); storage and JSON are parameters. */
module IndexPage {
  import opened Wrappers
  import opened JsString
  import opened TimeGrid

  /** The window the page passes to the grid. */
  const OpenHour := 8
  const CloseHour := 22

  /** What confirming the form did. */
  datatype Outcome = Confirmed(booking: Booking) | IncompleteForm | SlotConflict

  /** What reading the storage key gave: the read itself threw, nothing was stored, or a text. */
  datatype Stored = ReadFailed | Absent | Text(raw: string)

  /** What parsing a stored text gave: a list of bookings, or a thrown syntax error. */
  datatype Parsed = Value(items: seq<Booking>) | SyntaxError

  // ---------------------------------------------------------------------------------------------
  // Slot identity

  /** The id of the booking of `court` at `hour` on day `dateKey`: "<dateKey>-<court>-<hour>". */
  function BookingId(dateKey: string, court: int, hour: int): (id: string)
    ensures |id| > |dateKey| + 1 && id[..|dateKey|] == dateKey && id[|dateKey|] == '-'
    ensures hour >= 0 ==> var h := IntToString(hour);
      |id| > |h| && id[|id| - |h|..] == h && id[|id| - |h| - 1] == '-' && AllDigits(h)
  {
    dateKey + "-" + IntToString(court) + "-" + IntToString(hour)
  }

  /** For the courts and hours the page offers (never negative) the id determines the slot. */
  lemma {:induction false} BookingIdInjective(d1: string, c1: int, h1: int, d2: string, c2: int, h2: int)
    requires c1 >= 0 && h1 >= 0 && c2 >= 0 && h2 >= 0
    requires BookingId(d1, c1, h1) == BookingId(d2, c2, h2)
    ensures d1 == d2 && c1 == c2 && h1 == h2
  {
    SplitAtLastDash(d1 + "-" + IntToString(c1), IntToString(h1), d2 + "-" + IntToString(c2), IntToString(h2));
    SplitAtLastDash(d1, IntToString(c1), d2, IntToString(c2));
    IntToStringInjective(c1, c2);
    IntToStringInjective(h1, h2);
  }

  /** With a negative court two different slots share an id, as the day key may end in '-'. */
  lemma BookingIdCollidesForNegativeCourt()
    ensures BookingId("x-", 1, 0) == BookingId("x", -1, 0)
  {
    assert IntToString(1) == "1" && IntToString(-1) == "-1" && IntToString(0) == "0";
    assert BookingId("x-", 1, 0) == "x--1-0";
  }

  predicate SameSlot(a: Booking, b: Booking) {
    a.date == b.date && a.court == b.court && a.startHour == b.startHour
  }

  /** No two bookings hold the same (date, court, startHour) slot. */
  predicate NoDuplicateSlots(bookings: seq<Booking>) {
    forall i, j :: 0 <= i < j < |bookings| ==> !SameSlot(bookings[i], bookings[j])
  }

  /** Every booking's id is the one derived from its slot. */
  predicate IdsDerived(bookings: seq<Booking>) {
    forall i :: 0 <= i < |bookings| ==> bookings[i].id == BookingId(bookings[i].date, bookings[i].court, bookings[i].startHour)
  }

  /** Distinct slots with non-negative courts and hours and derived ids have distinct ids, so the
      ids can serve as keys of the rendered list. */
  lemma DistinctIds(bookings: seq<Booking>)
    requires NoDuplicateSlots(bookings) && IdsDerived(bookings)
    requires forall i :: 0 <= i < |bookings| ==> bookings[i].court >= 0 && bookings[i].startHour >= 0
    ensures forall i, j :: 0 <= i < j < |bookings| ==> bookings[i].id != bookings[j].id
  {
    forall i, j | 0 <= i < j < |bookings| ensures bookings[i].id != bookings[j].id {
      var a, b := bookings[i], bookings[j];
      if a.id == b.id {
        BookingIdInjective(a.date, a.court, a.startHour, b.date, b.court, b.startHour);
      }
    }
  }

  // ---------------------------------------------------------------------------------------------
  // Confirm

  /** `bookings.some(...)`: does any booking hold the slot, scanning from the front. */
  function HasConflict(bookings: seq<Booking>, dateKey: string, court: int, hour: int): (conflict: bool)
    ensures conflict <==> SlotTaken(bookings, dateKey, court, hour)
  {
    if bookings == [] then false
    else
      assert forall i :: 0 <= i < |bookings| - 1 ==> bookings[1..][i] == bookings[i + 1];
      Occupies(bookings[0], dateKey, court, hour) || HasConflict(bookings[1..], dateKey, court, hour)
  }

  /** What confirming the form decides. A name or email that is empty after trimming, or no
      selected hour, is an incomplete form, checked first; a slot some booking already holds is a
      conflict; otherwise the booking of the selected slot, with derived id and trimmed name and
      email. No other condition is checked: not the court, not the opening window, not whether
      the hour has passed. */
  function Submit(bookings: seq<Booking>, dateKey: string, court: int, selectedHour: Option<int>,
                  name: string, email: string): (outcome: Outcome)
    ensures outcome == IncompleteForm <==> AllWhitespace(name) || AllWhitespace(email) || selectedHour == None
    ensures outcome == SlotConflict <==>
      !AllWhitespace(name) && !AllWhitespace(email) && selectedHour.Some?
      && SlotTaken(bookings, dateKey, court, selectedHour.value)
    ensures outcome.Confirmed? ==>
      selectedHour.Some? && Occupies(outcome.booking, dateKey, court, selectedHour.value)
      && outcome.booking.id == BookingId(dateKey, court, selectedHour.value)
      && outcome.booking.name == Trim(name) && outcome.booking.email == Trim(email)
      && outcome.booking.name != [] && outcome.booking.email != []
  {
    if Trim(name) == [] || Trim(email) == [] || selectedHour == None then IncompleteForm
    else if HasConflict(bookings, dateKey, court, selectedHour.value) then SlotConflict
    else
      var hour := selectedHour.value;
      Confirmed(Booking(BookingId(dateKey, court, hour), Trim(name), Trim(email), court, dateKey, hour))
  }

  /** A confirmed booking keeps the slots distinct and the ids derived. */
  lemma {:induction false} ConfirmKeepsInvariants(bookings: seq<Booking>, dateKey: string, court: int,
                                                   selectedHour: Option<int>, name: string, email: string)
    requires Submit(bookings, dateKey, court, selectedHour, name, email).Confirmed?
    ensures var next := bookings + [Submit(bookings, dateKey, court, selectedHour, name, email).booking];
      (NoDuplicateSlots(bookings) ==> NoDuplicateSlots(next)) && (IdsDerived(bookings) ==> IdsDerived(next))
  {
    var b := Submit(bookings, dateKey, court, selectedHour, name, email).booking;
    var hour := selectedHour.value;
    var next := bookings + [b];
    assert Occupies(b, dateKey, court, hour) && !SlotTaken(bookings, dateKey, court, hour);
    if NoDuplicateSlots(bookings) {
      forall i, j | 0 <= i < j < |next| ensures !SameSlot(next[i], next[j]) {
        assert next[i] == bookings[i];
        if j == |bookings| {
          assert !Occupies(bookings[i], dateKey, court, hour);
        } else {
          assert next[j] == bookings[j];
        }
      }
    }
    if IdsDerived(bookings) {
      forall i | 0 <= i < |next|
        ensures next[i].id == BookingId(next[i].date, next[i].court, next[i].startHour)
      {
        if i < |bookings| {
          assert next[i] == bookings[i];
        }
      }
    }
  }

  /** The grid's "booked" label and the confirm action's conflict agree: a slot shown booked is
      refused as a conflict, and a slot not shown booked is accepted once the form is complete. */
  lemma GridAgreesWithConfirm(bookings: seq<Booking>, dateKey: string, court: int, hour: int,
                              name: string, email: string, isToday: bool, nowHour: int, i: int)
    requires !AllWhitespace(name) && !AllWhitespace(email)
    requires var rows := Grid(bookings, court, dateKey, Some(hour), OpenHour, CloseHour, isToday, nowHour);
      0 <= i < |rows| && rows[i].hour == hour
    ensures var rows := Grid(bookings, court, dateKey, Some(hour), OpenHour, CloseHour, isToday, nowHour);
      (rows[i].status == Booked <==> Submit(bookings, dateKey, court, Some(hour), name, email) == SlotConflict)
      && (rows[i].status != Booked <==> Submit(bookings, dateKey, court, Some(hour), name, email).Confirmed?)
  {
  }

  /** After a confirmed booking the grid of its day and court shows its hour booked. */
  lemma ConfirmedSlotShowsBooked(bookings: seq<Booking>, dateKey: string, court: int, selectedHour: Option<int>,
                                 name: string, email: string)
    requires Submit(bookings, dateKey, court, selectedHour, name, email).Confirmed?
    ensures var b := Submit(bookings, dateKey, court, selectedHour, name, email).booking;
      b.startHour !in BookedHours(bookings, court, dateKey)
      && b.startHour in BookedHours(bookings + [b], court, dateKey)
  {
    var b := Submit(bookings, dateKey, court, selectedHour, name, email).booking;
    assert Occupies((bookings + [b])[|bookings|], dateKey, court, b.startHour);
  }

  /** The page passes the grid's default window, which has the fourteen hours 08:00 to 21:00. */
  lemma PageWindow()
    ensures OpenHour == DefaultOpenHour && CloseHour == DefaultCloseHour
    ensures Hours(OpenHour, CloseHour) == [8, 9, 10, 11, 12, 13, 14, 15, 16, 17, 18, 19, 20, 21]
  {
  }

  /** The booking of the scenario below. */
  const ExampleBooking := Booking("2024-06-10-1-9", "A", "a@x.com", 1, "2024-06-10", 9)

  /** On an empty list, booking court 1 at 9 on "2024-06-10" as "A" succeeds with id
      "2024-06-10-1-9". */
  lemma ExampleFirstConfirm()
    ensures Submit([], "2024-06-10", 1, Some(9), "A", "a@x.com") == Confirmed(ExampleBooking)
  {
    ExampleFormTrimmed();
    ExampleId();
    SubmitAccepts([], "2024-06-10", 1, 9, "A", "a@x.com");
  }

  lemma SubmitAccepts(bookings: seq<Booking>, dateKey: string, court: int, hour: int, name: string, email: string)
    requires name != [] && Trim(name) == name && email != [] && Trim(email) == email
    requires !SlotTaken(bookings, dateKey, court, hour)
    ensures Submit(bookings, dateKey, court, Some(hour), name, email)
            == Confirmed(Booking(BookingId(dateKey, court, hour), name, email, court, dateKey, hour))
  {
  }

  lemma ExampleFormTrimmed()
    ensures Trim("A") == "A" && Trim("a@x.com") == "a@x.com"
  {
    TrimKeepsTrimmed("A");
    TrimKeepsTrimmed("a@x.com");
  }

  lemma ExampleId()
    ensures BookingId("2024-06-10", 1, 9) == "2024-06-10-1-9"
  {
    assert IntToString(1) == "1";
    assert IntToString(9) == "9";
  }

  /** Booking the same slot again is refused as a conflict. */
  lemma ExampleRepeatConflicts()
    ensures Submit([ExampleBooking], "2024-06-10", 1, Some(9), "A", "a@x.com") == SlotConflict
  {
    var bookings := [ExampleBooking];
    ExampleFormTrimmed();
    assert Occupies(bookings[0], "2024-06-10", 1, 9);
    assert SlotTaken(bookings, "2024-06-10", 1, 9);
  }

  /** Without a selected hour the form is incomplete, whatever the list holds. */
  lemma ExampleNoHourIncomplete(bookings: seq<Booking>)
    ensures Submit(bookings, "2024-06-10", 1, None, "A", "a@x.com") == IncompleteForm
  {
  }

  // ---------------------------------------------------------------------------------------------
  // The day's listing

  /** `filter`: the bookings on day `dateKey`, all courts, in list order. */
  function OnDate(bookings: seq<Booking>, dateKey: string): (day: seq<Booking>)
    ensures |day| <= |bookings|
    ensures forall i :: 0 <= i < |day| ==> day[i].date == dateKey
  {
    if bookings == [] then []
    else (if bookings[0].date == dateKey then [bookings[0]] else []) + OnDate(bookings[1..], dateKey)
  }

  /** The filter keeps every booking of the day as often as the list has it, and no other. */
  lemma {:induction false} OnDateCounts(bookings: seq<Booking>, dateKey: string)
    ensures forall b :: multiset(OnDate(bookings, dateKey))[b] == if b.date == dateKey then multiset(bookings)[b] else 0
  {
    if bookings != [] {
      OnDateCounts(bookings[1..], dateKey);
      assert bookings == [bookings[0]] + bookings[1..];
    }
  }

  /** The filter distributes over concatenation: it keeps the bookings of each part in order. */
  lemma {:induction false} OnDateAppend(a: seq<Booking>, b: seq<Booking>, dateKey: string)
    ensures OnDate(a + b, dateKey) == OnDate(a, dateKey) + OnDate(b, dateKey)
  {
    if a != [] {
      var keep := if a[0].date == dateKey then [a[0]] else [];
      assert (a + b)[0] == a[0] && (a + b)[1..] == a[1..] + b;
      assert OnDate(a + b, dateKey) == keep + OnDate(a[1..] + b, dateKey);
      OnDateAppend(a[1..], b, dateKey);
      assert OnDate(a, dateKey) == keep + OnDate(a[1..], dateKey);
      assert keep + (OnDate(a[1..], dateKey) + OnDate(b, dateKey))
          == (keep + OnDate(a[1..], dateKey)) + OnDate(b, dateKey);
    } else {
      assert a + b == b && OnDate(a, dateKey) == [];
    }
  }

  /** A single booking is kept exactly when it is on the day. */
  lemma OnDateSingle(b: Booking, dateKey: string)
    ensures OnDate([b], dateKey) == if b.date == dateKey then [b] else []
  {
    assert [b][1..] == [];
  }

  /** The bookings of `s` starting at `hour`, in order. */
  function OfHour(s: seq<Booking>, hour: int): seq<Booking> {
    if s == [] then [] else (if s[0].startHour == hour then [s[0]] else []) + OfHour(s[1..], hour)
  }

  predicate SortedByHour(s: seq<Booking>) {
    forall i, j :: 0 <= i < j < |s| ==> s[i].startHour <= s[j].startHour
  }

  /** `b` placed before the first booking of `s` that does not start earlier. */
  function InsertByHour(b: Booking, s: seq<Booking>): seq<Booking> {
    if s == [] || b.startHour <= s[0].startHour then [b] + s else [s[0]] + InsertByHour(b, s[1..])
  }

  /** Inserting into a sorted sequence keeps it sorted; the first element is `b` or the old
      first element. */
  lemma {:induction false} InsertByHourSorted(b: Booking, s: seq<Booking>)
    requires SortedByHour(s)
    ensures var r := InsertByHour(b, s); SortedByHour(r) && |r| == |s| + 1 && (r[0] == b || r[0] == s[0])
  {
    if s != [] && s[0].startHour < b.startHour {
      var x, t := s[0], s[1..];
      var rest := InsertByHour(b, t);
      InsertByHourSorted(b, t);
      assert x.startHour <= rest[0].startHour;
      assert InsertByHour(b, s) == [x] + rest;
    }
  }

  /** Inserting adds exactly `b`. */
  lemma {:induction false} InsertByHourPermutes(b: Booking, s: seq<Booking>)
    ensures multiset(InsertByHour(b, s)) == multiset{b} + multiset(s)
  {
    if s != [] && s[0].startHour < b.startHour {
      InsertByHourPermutes(b, s[1..]);
      assert s == [s[0]] + s[1..];
    }
  }

  /** A stable sort by start hour (insertion sort from the back). */
  function SortByHour(s: seq<Booking>): (r: seq<Booking>)
    ensures SortedByHour(r)
    ensures multiset(r) == multiset(s)
  {
    if s == [] then []
    else
      assert s == [s[0]] + s[1..];
      InsertByHourSorted(s[0], SortByHour(s[1..]));
      InsertByHourPermutes(s[0], SortByHour(s[1..]));
      InsertByHour(s[0], SortByHour(s[1..]))
  }

  /** `todaysBookings`: the bookings of day `dateKey`, all courts, sorted by start hour. Every
      booking of that day is there as often as in the list and no other is, and the listing
      ascends by start hour. */
  function TodaysBookings(bookings: seq<Booking>, dateKey: string): (listing: seq<Booking>)
    ensures SortedByHour(listing)
    ensures forall b :: multiset(listing)[b] == if b.date == dateKey then multiset(bookings)[b] else 0
  {
    OnDateCounts(bookings, dateKey);
    SortByHour(OnDate(bookings, dateKey))
  }

  lemma {:induction false} OfHourCons(x: Booking, t: seq<Booking>, hour: int)
    ensures OfHour([x] + t, hour) == (if x.startHour == hour then [x] else []) + OfHour(t, hour)
  {
    assert ([x] + t)[1..] == t;
  }

  lemma {:induction false} OfHourInsert(b: Booking, s: seq<Booking>, hour: int)
    ensures OfHour(InsertByHour(b, s), hour) == (if b.startHour == hour then [b] else []) + OfHour(s, hour)
  {
    if s == [] || b.startHour <= s[0].startHour {
      OfHourCons(b, s, hour);
    } else {
      var x, t := s[0], s[1..];
      var pb := if b.startHour == hour then [b] else [];
      var px := if x.startHour == hour then [x] else [];
      assert InsertByHour(b, s) == [x] + InsertByHour(b, t);
      OfHourInsert(b, t, hour);
      OfHourCons(x, InsertByHour(b, t), hour);
      assert OfHour(InsertByHour(b, s), hour) == px + (pb + OfHour(t, hour));
      OfHourCons(x, t, hour);
      assert s == [x] + t;
      assert OfHour(s, hour) == px + OfHour(t, hour);
      assert px == [] || pb == [];
    }
  }

  /** Sorting keeps the order of the bookings that start at the same hour. */
  lemma {:induction false} SortByHourStable(s: seq<Booking>, hour: int)
    ensures OfHour(SortByHour(s), hour) == OfHour(s, hour)
  {
    if s != [] {
      SortByHourStable(s[1..], hour);
      OfHourInsert(s[0], SortByHour(s[1..]), hour);
      OfHourCons(s[0], s[1..], hour);
      assert s == [s[0]] + s[1..];
    }
  }

  /** A booking of `s` that starts at `hour` appears in `OfHour(s, hour)`. */
  lemma {:induction false} OfHourHas(s: seq<Booking>, k: int)
    requires 0 <= k < |s|
    ensures s[k] in OfHour(s, s[k].startHour)
  {
    if k > 0 {
      OfHourHas(s[1..], k - 1);
    }
  }

  /** `OfHour(s, hour)` holds only bookings of `s` that start at `hour`. */
  lemma {:induction false} OfHourFrom(s: seq<Booking>, hour: int)
    ensures forall x :: x in OfHour(s, hour) ==> x in s && x.startHour == hour
  {
    if s != [] {
      OfHourFrom(s[1..], hour);
    }
  }

  /** Two sequences sorted by start hour that list the bookings of each hour in the same order
      begin with the same booking. */
  lemma {:induction false} SameFirst(r1: seq<Booking>, r2: seq<Booking>)
    requires SortedByHour(r1) && SortedByHour(r2) && r1 != []
    requires forall hour :: OfHour(r1, hour) == OfHour(r2, hour)
    ensures r2 != [] && r1[0] == r2[0]
  {
    var x := r1[0];
    OfHourCons(x, r1[1..], x.startHour);
    assert r1 == [x] + r1[1..];
    assert OfHour(r2, x.startHour) == OfHour(r1, x.startHour);
    OfHourFrom(r2, x.startHour);
    assert r2 != [];
    var y := r2[0];
    OfHourHas(r2, 0);
    assert OfHour(r1, y.startHour) == OfHour(r2, y.startHour);
    OfHourFrom(r1, y.startHour);
    assert x.startHour == y.startHour;
    OfHourCons(y, r2[1..], x.startHour);
    assert r2 == [y] + r2[1..];
    assert OfHour(r1, x.startHour)[0] == x;
    assert OfHour(r2, x.startHour)[0] == y;
  }

  /** Dropping the same first booking keeps the per-hour orders equal. */
  lemma {:induction false} OfHourTails(x: Booking, t1: seq<Booking>, t2: seq<Booking>, hour: int)
    requires OfHour([x] + t1, hour) == OfHour([x] + t2, hour)
    ensures OfHour(t1, hour) == OfHour(t2, hour)
  {
    OfHourCons(x, t1, hour);
    OfHourCons(x, t2, hour);
    var p := if x.startHour == hour then [x] else [];
    assert OfHour(t1, hour) == (p + OfHour(t1, hour))[|p|..];
    assert OfHour(t2, hour) == (p + OfHour(t2, hour))[|p|..];
  }

  /** Two sequences sorted by start hour that list the bookings of each hour in the same order
      are equal: a stable sort has one result. */
  lemma {:induction false} SortedByHourUnique(r1: seq<Booking>, r2: seq<Booking>)
    requires SortedByHour(r1) && SortedByHour(r2)
    requires forall hour :: OfHour(r1, hour) == OfHour(r2, hour)
    ensures r1 == r2
    decreases |r1|
  {
    if r1 != [] {
      SameFirst(r1, r2);
      var x := r1[0];
      assert r1 == [x] + r1[1..] && r2 == [x] + r2[1..];
      forall hour ensures OfHour(r1[1..], hour) == OfHour(r2[1..], hour) {
        OfHourTails(x, r1[1..], r2[1..], hour);
      }
      SortedByHourUnique(r1[1..], r2[1..]);
    } else if r2 != [] {
      SameFirst(r2, r1);
    }
  }

  /** The day's listing is exactly what a stable sort of the day's bookings by start hour gives:
      it keeps each hour's bookings in list order, and it is the only sorted sequence that does. */
  lemma TodaysBookingsIsStableSort(bookings: seq<Booking>, dateKey: string, listing: seq<Booking>)
    ensures forall hour :: OfHour(TodaysBookings(bookings, dateKey), hour) == OfHour(OnDate(bookings, dateKey), hour)
    ensures SortedByHour(listing) && (forall hour :: OfHour(listing, hour) == OfHour(OnDate(bookings, dateKey), hour))
            ==> listing == TodaysBookings(bookings, dateKey)
  {
    forall hour ensures OfHour(TodaysBookings(bookings, dateKey), hour) == OfHour(OnDate(bookings, dateKey), hour) {
      SortByHourStable(OnDate(bookings, dateKey), hour);
    }
    if SortedByHour(listing) && (forall hour :: OfHour(listing, hour) == OfHour(OnDate(bookings, dateKey), hour)) {
      SortedByHourUnique(listing, TodaysBookings(bookings, dateKey));
    }
  }

  // ---------------------------------------------------------------------------------------------
  // Load

  /** `loadBookings`: the parsed list when a non-empty text is stored and parses; the empty list
      when the read throws, nothing is stored, the text is empty, or parsing throws. */
  function LoadBookings(stored: Stored, parse: string -> Parsed): (bookings: seq<Booking>)
    ensures bookings != [] ==> stored.Text? && stored.raw != [] && parse(stored.raw) == Value(bookings)
    ensures stored.Text? && stored.raw != [] && parse(stored.raw).Value? ==> bookings == parse(stored.raw).items
    ensures (stored.ReadFailed? || stored.Absent? || stored == Text([])
             || (stored.Text? && parse(stored.raw) == SyntaxError)) ==> bookings == []
  {
    match stored
    case ReadFailed => []
    case Absent => []
    case Text(raw) =>
      if raw == [] then []
      else
        match parse(raw)
        case Value(items) => items
        case SyntaxError => []
  }

  /** Saving a list and loading it back gives the list, when the serialised text is not empty
      and parses back to the list (as a JSON array text always does). */
  lemma LoadAfterSave(bookings: seq<Booking>, serialize: seq<Booking> -> string, parse: string -> Parsed)
    requires serialize(bookings) != []
    requires parse(serialize(bookings)) == Value(bookings)
    ensures LoadBookings(Text(serialize(bookings)), parse) == bookings
  {
  }

  // ---------------------------------------------------------------------------------------------
  // The page state

  /** The page's state. The input handlers of the page (name, email, court tab, day strip and
      grid button) each assign one of these fields. */
  class BookingPage {
    var bookings: seq<Booking>
    var dateKey: string
    var court: int
    var selectedHour: Option<int>
    var name: string
    var email: string

    /** The page as first rendered: today selected, court 1, no hour, empty form, no bookings. */
    constructor (todayKey: string)
      ensures bookings == [] && dateKey == todayKey && court == 1 && selectedHour == None
      ensures name == [] && email == []
    {
      bookings := [];
      dateKey := todayKey;
      court := 1;
      selectedHour := None;
      name := [];
      email := [];
    }

    /** The start-up effect: replace the bookings by what storage holds. */
    method Load(stored: Stored, parse: string -> Parsed)
      modifies this`bookings
      ensures bookings == LoadBookings(stored, parse)
    {
      bookings := LoadBookings(stored, parse);
    }

    /** `onConfirm`: reject an incomplete form, then a taken slot; otherwise append the new
        booking at the end and clear the selected hour. The form, day and court stay as they are. */
    method Confirm() returns (outcome: Outcome)
      modifies this`bookings, this`selectedHour
      ensures outcome == old(Submit(bookings, dateKey, court, selectedHour, name, email))
      ensures outcome.Confirmed? ==> bookings == old(bookings) + [outcome.booking] && selectedHour == None
      ensures !outcome.Confirmed? ==> bookings == old(bookings) && selectedHour == old(selectedHour)
      ensures NoDuplicateSlots(old(bookings)) ==> NoDuplicateSlots(bookings)
      ensures IdsDerived(old(bookings)) ==> IdsDerived(bookings)
    {
      var trimmedName, trimmedEmail := Trim(name), Trim(email);
      if trimmedName == [] || trimmedEmail == [] || selectedHour == None {
        return IncompleteForm;
      }
      var hour := selectedHour.value;
      if HasConflict(bookings, dateKey, court, hour) {
        return SlotConflict;
      }
      var next := Booking(BookingId(dateKey, court, hour), trimmedName, trimmedEmail, court, dateKey, hour);
      ConfirmKeepsInvariants(bookings, dateKey, court, selectedHour, name, email);
      bookings := bookings + [next];
      selectedHour := None;
      outcome := Confirmed(next);
    }
  }
}
