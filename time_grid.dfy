/** The hour grid of one day on one court: which one-hour slots are past, booked, selected or
    disabled, and which status label each row shows. The clock is abstracted to two inputs:
    `isToday` (the grid's date is the clock's calendar day) and `nowHour` (the clock's hour). */
module TimeGrid {
  import opened Wrappers

  /** A confirmed reservation of court `court` for the hour starting at `startHour` on the day
      whose key (`yyyy-MM-dd`) is `date`. */
  datatype Booking = Booking(id: string, name: string, email: string, court: int, date: string, startHour: int)

  /** What the row of one hour says about it: booked, past, or open for selection. */
  datatype Status = Booked | Past | Available

  /** One rendered row: the hour, its status label, whether its button shows "selected", and
      whether that button is disabled. */
  datatype Row = Row(hour: int, status: Status, selected: bool, disabled: bool)

  /** Opening window used when the caller passes none: 08:00 inclusive to 22:00 exclusive. */
  const DefaultOpenHour := 8
  const DefaultCloseHour := 22

  /** `b` holds the slot starting at `hour` on `court` on day `dateKey`. */
  predicate Occupies(b: Booking, dateKey: string, court: int, hour: int) {
    b.date == dateKey && b.court == court && b.startHour == hour
  }

  /** Some booking in `bookings` holds that slot. */
  predicate SlotTaken(bookings: seq<Booking>, dateKey: string, court: int, hour: int) {
    exists i :: 0 <= i < |bookings| && Occupies(bookings[i], dateKey, court, hour)
  }

  /** The hours of the window in ascending order: `openHour`, `openHour + 1`, ..., `closeHour - 1`.
      A window whose length is zero or negative has no hours, as an array of negative length is
      created empty. */
  function Hours(openHour: int, closeHour: int): (hours: seq<int>)
    ensures |hours| == if openHour < closeHour then closeHour - openHour else 0
    ensures forall i :: 0 <= i < |hours| ==> hours[i] == openHour + i
    ensures forall h :: h in hours <==> openHour <= h < closeHour
    decreases closeHour - openHour
  {
    if openHour < closeHour then [openHour] + Hours(openHour + 1, closeHour) else []
  }

  /** The start hours of the bookings on `court` on day `dateKey`. */
  function BookedHours(bookings: seq<Booking>, court: int, dateKey: string): (booked: set<int>)
    ensures forall h :: h in booked <==> SlotTaken(bookings, dateKey, court, h)
  {
    if bookings == [] then {}
    else
      var rest := BookedHours(bookings[1..], court, dateKey);
      assert forall h :: SlotTaken(bookings[1..], dateKey, court, h) ==> SlotTaken(bookings, dateKey, court, h) by {
        forall h | SlotTaken(bookings[1..], dateKey, court, h)
          ensures SlotTaken(bookings, dateKey, court, h)
        {
          var i :| 0 <= i < |bookings[1..]| && Occupies(bookings[1..][i], dateKey, court, h);
          assert Occupies(bookings[i + 1], dateKey, court, h);
        }
      }
      if bookings[0].court == court && bookings[0].date == dateKey then {bookings[0].startHour} + rest
      else rest
  }

  /** The row of hour `h`, given the set of booked hours. */
  function RowAt(h: int, booked: set<int>, selectedHour: Option<int>, isToday: bool, nowHour: int): (row: Row)
    ensures row.hour == h
    ensures row.status == Booked <==> h in booked
    ensures row.status == Past <==> h !in booked && isToday && h <= nowHour
    ensures row.disabled <==> (isToday && h <= nowHour) || h in booked
    ensures row.selected <==> selectedHour == Some(h)
  {
    var isPast := isToday && h <= nowHour;
    var isBooked := h in booked;
    var isSelected := selectedHour == Some(h);
    Row(h, if isBooked then Booked else if isPast then Past else Available, isSelected, isPast || isBooked)
  }

  /** The rows of the grid for `court` on day `dateKey`, one per hour of the window. An hour is
      past when the day is today and the hour has begun (the hour in progress included); it is
      booked when a booking holds it on this court and day; the label says "booked" before
      "past"; the button is disabled when the hour is past or booked, and shows "selected" when
      it is the selected hour. */
  function Grid(bookings: seq<Booking>, court: int, dateKey: string, selectedHour: Option<int>,
                openHour: int, closeHour: int, isToday: bool, nowHour: int): (rows: seq<Row>)
    ensures |rows| == |Hours(openHour, closeHour)|
    ensures forall i :: 0 <= i < |rows| ==> rows[i].hour == openHour + i
    ensures forall i :: 0 <= i < |rows| ==>
      (rows[i].status == Booked <==> SlotTaken(bookings, dateKey, court, rows[i].hour))
    ensures forall i :: 0 <= i < |rows| ==>
      (rows[i].status == Past <==> !SlotTaken(bookings, dateKey, court, rows[i].hour) && isToday && rows[i].hour <= nowHour)
    ensures forall i :: 0 <= i < |rows| ==>
      (rows[i].disabled <==> (isToday && rows[i].hour <= nowHour) || SlotTaken(bookings, dateKey, court, rows[i].hour))
    ensures forall i :: 0 <= i < |rows| ==> (rows[i].selected <==> selectedHour == Some(rows[i].hour))
  {
    var hours := Hours(openHour, closeHour);
    var booked := BookedHours(bookings, court, dateKey);
    seq(|hours|, i requires 0 <= i < |hours| => RowAt(hours[i], booked, selectedHour, isToday, nowHour))
  }

  /** On any day other than today no hour is past: a row is disabled only when it is booked. */
  lemma OnlyTodayHasPastHours(bookings: seq<Booking>, court: int, dateKey: string, selectedHour: Option<int>,
                              openHour: int, closeHour: int, nowHour: int)
    ensures var rows := Grid(bookings, court, dateKey, selectedHour, openHour, closeHour, false, nowHour);
      forall i :: 0 <= i < |rows| ==> rows[i].status != Past && (rows[i].disabled <==> rows[i].status == Booked)
  {
  }

  /** Today, the hour in progress and every earlier hour of the window are disabled, booked or not. */
  lemma StartedHoursAreDisabled(bookings: seq<Booking>, court: int, dateKey: string, selectedHour: Option<int>,
                                openHour: int, closeHour: int, nowHour: int, i: int)
    requires var rows := Grid(bookings, court, dateKey, selectedHour, openHour, closeHour, true, nowHour);
      0 <= i < |rows| && rows[i].hour <= nowHour
    ensures var rows := Grid(bookings, court, dateKey, selectedHour, openHour, closeHour, true, nowHour);
      rows[i].disabled && rows[i].status != Available
  {
  }

  /** At most one row of the grid shows "selected". */
  lemma AtMostOneSelected(bookings: seq<Booking>, court: int, dateKey: string, selectedHour: Option<int>,
                          openHour: int, closeHour: int, isToday: bool, nowHour: int, i: int, j: int)
    requires var rows := Grid(bookings, court, dateKey, selectedHour, openHour, closeHour, isToday, nowHour);
      0 <= i < |rows| && 0 <= j < |rows| && rows[i].selected && rows[j].selected
    ensures i == j
  {
  }

  /** Bookings on other courts or other days never change the grid: removing one of them from
      anywhere in the list gives the same rows. */
  lemma {:induction false} OtherSlotsDoNotAffectGrid(before: seq<Booking>, b: Booking, after: seq<Booking>,
                                                     court: int, dateKey: string, selectedHour: Option<int>,
                                                     openHour: int, closeHour: int, isToday: bool, nowHour: int)
    requires b.court != court || b.date != dateKey
    ensures Grid(before + [b] + after, court, dateKey, selectedHour, openHour, closeHour, isToday, nowHour)
         == Grid(before + after, court, dateKey, selectedHour, openHour, closeHour, isToday, nowHour)
  {
    var withB, withoutB := before + [b] + after, before + after;
    forall h ensures SlotTaken(withB, dateKey, court, h) <==> SlotTaken(withoutB, dateKey, court, h) {
      if SlotTaken(withB, dateKey, court, h) {
        var i :| 0 <= i < |withB| && Occupies(withB[i], dateKey, court, h);
        if i < |before| {
          assert withoutB[i] == withB[i];
        } else {
          assert withoutB[i - 1] == withB[i];
        }
      }
      if SlotTaken(withoutB, dateKey, court, h) {
        var i :| 0 <= i < |withoutB| && Occupies(withoutB[i], dateKey, court, h);
        if i < |before| {
          assert withB[i] == withoutB[i];
        } else {
          assert withB[i + 1] == withoutB[i];
        }
      }
    }
    var bookedWith, bookedWithout := BookedHours(withB, court, dateKey), BookedHours(withoutB, court, dateKey);
    assert forall h :: h in bookedWith <==> h in bookedWithout;
    assert bookedWith == bookedWithout;
  }
}
