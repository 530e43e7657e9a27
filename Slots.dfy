/**
 * The records generateHours works on (bookings, caller-supplied slots and the
 * rows it produces) and the two searches it runs for every row: the first
 * booking overlapping the row's window, and the first slot stamped with the
 * row's start time. Together they decide a row's booking and availability.
 */
module Slots {
  import opened Clock
  import opened Optional

  /** A booking: a titled [startDate, endDate) interval. */
  datatype Booking = Booking(title: string, startDate: Millis, endDate: Millis)

  /** A caller-supplied slot: a point in time, its availability flag and an optional booking. */
  datatype Slot = Slot(slot: Millis, available: bool, event: Option<Booking>)

  /** A generated row; `event` is None where the source stores `{}`. */
  datatype Row = Row(time: string, available: bool, event: Option<Booking>, isoTime: Millis)

  /** The strict overlap test of a booking with the window [windowStart, windowEnd). */
  predicate Overlaps(b: Booking, windowStart: Millis, windowEnd: Millis)
  {
    b.startDate < windowEnd && b.endDate > windowStart
  }

  /** A slot carries a booking and that booking overlaps the window. */
  predicate SlotEventOverlaps(sl: Slot, windowStart: Millis, windowEnd: Millis)
  {
    sl.event.Some? && Overlaps(sl.event.value, windowStart, windowEnd)
  }

  /** Slot j is the first slot, in list order, whose booking overlaps the window. */
  predicate FirstOverlapAt(slots: seq<Slot>, j: int, windowStart: Millis, windowEnd: Millis)
  {
    && 0 <= j < |slots|
    && SlotEventOverlaps(slots[j], windowStart, windowEnd)
    && forall k :: 0 <= k < j ==> !SlotEventOverlaps(slots[k], windowStart, windowEnd)
  }

  /** Slot j is the first slot, in list order, stamped exactly t. */
  predicate FirstMatchAt(slots: seq<Slot>, j: int, t: Millis)
  {
    0 <= j < |slots| && slots[j].slot == t && forall k :: 0 <= k < j ==> slots[k].slot != t
  }

  /** `slots.filter(slot => slot.Event).map(slot => slot.Event)`: the bookings, in slot order. */
  function EventsOf(slots: seq<Slot>): (events: seq<Booking>)
    ensures |events| <= |slots|
  {
    if |slots| == 0 then []
    else (if slots[0].event.Some? then [slots[0].event.value] else []) + EventsOf(slots[1..])
  }

  /** `Events.find(b => overlaps)`: the first booking overlapping the window, if any. */
  function FirstOverlapping(events: seq<Booking>, windowStart: Millis, windowEnd: Millis): (r: Option<Booking>)
    ensures r.Some? ==> r.value in events && Overlaps(r.value, windowStart, windowEnd)
  {
    if |events| == 0 then None
    else if Overlaps(events[0], windowStart, windowEnd) then Some(events[0])
    else FirstOverlapping(events[1..], windowStart, windowEnd)
  }

  /** The search finds nothing exactly when no booking overlaps; otherwise it finds the first that does. */
  lemma {:induction false} FirstOverlappingSpec(events: seq<Booking>, windowStart: Millis, windowEnd: Millis)
    ensures var r := FirstOverlapping(events, windowStart, windowEnd);
            && (r.None? <==> forall k :: 0 <= k < |events| ==> !Overlaps(events[k], windowStart, windowEnd))
            && (r.Some? ==> exists k :: 0 <= k < |events| && events[k] == r.value
                                        && Overlaps(events[k], windowStart, windowEnd)
                                        && forall m :: 0 <= m < k ==> !Overlaps(events[m], windowStart, windowEnd))
  {
    if |events| > 0 && !Overlaps(events[0], windowStart, windowEnd) {
      FirstOverlappingSpec(events[1..], windowStart, windowEnd);
      assert forall k :: 1 <= k < |events| ==> events[k] == events[1..][k - 1];
      var r := FirstOverlapping(events[1..], windowStart, windowEnd);
      if r.Some? {
        var k :| 0 <= k < |events[1..]| && events[1..][k] == r.value
                 && Overlaps(events[1..][k], windowStart, windowEnd)
                 && forall m :: 0 <= m < k ==> !Overlaps(events[1..][m], windowStart, windowEnd);
        assert events[k + 1] == r.value;
      }
    }
  }

  /** `slots.find(slot => same instant as t)`: the first slot stamped exactly t, if any. */
  function FindSlot(slots: seq<Slot>, t: Millis): (r: Option<Slot>)
    ensures r.Some? ==> r.value in slots && r.value.slot == t
  {
    if |slots| == 0 then None
    else if slots[0].slot == t then Some(slots[0])
    else FindSlot(slots[1..], t)
  }

  /** The search finds nothing exactly when no slot is stamped t; otherwise it finds the first that is. */
  lemma {:induction false} FindSlotSpec(slots: seq<Slot>, t: Millis)
    ensures var r := FindSlot(slots, t);
            && (r.None? <==> forall k :: 0 <= k < |slots| ==> slots[k].slot != t)
            && (r.Some? ==> exists k :: FirstMatchAt(slots, k, t) && slots[k] == r.value)
  {
    if |slots| > 0 && slots[0].slot != t {
      FindSlotSpec(slots[1..], t);
      assert forall k :: 1 <= k < |slots| ==> slots[k] == slots[1..][k - 1];
      var r := FindSlot(slots[1..], t);
      if r.Some? {
        var k :| FirstMatchAt(slots[1..], k, t) && slots[1..][k] == r.value;
        assert FirstMatchAt(slots, k + 1, t);
      }
    } else if |slots| > 0 {
      assert FirstMatchAt(slots, 0, t);
    }
  }

  /** The first booking overlapping the window among the slots' bookings is that of the first slot whose booking overlaps it. */
  lemma {:induction false} FirstOverlappingOfSlots(slots: seq<Slot>, windowStart: Millis, windowEnd: Millis)
    ensures FirstOverlapping(EventsOf(slots), windowStart, windowEnd).None?
            <==> forall j :: 0 <= j < |slots| ==> !SlotEventOverlaps(slots[j], windowStart, windowEnd)
    ensures FirstOverlapping(EventsOf(slots), windowStart, windowEnd).Some? ==>
              exists j :: FirstOverlapAt(slots, j, windowStart, windowEnd)
                          && slots[j].event == FirstOverlapping(EventsOf(slots), windowStart, windowEnd)
  {
    if |slots| > 0 {
      var head := if slots[0].event.Some? then [slots[0].event.value] else [];
      var rest := EventsOf(slots[1..]);
      FirstOverlappingOfSlots(slots[1..], windowStart, windowEnd);
      FirstOverlappingSpec(rest, windowStart, windowEnd);
      FirstOverlappingSpec(head + rest, windowStart, windowEnd);
      assert EventsOf(slots) == head + rest;
      assert forall j :: 1 <= j < |slots| ==> slots[j] == slots[1..][j - 1];
      if SlotEventOverlaps(slots[0], windowStart, windowEnd) {
        assert FirstOverlapAt(slots, 0, windowStart, windowEnd);
      } else {
        assert (head + rest)[|head|..] == rest;
        assert FirstOverlapping(head + rest, windowStart, windowEnd)
            == FirstOverlapping(rest, windowStart, windowEnd);
        var r := FirstOverlapping(rest, windowStart, windowEnd);
        if r.Some? {
          var j :| FirstOverlapAt(slots[1..], j, windowStart, windowEnd) && slots[1..][j].event == r;
          assert FirstOverlapAt(slots, j + 1, windowStart, windowEnd);
        }
      }
    }
  }

  /** Only one slot can be the first stamped t. */
  lemma FirstMatchUnique(slots: seq<Slot>, j: int, k: int, t: Millis)
    requires FirstMatchAt(slots, j, t) && FirstMatchAt(slots, k, t)
    ensures j == k
  {
  }

  /** A row's availability: `overlappingBooking ? false : matchingSlot?.available !== false`. */
  function RowAvailable(overlapping: Option<Booking>, matching: Option<Slot>): (available: bool)
    ensures available ==> overlapping.None?
    ensures overlapping.None? && matching.None? ==> available
  {
    if overlapping.Some? then false else !(matching.Some? && !matching.value.available)
  }

  /**
   * The availability rule for the window [windowStart, windowEnd): unavailable whenever some
   * slot's booking overlaps the window, whatever the flags say; otherwise unavailable exactly
   * when the first slot stamped windowStart says `available: false`, and available when no
   * slot is stamped with it.
   */
  lemma AvailabilityRule(slots: seq<Slot>, windowStart: Millis, windowEnd: Millis)
    ensures var available := RowAvailable(FirstOverlapping(EventsOf(slots), windowStart, windowEnd), FindSlot(slots, windowStart));
            && ((exists j :: 0 <= j < |slots| && SlotEventOverlaps(slots[j], windowStart, windowEnd)) ==> !available)
            && ((forall j :: 0 <= j < |slots| ==> !SlotEventOverlaps(slots[j], windowStart, windowEnd)) ==>
                  (!available <==> exists j :: FirstMatchAt(slots, j, windowStart) && !slots[j].available))
  {
    FirstOverlappingOfSlots(slots, windowStart, windowEnd);
    FindSlotSpec(slots, windowStart);
    var matching := FindSlot(slots, windowStart);
    if matching.Some? {
      var k :| FirstMatchAt(slots, k, windowStart) && slots[k] == matching.value;
      forall j | FirstMatchAt(slots, j, windowStart) ensures slots[j] == slots[k] {
        FirstMatchUnique(slots, j, k, windowStart);
      }
    }
  }
}
