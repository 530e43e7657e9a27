/**
 * The interval arithmetic of renderTimeSlot: whether the current time falls in a row, how far
 * into the row it is, and where the booking overlay sits inside an unavailable row. Offsets and
 * heights are kept in milliseconds of the row's window; the rendered value is that times a
 * pixels-per-millisecond factor.
 */
module Geometry {
  import opened Clock
  import opened Optional
  import opened Slots
  import opened Timeline

  function Max(a: int, b: int): int { if a >= b then a else b }
  function Min(a: int, b: int): int { if a <= b then a else b }

  /** `now >= slotStart && now < slotEnd`: the current time falls in the row's window. */
  predicate IsCurrentTimeSlot(now: Millis, rowStart: Millis, slotDuration: int)
    requires slotDuration > 0
  {
    rowStart <= now < rowStart + Span(slotDuration)
  }

  /**
   * calculateCurrentTimeOffset before scaling: the time elapsed since the row started when the
   * row is current, 0 otherwise. It always lies inside the row, and placed at the row's start
   * it points at `now`.
   */
  function CurrentTimeOffset(now: Millis, rowStart: Millis, slotDuration: int): (elapsed: int)
    requires slotDuration > 0
    ensures 0 <= elapsed < Span(slotDuration)
    ensures IsCurrentTimeSlot(now, rowStart, slotDuration) ==> rowStart + elapsed == now
    ensures !IsCurrentTimeSlot(now, rowStart, slotDuration) ==> elapsed == 0
  {
    if !IsCurrentTimeSlot(now, rowStart, slotDuration) then 0 else now - rowStart
  }

  /** The overlay of an unavailable row: a box (top, height) or the NaN the source computes. */
  datatype Overlay = Box(top: int, height: int) | NotANumber

  /**
   * The clamped overlap of a booking with the window [rowStart, rowEnd): the overlap starts at
   * the later of the two starts and ends at the earlier of the two ends, and both the offset
   * and the duration are clamped at 0.
   */
  function Clamp(b: Booking, rowStart: Millis, rowEnd: Millis): (o: Overlay)
    ensures o.Box? && o.top >= 0 && o.height >= 0
  {
    var overlapStart := Max(b.startDate, rowStart);
    var overlapEnd := Min(b.endDate, rowEnd);
    Box(Max(0, overlapStart - rowStart), Max(0, overlapEnd - overlapStart))
  }

  /**
   * calculateBookingOffsetAndHeight for a generated row: a full-height box for an available
   * row; for an unavailable row without a booking the source reads the dates of `{}`, which
   * yields NaN; otherwise the clamped overlap of the row's booking.
   */
  function BookingOverlay(row: Row, slotDuration: int): (o: Overlay)
    requires slotDuration > 0
    ensures o.Box? ==> o.top >= 0 && o.height >= 0
    ensures o.NotANumber? ==> !row.available
  {
    if row.available then Box(0, Span(slotDuration))
    else if row.event.None? then NotANumber
    else Clamp(row.event.value, row.isoTime, row.isoTime + Span(slotDuration))
  }

  /** Offset x of the row lies in the box. */
  predicate InBox(o: Overlay, x: int)
    requires o.Box?
  {
    o.top <= x < o.top + o.height
  }

  /** Offset x of the window [rowStart, rowEnd) lies inside the booking. */
  predicate InBooking(b: Booking, rowStart: Millis, rowEnd: Millis, x: int)
  {
    0 <= x < rowEnd - rowStart && b.startDate <= rowStart + x < b.endDate
  }

  /**
   * The box covers exactly the part of the booking that lies inside the window: offset x of
   * the row is covered iff the instant rowStart + x is in both the window and [start, end).
   * Both clamped numbers are non-negative.
   */
  lemma ClampCoversIntersection(b: Booking, rowStart: Millis, rowEnd: Millis)
    requires rowStart < rowEnd
    ensures var o := Clamp(b, rowStart, rowEnd);
            && o.Box? && o.top >= 0 && o.height >= 0
            && forall x :: InBox(o, x) <==> InBooking(b, rowStart, rowEnd, x)
  {
  }

  /**
   * The box has a height exactly when the booking overlaps the window and is not empty, and
   * a booking that overlaps the window yields a box that fits inside the row.
   */
  lemma ClampWithinRow(b: Booking, rowStart: Millis, rowEnd: Millis)
    requires rowStart < rowEnd
    ensures var o := Clamp(b, rowStart, rowEnd);
            && (o.height > 0 <==> Overlaps(b, rowStart, rowEnd) && b.startDate < b.endDate)
            && (Overlaps(b, rowStart, rowEnd) ==> o.top + o.height <= rowEnd - rowStart)
  {
  }

  /** A booking covering the whole row fills it; one inside the row keeps its own offset and length. */
  lemma ClampExamples(rowStart: Millis, slotDuration: int, title: string)
    requires slotDuration > 1
    ensures Clamp(Booking(title, rowStart - 1, rowStart + Span(slotDuration) + 1), rowStart, rowStart + Span(slotDuration))
            == Box(0, Span(slotDuration))
    ensures Clamp(Booking(title, rowStart + MsPerMinute, rowStart + 2 * MsPerMinute), rowStart, rowStart + Span(slotDuration))
            == Box(MsPerMinute, MsPerMinute)
  {
  }

  /**
   * calculateBookingOffsetAndHeight as evidently intended: the `!hourObj.Event` guard is meant
   * to draw a row without a booking at full height, but the row stores `{}`, which is truthy.
   */
  function IntendedOverlay(row: Row, slotDuration: int): (o: Overlay)
    requires slotDuration > 0
    ensures o.Box? && o.top >= 0 && o.height >= 0
    ensures BookingOverlay(row, slotDuration).Box? ==> o == BookingOverlay(row, slotDuration)
  {
    if row.available || row.event.None? then Box(0, Span(slotDuration))
    else Clamp(row.event.value, row.isoTime, row.isoTime + Span(slotDuration))
  }

  /**
   * As written, the overlay of row i of the result is NaN exactly when no booking overlaps the
   * row and the first slot stamped with the row's start says `available: false`.
   */
  lemma OverlayNotANumber(slots: seq<Slot>, startTime: Option<Millis>, slotDuration: int, roundToNearestSlot: bool, now: Millis, i: int)
    requires slotDuration > 0 && 0 <= i < MinElements
    ensures var row := GeneratedHours(slots, startTime, slotDuration, roundToNearestSlot, now)[i];
            BookingOverlay(row, slotDuration).NotANumber? <==>
              (forall j :: 0 <= j < |slots| ==> !SlotEventOverlaps(slots[j], row.isoTime, row.isoTime + Span(slotDuration)))
              && exists j :: FirstMatchAt(slots, j, row.isoTime) && !slots[j].available
  {
    var t := RowFields(slots, startTime, slotDuration, roundToNearestSlot, now, i);
    FirstOverlappingOfSlots(slots, t, t + Span(slotDuration));
    AvailabilityRule(slots, t, t + Span(slotDuration));
  }

  /** A single slot at midnight marked unavailable, with no booking, makes the first row's overlay NaN. */
  lemma OverlayNotANumberExample(now: Millis)
    ensures var rows := GeneratedHours([Slot(0, false, None)], None, 15, true, now);
            && !rows[0].available && rows[0].event.None?
            && BookingOverlay(rows[0], 15).NotANumber?
            && IntendedOverlay(rows[0], 15) == Box(0, Span(15))
  {
    var t := RowFields([Slot(0, false, None)], None, 15, true, now, 0);
    assert t == 0;
  }

  /**
   * The intended overlay of row i of the result is always a box inside the row; it agrees with
   * the source wherever the source yields a number; an unavailable row without a booking is
   * covered entirely; and an unavailable row with a booking gets the clamped overlap of that
   * booking, which has a height whenever the booking is not empty.
   */
  lemma TimelineOverlay(slots: seq<Slot>, startTime: Option<Millis>, slotDuration: int, roundToNearestSlot: bool, now: Millis, i: int)
    requires slotDuration > 0 && 0 <= i < MinElements
    ensures var row := GeneratedHours(slots, startTime, slotDuration, roundToNearestSlot, now)[i];
            var o := IntendedOverlay(row, slotDuration);
            && o.Box? && 0 <= o.top && o.top + o.height <= Span(slotDuration)
            && (BookingOverlay(row, slotDuration).Box? ==> BookingOverlay(row, slotDuration) == o)
            && (!row.available && row.event.None? ==> o == Box(0, Span(slotDuration)))
            && (!row.available && row.event.Some? ==>
                  && o == Clamp(row.event.value, row.isoTime, row.isoTime + Span(slotDuration))
                  && (row.event.value.startDate < row.event.value.endDate ==> o.height > 0))
  {
    var t := RowFields(slots, startTime, slotDuration, roundToNearestSlot, now, i);
    var row := GeneratedHours(slots, startTime, slotDuration, roundToNearestSlot, now)[i];
    FirstOverlappingSpec(EventsOf(slots), t, t + Span(slotDuration));
    if row.event.Some? {
      ClampWithinRow(row.event.value, t, t + Span(slotDuration));
    }
  }

  /** At most one row of the result is current: the rows' windows are disjoint. */
  lemma CurrentRowUnique(slots: seq<Slot>, startTime: Option<Millis>, slotDuration: int, roundToNearestSlot: bool, now: Millis, at: Millis, i: int, j: int)
    requires slotDuration > 0 && 0 <= i < MinElements && 0 <= j < MinElements
    requires var rows := GeneratedHours(slots, startTime, slotDuration, roundToNearestSlot, now);
             IsCurrentTimeSlot(at, rows[i].isoTime, slotDuration) && IsCurrentTimeSlot(at, rows[j].isoTime, slotDuration)
    ensures i == j
  {
    var anchor := Anchor(slots, startTime, slotDuration, roundToNearestSlot, now);
    if i < j {
      RowStartIncreasing(anchor, slotDuration, i, j);
    } else if j < i {
      RowStartIncreasing(anchor, slotDuration, j, i);
    }
  }

  /** Row windows are disjoint and contiguous, so `at` lies in the window of row (at - anchor) / interval. */
  lemma CurrentWindowIndex(anchor: Millis, slotDuration: int, n: nat, at: Millis)
    requires slotDuration > 0
    requires anchor <= at < anchor + n * Span(slotDuration)
    ensures var i := (at - anchor) / Span(slotDuration);
            && 0 <= i < n
            && RowStart(anchor, slotDuration, i) <= at < RowStart(anchor, slotDuration, i) + Span(slotDuration)
  {
    var S := Span(slotDuration);
    var i := (at - anchor) / S;
    assert at - anchor == i * S + (at - anchor) % S;
    assert i < n by {
      if i >= n {
        MulMonotone(n, i, S);
      }
    }
    RowStartClosedForm(anchor, slotDuration, i);
  }

  /** The window of a row among the first n contains `at` only when `at` lies within n intervals of the anchor. */
  lemma WindowInSpan(anchor: Millis, slotDuration: int, n: nat, i: nat, at: Millis)
    requires slotDuration > 0 && i < n
    requires RowStart(anchor, slotDuration, i) <= at < RowStart(anchor, slotDuration, i) + Span(slotDuration)
    ensures anchor <= at < anchor + n * Span(slotDuration)
  {
    if i > 0 {
      RowStartIncreasing(anchor, slotDuration, 0, i);
    }
    RowStartIncreasing(anchor, slotDuration, i, n);
    RowStartClosedForm(anchor, slotDuration, n);
  }

  /** A row of the result is current only when `at` falls in the twenty rows' span, from the first row on. */
  lemma CurrentRowInSpan(slots: seq<Slot>, startTime: Option<Millis>, slotDuration: int, roundToNearestSlot: bool, now: Millis, at: Millis, i: int)
    requires slotDuration > 0 && 0 <= i < MinElements
    requires IsCurrentTimeSlot(at, GeneratedHours(slots, startTime, slotDuration, roundToNearestSlot, now)[i].isoTime, slotDuration)
    ensures var first := GeneratedHours(slots, startTime, slotDuration, roundToNearestSlot, now)[0].isoTime;
            first <= at < first + MinElements * Span(slotDuration)
  {
    var anchor := Anchor(slots, startTime, slotDuration, roundToNearestSlot, now);
    WindowInSpan(anchor, slotDuration, MinElements, i, at);
  }

  /**
   * When `at` falls in the twenty rows' span, the row (at - first row start) / interval rows
   * down is current; with CurrentRowUnique it is the only one.
   */
  lemma CurrentRowAt(slots: seq<Slot>, startTime: Option<Millis>, slotDuration: int, roundToNearestSlot: bool, now: Millis, at: Millis)
    requires slotDuration > 0
    requires var first := GeneratedHours(slots, startTime, slotDuration, roundToNearestSlot, now)[0].isoTime;
             first <= at < first + MinElements * Span(slotDuration)
    ensures var rows := GeneratedHours(slots, startTime, slotDuration, roundToNearestSlot, now);
            var i := (at - rows[0].isoTime) / Span(slotDuration);
            0 <= i < |rows| && IsCurrentTimeSlot(at, rows[i].isoTime, slotDuration)
  {
    var anchor := Anchor(slots, startTime, slotDuration, roundToNearestSlot, now);
    CurrentWindowIndex(anchor, slotDuration, MinElements, at);
  }
}
