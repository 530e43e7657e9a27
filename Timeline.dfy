/**
 * generateHours: turns the caller's sparse slot list into exactly twenty
 * consecutive display rows, each `slotDuration` minutes wide, starting from a
 * normalised anchor time. A row carries its label, its start time, the first
 * booking whose [start, end) interval overlaps the row, and whether the row is
 * available.
 */
module Timeline {
  import opened Clock
  import opened Optional
  import opened Label
  import opened Slots

  /** The number of rows generateHours always produces (`minElements`). */
  const MinElements: nat := 20

  /** The anchor: `startTime`, else the first slot's time, else the current time `now`. */
  function ChooseAnchor(slots: seq<Slot>, startTime: Option<Millis>, now: Millis): (anchor: Millis)
    ensures startTime.Some? ==> anchor == startTime.value
    ensures startTime.None? && |slots| == 0 ==> anchor == now
    ensures startTime.None? && |slots| > 0 ==> anchor == slots[0].slot
  {
    if startTime.Some? then startTime.value
    else if |slots| > 0 then slots[0].slot
    else now
  }

  /**
   * The anchor after normalisation: with rounding, `setMinutes(floor(m / interval) * interval, 0, 0)`;
   * without, `setSeconds(0, 0)`. Either way the result is the start of a whole minute in the
   * same hour, and the anchor lies in the first row's window [r, r + interval minutes).
   */
  function Normalise(t: Millis, interval: int, round: bool): (r: Millis)
    requires interval > 0
    ensures r % MsPerMinute == 0
    ensures r <= t < r + Span(interval)
    ensures r / MsPerHour == t / MsPerHour
    ensures round ==> MinuteOfHour(r) % interval == 0
    ensures !round ==> MinuteOfHour(r) == MinuteOfHour(t)
  {
    if round then
      var rounded := MinuteOfHour(t) / interval * interval;
      RoundedMinute(t, interval);
      t - t % MsPerHour + rounded * MsPerMinute
    else
      TruncateToMinute(t);
      t - t % MsPerMinute
  }

  /** `setSeconds(0, 0)` keeps the hour and the minute and drops the seconds and milliseconds. */
  lemma TruncateToMinute(t: Millis)
    ensures var r := t - t % MsPerMinute;
            && r % MsPerMinute == 0 && r <= t < r + MsPerMinute
            && r / MsPerHour == t / MsPerHour && MinuteOfHour(r) == MinuteOfHour(t)
  {
    var r := t - t % MsPerMinute;
    assert r == (t / MsPerMinute) * MsPerMinute;
    assert r / MsPerMinute == t / MsPerMinute;
    HourDecomposition(t);
    HourDecomposition(r);
  }

  /** Rounding the minute down to a multiple of the interval keeps the anchor in the first window. */
  lemma RoundedMinute(t: Millis, interval: int)
    requires interval > 0
    ensures var rounded := MinuteOfHour(t) / interval * interval;
            var r := t - t % MsPerHour + rounded * MsPerMinute;
            && 0 <= rounded <= MinuteOfHour(t)
            && rounded % interval == 0
            && r % MsPerMinute == 0 && r / MsPerHour == t / MsPerHour && MinuteOfHour(r) == rounded
            && r <= t < r + Span(interval)
  {
    var m := MinuteOfHour(t);
    var k := m / interval;
    var rounded := k * interval;
    assert m == rounded + m % interval;
    assert 0 <= rounded by {
      assert k >= 0;
    }
    assert rounded % interval == 0 by {
      DivExact(rounded, interval, k);
    }
    SetMinutesAligned(t, rounded);
    HourDecomposition(t);
  }

  /** `setMinutes(minute, 0, 0)` lands on that minute of the same hour. */
  lemma SetMinutesAligned(t: Millis, minute: int)
    requires 0 <= minute < 60
    ensures var r := t - t % MsPerHour + minute * MsPerMinute;
            r % MsPerMinute == 0 && r / MsPerHour == t / MsPerHour && MinuteOfHour(r) == minute
  {
  }

  /** Normalising an already normalised anchor changes nothing. */
  lemma NormaliseIdempotent(t: Millis, interval: int, round: bool)
    requires interval > 0
    ensures Normalise(Normalise(t, interval, round), interval, round) == Normalise(t, interval, round)
  {
    var r := Normalise(t, interval, round);
    var r2 := Normalise(r, interval, round);
    HourDecomposition(r);
    HourDecomposition(r2);
    HourDecomposition(t);
    if round {
      var m := MinuteOfHour(r);
      assert m / interval * interval == m;
    }
  }

  /** With a 30-minute interval 10:17:23.456 becomes 10:00, and without rounding 10:17:00.000. */
  lemma NormaliseExamples()
    ensures Normalise(10 * MsPerHour + 17 * MsPerMinute + 23456, 30, true) == 10 * MsPerHour
    ensures Normalise(10 * MsPerHour + 17 * MsPerMinute + 23456, 30, false) == 10 * MsPerHour + 17 * MsPerMinute
  {
    HourDecomposition(10 * MsPerHour + 17 * MsPerMinute + 23456);
  }

  /** The row the loop of generateHours pushes for the window starting at t. */
  function RowAt(slots: seq<Slot>, events: seq<Booking>, t: Millis, interval: int): (row: Row)
    requires interval > 0
    ensures row.isoTime == t && |row.time| == 8
    ensures row.event.Some? ==> !row.available && row.event.value in events && Overlaps(row.event.value, t, t + Span(interval))
  {
    var overlapping := FirstOverlapping(events, t, t + Span(interval));
    Row(FormatTime(t), RowAvailable(overlapping, FindSlot(slots, t)), overlapping, t)
  }

  /** The start of row i: the anchor advanced i times by `setMinutes(getMinutes() + interval)`. */
  function RowStart(start: Millis, interval: int, i: nat): Millis
    requires interval > 0
  {
    if i == 0 then start else RowStart(start, interval, i - 1) + Span(interval)
  }

  /** Row i starts exactly i intervals after the anchor. */
  lemma {:induction false} RowStartClosedForm(start: Millis, interval: int, i: nat)
    requires interval > 0
    ensures RowStart(start, interval, i) == start + i * Span(interval)
  {
    if i > 0 {
      RowStartClosedForm(start, interval, i - 1);
      assert (i - 1) * Span(interval) + Span(interval) == i * Span(interval);
    }
  }

  /** Later rows start at least one whole interval later: rows never overlap. */
  lemma {:induction false} RowStartIncreasing(start: Millis, interval: int, i: nat, j: nat)
    requires interval > 0 && i < j
    ensures RowStart(start, interval, i) + Span(interval) <= RowStart(start, interval, j)
    decreases j
  {
    if i < j - 1 {
      RowStartIncreasing(start, interval, i, j - 1);
    }
  }

  /** The first n rows from `start`: row i is the row of the window starting at RowStart(start, interval, i). */
  function Rows(slots: seq<Slot>, events: seq<Booking>, start: Millis, interval: int, n: nat): seq<Row>
    requires interval > 0
  {
    seq(n, i requires 0 <= i => RowAt(slots, events, RowStart(start, interval, i), interval))
  }

  /** The start time of the first row: the chosen anchor, normalised. */
  function Anchor(slots: seq<Slot>, startTime: Option<Millis>, slotDuration: int, roundToNearestSlot: bool, now: Millis): Millis
    requires slotDuration > 0
  {
    Normalise(ChooseAnchor(slots, startTime, now), slotDuration, roundToNearestSlot)
  }

  /** The rows generateHours returns, as a function of its inputs and the current time. */
  function GeneratedHours(slots: seq<Slot>, startTime: Option<Millis>, slotDuration: int, roundToNearestSlot: bool, now: Millis): seq<Row>
    requires slotDuration > 0
  {
    Rows(slots, EventsOf(slots), Anchor(slots, startTime, slotDuration, roundToNearestSlot, now), slotDuration, MinElements)
  }

  /**
   * generateHours(slots, startTime, slotDuration, roundToNearestSlot), with the `new Date()`
   * it falls back on passed in as `now`: normalise the anchor once, then push rows and
   * advance the clock by one interval until there are twenty rows.
   */
  method GenerateHours(slots: seq<Slot>, startTime: Option<Millis>, slotDuration: int, roundToNearestSlot: bool, now: Millis)
    returns (hours: seq<Row>)
    requires slotDuration > 0
    ensures hours == GeneratedHours(slots, startTime, slotDuration, roundToNearestSlot, now)
  {
    hours := [];
    var currentTime := ChooseAnchor(slots, startTime, now);
    currentTime := Normalise(currentTime, slotDuration, roundToNearestSlot);
    ghost var anchor := currentTime;
    var events := EventsOf(slots);
    while |hours| < MinElements
      invariant |hours| <= MinElements
      invariant currentTime == RowStart(anchor, slotDuration, |hours|)
      invariant hours == Rows(slots, events, anchor, slotDuration, |hours|)
    {
      hours := hours + [RowAt(slots, events, currentTime, slotDuration)];
      assert hours == Rows(slots, events, anchor, slotDuration, |hours|);
      currentTime := currentTime + Span(slotDuration);
    }
  }

  /** The shape of the first n rows from any anchor: see TimelineShape. */
  lemma RowsShape(slots: seq<Slot>, events: seq<Booking>, anchor: Millis, interval: int, n: nat)
    requires interval > 0
    ensures var rows := Rows(slots, events, anchor, interval, n);
            && |rows| == n
            && (forall i :: 0 <= i < |rows| ==> rows[i].isoTime == anchor + i * Span(interval))
            && (forall i :: 0 <= i < |rows| ==> rows[i] == RowAt(slots, events, rows[i].isoTime, interval))
            && (forall i :: 0 <= i < |rows| - 1 ==> rows[i + 1].isoTime == rows[i].isoTime + Span(interval))
            && (forall i, j :: 0 <= i < j < |rows| ==> rows[i].isoTime < rows[j].isoTime)
  {
    var rows := Rows(slots, events, anchor, interval, n);
    assert forall i :: 0 <= i < |rows| ==> rows[i].isoTime == RowStart(anchor, interval, i);
    forall i | 0 <= i < |rows| - 1 ensures rows[i + 1].isoTime == rows[i].isoTime + Span(interval) {
      assert RowStart(anchor, interval, i + 1) == RowStart(anchor, interval, i) + Span(interval);
    }
    forall i, j | 0 <= i < j < |rows| ensures rows[i].isoTime < rows[j].isoTime {
      RowStartIncreasing(anchor, interval, i, j);
    }
    forall i | 0 <= i < |rows| ensures rows[i].isoTime == anchor + i * Span(interval) {
      RowStartClosedForm(anchor, interval, i);
    }
  }

  /**
   * Shape of the result: exactly twenty rows; row i starts i intervals after the normalised
   * anchor and is the row of its own start time; consecutive rows are contiguous and start
   * times strictly increase.
   */
  lemma TimelineShape(slots: seq<Slot>, startTime: Option<Millis>, slotDuration: int, roundToNearestSlot: bool, now: Millis)
    requires slotDuration > 0
    ensures var rows := GeneratedHours(slots, startTime, slotDuration, roundToNearestSlot, now);
            var anchor := Anchor(slots, startTime, slotDuration, roundToNearestSlot, now);
            && |rows| == MinElements
            && (forall i :: 0 <= i < |rows| ==> rows[i].isoTime == anchor + i * Span(slotDuration))
            && (forall i :: 0 <= i < |rows| ==> rows[i] == RowAt(slots, EventsOf(slots), rows[i].isoTime, slotDuration))
            && (forall i :: 0 <= i < |rows| - 1 ==> rows[i + 1].isoTime == rows[i].isoTime + Span(slotDuration))
            && (forall i, j :: 0 <= i < j < |rows| ==> rows[i].isoTime < rows[j].isoTime)
  {
    RowsShape(slots, EventsOf(slots), Anchor(slots, startTime, slotDuration, roundToNearestSlot, now), slotDuration, MinElements);
  }

  /**
   * The anchor the rows start from: the first row's window contains `startTime` when it is
   * given, else the first slot's time when there is a slot, else `now`; it starts on a whole
   * minute of the same hour, on a multiple of the interval when rounding and on the anchor's
   * own minute otherwise.
   */
  lemma TimelineAnchor(slots: seq<Slot>, startTime: Option<Millis>, slotDuration: int, roundToNearestSlot: bool, now: Millis)
    requires slotDuration > 0
    ensures var first := GeneratedHours(slots, startTime, slotDuration, roundToNearestSlot, now)[0].isoTime;
            var anchor := if startTime.Some? then startTime.value else if |slots| > 0 then slots[0].slot else now;
            && first <= anchor < first + Span(slotDuration)
            && first % MsPerMinute == 0
            && first / MsPerHour == anchor / MsPerHour
            && (roundToNearestSlot ==> MinuteOfHour(first) % slotDuration == 0)
            && (!roundToNearestSlot ==> MinuteOfHour(first) == MinuteOfHour(anchor))
  {
  }

  /**
   * Row i of the result, taken apart into the terms generateHours computes it from; `t` is the
   * row's start, returned so that callers need not name the anchor.
   */
  lemma RowFields(slots: seq<Slot>, startTime: Option<Millis>, slotDuration: int, roundToNearestSlot: bool, now: Millis, i: int)
    returns (t: Millis)
    requires slotDuration > 0 && 0 <= i < MinElements
    ensures var row := GeneratedHours(slots, startTime, slotDuration, roundToNearestSlot, now)[i];
            && row.isoTime == t
            && row.event == FirstOverlapping(EventsOf(slots), t, t + Span(slotDuration))
            && row.available == RowAvailable(row.event, FindSlot(slots, t))
            && row.time == FormatTime(t)
  {
    t := RowStart(Anchor(slots, startTime, slotDuration, roundToNearestSlot, now), slotDuration, i);
  }

  /**
   * The booking of row i is none exactly when no slot's booking overlaps the row's window,
   * and otherwise it is the booking of the first slot, in list order, whose booking does.
   */
  lemma TimelineEvent(slots: seq<Slot>, startTime: Option<Millis>, slotDuration: int, roundToNearestSlot: bool, now: Millis, i: int)
    requires slotDuration > 0 && 0 <= i < MinElements
    ensures var row := GeneratedHours(slots, startTime, slotDuration, roundToNearestSlot, now)[i];
            var rowEnd := row.isoTime + Span(slotDuration);
            && (row.event.None? <==> forall j :: 0 <= j < |slots| ==> !SlotEventOverlaps(slots[j], row.isoTime, rowEnd))
            && (row.event.Some? ==> exists j :: FirstOverlapAt(slots, j, row.isoTime, rowEnd) && slots[j].event == row.event)
  {
    var t := RowFields(slots, startTime, slotDuration, roundToNearestSlot, now, i);
    FirstOverlappingOfSlots(slots, t, t + Span(slotDuration));
  }

  /**
   * Row i is unavailable whenever some slot's booking overlaps its window; otherwise it is
   * unavailable exactly when the first slot stamped with its start time says `available: false`.
   */
  lemma TimelineAvailability(slots: seq<Slot>, startTime: Option<Millis>, slotDuration: int, roundToNearestSlot: bool, now: Millis, i: int)
    requires slotDuration > 0 && 0 <= i < MinElements
    ensures var row := GeneratedHours(slots, startTime, slotDuration, roundToNearestSlot, now)[i];
            var rowEnd := row.isoTime + Span(slotDuration);
            && ((exists j :: 0 <= j < |slots| && SlotEventOverlaps(slots[j], row.isoTime, rowEnd)) ==> !row.available)
            && ((forall j :: 0 <= j < |slots| ==> !SlotEventOverlaps(slots[j], row.isoTime, rowEnd)) ==>
                  (!row.available <==> exists j :: FirstMatchAt(slots, j, row.isoTime) && !slots[j].available))
  {
    var t := RowFields(slots, startTime, slotDuration, roundToNearestSlot, now, i);
    AvailabilityRule(slots, t, t + Span(slotDuration));
  }

  /** The label of row i reads back as the minute of the day at which the row starts. */
  lemma TimelineLabel(slots: seq<Slot>, startTime: Option<Millis>, slotDuration: int, roundToNearestSlot: bool, now: Millis, i: int)
    requires slotDuration > 0 && 0 <= i < MinElements
    ensures var row := GeneratedHours(slots, startTime, slotDuration, roundToNearestSlot, now)[i];
            ParseLabel(row.time) == Some(MinuteOfDay(row.isoTime))
  {
    var t := RowFields(slots, startTime, slotDuration, roundToNearestSlot, now, i);
    ParseFormat(t);
  }
}
