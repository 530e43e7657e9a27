# TimeLineView row generator: a verified Dafny model

TimeLineView is a React Native component that shows a vertical day timeline of
bookable slots. Its core is `generateHours`. That function takes the caller's
sparse list of slots, each with an optional booking. From a normalised anchor
time it builds exactly twenty consecutive rows, each `slotDuration` minutes
wide. Every row carries:

- a 12-hour label such as `09:30 AM`;
- its start time;
- the first booking in slot order whose `[startDate, endDate)` interval
  overlaps the row;
- an availability flag.

While rendering, each row's window is also checked against the current time
(for the "now" line). The booking overlay is clamped to the row's window.

The model has these modules:

- `Clock`: wall-clock arithmetic on integer millisecond timestamps, meaning
  hour of day, minute of hour and minute of day.
- `Label`: `formatTime`, plus a parser used as its partner. A label reads back
  as the minute of the day, and two instants share a label exactly when they
  share that minute.
- `Slots`: the records `Booking`, `Slot` and `Row`, and the two searches each
  row runs. One finds the first overlapping booking. The other finds the first
  slot stamped with the row's start. It also holds the availability rule.
- `Timeline`: anchor choice and normalisation, and the specification function
  `GeneratedHours`. It also holds the method `GenerateHours`, which runs the
  source's loop and is proved equal to that specification, together with the
  properties of the result.
- `Geometry`: the interval arithmetic of `renderTimeSlot`. That covers the
  current-row test and offset, and the clamped booking overlay.

Modelling choices:

- A timestamp is an `int` number of milliseconds on the local wall clock: the
  host's fixed UTC offset is folded in and there is no daylight-saving shift.
  `getHours`/`getMinutes` are floor divisions.
- `setMinutes(getMinutes() + d)` adds `d` minutes, and `setSeconds(0, 0)` drops
  the seconds and milliseconds.
- A row's `isoTime` is its timestamp. Comparing ISO strings of valid dates is
  comparing their instants.
- The `new Date()` fallback of `generateHours` is the parameter `now`.
- A row's `{}` placeholder for "no booking" is `Option.None`.

## Model

| member | source | states |
|---|---|---|
| Timeline.GenerateHours | src/TimeLineView.tsx:236-299 | the loop's result equals `GeneratedHours`: twenty rows, row i being the row of the window starting i intervals after the normalised anchor |
| Timeline.ChooseAnchor | src/TimeLineView.tsx:246-250 | the anchor is `startTime` when given, `now` when there is neither `startTime` nor a slot, and otherwise the first slot's time |
| Timeline.RowAt | src/TimeLineView.tsx:269-293 | the row pushed for the window starting at t: it starts at t, has an 8-character label, and a row with a booking is unavailable and its booking is one of the bookings and overlaps the window |
| Timeline.RowStart | src/TimeLineView.tsx:295 | the start of row i: the anchor advanced i times by one interval (its properties are stated by RowStartClosedForm and RowStartIncreasing) |
| Timeline.RowsShape | src/TimeLineView.tsx:268-296 | the shape TimelineShape states, for the first n rows from any anchor |
| Timeline.TimelineShape | src/TimeLineView.tsx:243-297 | exactly 20 rows; row i starts at anchor + i·interval; each row is computed from its own start; consecutive rows are contiguous and start times strictly increase |
| Timeline.TimelineAnchor | src/TimeLineView.tsx:246-262 | the first row's window contains `startTime`, else the first slot's time, else `now`; it starts on a whole minute of the same hour, on a multiple of the interval when rounding, on the anchor's own minute otherwise |
| Timeline.Normalise | src/TimeLineView.tsx:252-262 | the normalised anchor is a whole minute in the same hour; the anchor lies in [r, r + interval); with rounding the minute is a multiple of the interval, without it the minute is unchanged |
| Timeline.NormaliseIdempotent | src/TimeLineView.tsx:252-262 | normalising an already normalised time changes nothing |
| Timeline.NormaliseExamples | src/TimeLineView.tsx:252-262 | 10:17:23.456 with a 30-minute interval becomes 10:00 when rounding and 10:17:00.000 otherwise |
| Timeline.RowStartClosedForm | src/TimeLineView.tsx:268-296 | advancing the clock i times by the interval lands exactly i intervals after the anchor |
| Timeline.RowStartIncreasing | src/TimeLineView.tsx:268-296 | a later row starts at least one whole interval after an earlier one, so row windows never overlap |
| Timeline.TimelineEvent | src/TimeLineView.tsx:264-291 | a row's booking is none exactly when no slot's booking overlaps the row's window; otherwise it is the booking of the first slot, in list order, whose booking overlaps |
| Timeline.TimelineAvailability | src/TimeLineView.tsx:274-290 | a row is unavailable whenever some booking overlaps it; otherwise it is unavailable exactly when the first slot stamped with its start says `available: false` |
| Timeline.TimelineLabel | src/TimeLineView.tsx:286-289 | every row's label parses back as the minute of the day at which the row starts |
| Slots.EventsOf | src/TimeLineView.tsx:264-266 | the filtered and mapped bookings; the contract bounds their number by the number of slots, and FirstOverlappingOfSlots proves that searching them finds the booking of the first slot whose booking overlaps |
| Slots.FirstOverlapping | src/TimeLineView.tsx:274-280 | `Events.find` with the strict overlap test: a found booking is one of the bookings and overlaps the window |
| Slots.FindSlot | src/TimeLineView.tsx:282-284 | `slots.find` on equal timestamps: a found slot is one of the slots and is stamped with the row start |
| Slots.RowAvailable | src/TimeLineView.tsx:290 | a row is available only when no booking overlaps it, and always when also no slot matches its start |
| Slots.FirstOverlappingSpec | src/TimeLineView.tsx:274-280 | the booking search finds nothing iff no booking overlaps the window, and otherwise the first overlapping booking |
| Slots.FindSlotSpec | src/TimeLineView.tsx:282-284 | the slot search finds nothing iff no slot is stamped with the row start, and otherwise the first slot that is |
| Slots.FirstOverlappingOfSlots | src/TimeLineView.tsx:264-280 | searching the filtered bookings equals taking the booking of the first slot whose booking overlaps the window, and finds nothing iff none does |
| Slots.AvailabilityRule | src/TimeLineView.tsx:290 | overlap forces unavailability whatever the flags say; without overlap, unavailable iff the first matching slot says `available: false`; no matching slot means available |
| Slots.FirstMatchUnique | src/TimeLineView.tsx:282-284 | only one slot can be the first one stamped with a given instant |
| Clock.MinuteOfHour | src/TimeLineView.tsx:301-303 | `getMinutes`: the minute within the hour, 0 to 59 |
| Clock.HourOfDay | src/TimeLineView.tsx:301-303 | `getHours`: the hour within the day, 0 to 23 |
| Label.FormatTime | src/TimeLineView.tsx:301-309 | `formatTime`: the label, always 8 characters long (its fields are stated by FormatTimeFields) |
| Label.FormatTimeFields | src/TimeLineView.tsx:301-309 | the label is `hh:mm AM`/`hh:mm PM` with 8 characters: hh is the 12-hour clock hour (12 for 0 and 12), mm is the minute, and PM exactly from 12:00 |
| Label.ParseFormat | src/TimeLineView.tsx:301-309 | parsing a formatted label gives back the minute of the day |
| Label.FormatParse | src/TimeLineView.tsx:301-309 | a string that parses as t's minute of the day is exactly t's label |
| Label.SameLabelIffSameMinute | src/TimeLineView.tsx:301-309 | two instants get the same label iff they show the same minute of the day |
| Label.LabelExamples | src/TimeLineView.tsx:301-309 | midnight is `12:00 AM`, 13:05 is `01:05 PM`, 23:59:59.999 is `11:59 PM` |
| Label.ParseLabel | src/TimeLineView.tsx:301-309 | a parsed label is always a minute of the day, 0 to 1439 |
| Geometry.IsCurrentTimeSlot | src/TimeLineView.tsx:103-107 | `now` lies in the row's window [start, start + interval) |
| Geometry.CurrentTimeOffset | src/TimeLineView.tsx:107-130 | the offset always lies within the row; for the current row, row start plus offset is `now`; on a row that is not current it is 0 |
| Geometry.CurrentRowUnique | src/TimeLineView.tsx:103-107 | at most one generated row is current at a time |
| Geometry.CurrentRowInSpan | src/TimeLineView.tsx:103-107 | a row is current only when the time lies within the twenty rows' span |
| Geometry.CurrentRowAt | src/TimeLineView.tsx:103-107 | when the time lies within the span, row (time − first start) / interval is current |
| Geometry.CurrentWindowIndex | src/TimeLineView.tsx:103-107 | the same for the first n windows from any anchor |
| Geometry.WindowInSpan | src/TimeLineView.tsx:103-107 | a window among the first n contains a time only when it is within n intervals of the anchor |
| Geometry.Clamp | src/TimeLineView.tsx:137-146 | the clamped overlap of a booking with the row: a box whose offset and duration are both at least 0 |
| Geometry.BookingOverlay | src/TimeLineView.tsx:134-148 | `calculateBookingOffsetAndHeight` as written: any numeric box has non-negative offset and height, and only an unavailable row can get NaN |
| Geometry.IntendedOverlay | src/TimeLineView.tsx:134-148 | the same with the full-height guard working as intended: always a box with non-negative offset and height, equal to the source's box wherever the source yields one |
| Geometry.ClampCoversIntersection | src/TimeLineView.tsx:137-146 | offset and duration are non-negative, and the box covers offset x exactly when row start + x is inside both the row and the booking |
| Geometry.ClampWithinRow | src/TimeLineView.tsx:137-146 | the box has a height iff the booking overlaps the row and is non-empty; an overlapping booking's box fits in the row |
| Geometry.ClampExamples | src/TimeLineView.tsx:137-146 | a booking covering the row fills it; one inside the row keeps its own offset and length |
| Geometry.OverlayNotANumber | src/TimeLineView.tsx:135-146 | as written, a row's overlay is NaN exactly when no booking overlaps it and the first matching slot says `available: false` |
| Geometry.OverlayNotANumberExample | src/TimeLineView.tsx:135-146 | a single unavailable slot at midnight without a booking makes the first row's overlay NaN |
| Geometry.TimelineOverlay | src/TimeLineView.tsx:134-146 | the intended overlay is always a box inside the row and agrees with the source wherever the source gives a number; a row without a booking is covered fully; a row with a non-empty booking gets a box with a height |

## Left out

- React rendering, styles, touch handling and `renderBookingContent` are not
  modelled. They are presentation, not logic.
- The `labelEverySlot` stride (src/TimeLineView.tsx:206) is not modelled. It
  only chooses which labels are drawn.
- The refresh effects and polling are not modelled (src/TimeLineView.tsx:71-97).
  They are timers and I/O around `generateHours`. The current time is a
  parameter.
- Pixel scaling is not modelled. Offsets and heights are in milliseconds of the
  row's window. Heights in pixels are those values times a floating-point
  factor (`slotHeightPerMinute`, the percentage of `calculateCurrentTimeOffset`).
- JavaScript `Date` semantics are not modelled: time zones, daylight-saving
  shifts, ISO string parsing and invalid dates. Timestamps are integers on a
  fixed-offset local clock.
- Timeline.GenerateHours: requires `slotDuration > 0`, a whole number of
  minutes. A zero, negative or fractional duration, which the source does not
  reject, is not modelled.
- Timeline.ChooseAnchor: the source falls back from `slots[0].slot` to the
  current time when that field is falsy (an empty string). Slot times are
  integers here, so that fallback is not modelled.
- The component's defaults (`slots = []`, `slotDuration = 15`,
  `roundToNearestSlot = true`) are not modelled as defaults: every caller
  passes these values explicitly. The lemmas hold for every positive
  duration, so the default of 15 is covered.
- The type declarations name the booking field `booking` while the
  implementation reads `Event`. The model follows the implementation.
- The example app is not part of this model.

## Findings

| source | as written | input that shows it | evidently intended | confidence | as-written member | corrected member |
|---|---|---|---|---|---|---|
| src/TimeLineView.tsx:135 | a row with no overlapping booking stores `{}`, which is truthy, so `!hourObj.Event` never fires; an unavailable row without a booking reads `{}`'s dates and gets NaN offset and height | `slots = [{slot: midnight, available: false}]`, 15-minute interval: the first row is unavailable with `{}` and its overlay is NaN | a row without a booking is drawn at full height | high, not executed | Geometry.OverlayNotANumberExample | Geometry.TimelineOverlay |
