# Restaurant site core in Dafny

A model of the client-side decision code of a restaurant website built on
Payload CMS and Next.js, with proofs about it. It covers:

- **Booking form** (`BookingForm`):
  - the list of calendar matchers that disables days (past days, the
    advance-booking horizon, closed weekdays, blackout dates);
  - the time slots offered for a chosen date: Norwegian weekday matching
    on the free-text day range, `HH:MM` parsing, and the stepping loop
    with its minute-to-hour carry;
  - the party-size options and the enable guards of the time select and
    the submit button;
  - the date and time the form holds as the user picks a day and a time,
    as written (the time survives a date change) and with the time cleared
    on a date change.
- **Booking settings** (`BookingSettings`): the `booking-settings` global's
  fields, their defaults and bounds, and the `closedWeekdays` value
  encoding ("0" is Sunday, as `getDay()` numbers it).
- **Bookings** (`Bookings`): the `bookings` collection's record, the status
  select with its default, the required fields, and the `createdAt`
  hook across a create and any later updates, each of which may omit,
  clear or set the field.
- **Menu block** (`MenuBlock`):
  - the category select;
  - the three filters and the filter reset;
  - the split by `noImage`;
  - grouping by category with a stable sort by the category's `order`.
- **Footer** (`Footer`): `formatTime`, the opening-hours column, the address
  line and the section-title fallbacks.
- **Theme selector** (`ThemeSelector`): the auto → light → dark → auto
  toggle and what the selector renders.

Dates are day numbers, counted in days since 1970-01-01, which was a
Thursday. "Today" and "now" are parameters. Times of day are
`(hour, minute)` pairs, and the reference definition of the slots counts
minutes since midnight. Text is `seq<char>`. Shared helpers live in
`Common`, `Text`, `Seqs`, `Sorting`, `Arith` and `OpeningHours`.

## Model

| member | source | states |
|---|---|---|
| BookingSettings.ValueEncodesDayIndex | src/globals/BookingSettings.ts:98-106 | each weekday's stored value is the single decimal digit of its `getDay()` number, and reads back as that weekday |
| BookingSettings.ClosedWeekdayOptionsAreComplete | src/globals/BookingSettings.ts:90-106 | the select lists seven options, each weekday exactly once, and the stored values are exactly "0" to "6" |
| BookingSettings.ParseValue | src/globals/BookingSettings.ts:98-106 | a stored value reads as a weekday only if that weekday's value is the stored text |
| BookingSettings.Resolve | src/globals/BookingSettings.ts:16-89 | a field the save leaves out keeps its stored value on an update and takes its default (8, 30, 40, 30, no blackout dates, no closed weekdays) on the first save. The record is stored iff maxPartySize ≥ 1, maxSeatsPerSlot ≥ 1, advanceBookingDays is in [1, 365], every blackout entry has its date, and timeSlotDuration ≥ 1 (the corrected bound, see Findings). A stored record keeps every resulting value; a missing-date error names an entry with no date |
| BookingSettings.EmptyInputGivesDefaults | src/globals/BookingSettings.ts:17-60 | a first save with nothing filled in stores maxPartySize 8, timeSlotDuration 30, maxSeatsPerSlot 40, advanceBookingDays 30 |
| BookingSettings.BlackoutsRoundTrip | src/globals/BookingSettings.ts:61-89 | stored blackout entries sent again are stored unchanged |
| BookingSettings.SaveRoundTrip | src/globals/BookingSettings.ts:16-89 | saving every field of a record stores exactly that record, whatever was stored before, and is accepted iff the record is valid |
| BookingSettings.EmptyUpdateKeepsSettings | src/globals/BookingSettings.ts:16-89 | an update that sends nothing keeps valid stored settings unchanged |
| BookingSettings.AdvanceOnlyUpdate | src/globals/BookingSettings.ts:50-60 | an update sending only advanceBookingDays is accepted iff it is in [1, 365], and then changes only that field: party size, step and closed weekdays stay as stored |
| Bookings.ParseStatus | src/collections/Bookings.ts:71-82 | only the four option values read as a status, each as the status whose value it is |
| Bookings.StatusValueRoundTrip | src/collections/Bookings.ts:77-82 | every status reads back from its stored value |
| Bookings.CreatedAtHook | src/collections/Bookings.ts:98-106 | the hook returns a value iff it was given one or the operation is a create; a given value is returned unchanged, and a create without one is stamped with the current time |
| Bookings.CreatedValue | src/collections/Bookings.ts:98-106 | a create that sends a date stores that date; one that sends nothing or `null` stores the time of the create |
| Bookings.AfterUpdatesSnoc | src/collections/Bookings.ts:98-106 | one more update applies the hook to the value the earlier updates left, with the update's own incoming value |
| Bookings.UpdatesKeepLastSent | src/collections/Bookings.ts:98-106 | since update access is open (lines 14-19) and the hook returns what it receives on update, a series of updates leaves the value the last update sending `createdAt` sent (a `null` clears it), or the earlier value when none sends it |
| Bookings.LastSentSource | src/collections/Bookings.ts:98-106 | the stored value is either the starting value or a value some update sent, and the starting value when no update sends one |
| Bookings.CreatedAtAfterUpdates | src/collections/Bookings.ts:87-107 | after a create at time t and any updates, `createdAt` is the create's value when no update sends the field, and otherwise the create's value or one an update sent; never an update's time |
| Bookings.Validate | src/collections/Bookings.ts:20-107 | on an update every omitted required field and status is taken from the stored booking first. The write is stored iff the merged date, partySize and non-empty timeSlot, name, email and phone are present, partySize ≥ 1 and the status is one of the four. The stored record carries the merged fields, status `pending` only for a create without one, `notes` as sent (omitted keeps the stored notes, `null` clears them), and `createdAt` as the hook sets it from the same rule for that operation |
| Bookings.CreateRoundTrip | src/collections/Bookings.ts:20-107 | creating from all fields of a booking stores exactly that booking, and is accepted iff the booking has party size ≥ 1 and non-empty required text |
| Bookings.EmptyUpdateKeepsBooking | src/collections/Bookings.ts:14-107 | an update that sends no field leaves a stored booking unchanged |
| Bookings.StatusOnlyUpdate | src/collections/Bookings.ts:71-82 | an update sending only a status changes only the status, and an update that leaves the status out keeps the stored one rather than the default |
| Bookings.NullClearsNotes | src/collections/Bookings.ts:66-70 | an update sending `notes: null` clears the stored notes and changes nothing else |
| Bookings.ValidateAgreesWithUpdates | src/collections/Bookings.ts:98-106 | an accepted update stores the `createdAt` that one step of `AfterUpdates` gives, so the record path and the update-sequence model agree |
| BookingForm.WeekdayOfDate | src/blocks/BookingBlock/Component.client.tsx:61 | the weekday of a day number has `getDay()` number (day + 4) mod 7 |
| BookingForm.ParsedWeekdays | src/blocks/BookingBlock/Component.client.tsx:39-43 | `parseInt` of each stored closed weekday gives that weekday's `getDay()` number, in order |
| BookingForm.BlackoutMatchers | src/blocks/BookingBlock/Component.client.tsx:46-52 | one date matcher per blackout entry, in order |
| BookingForm.DisabledDays | src/blocks/BookingBlock/Component.client.tsx:26-55 | the list always starts with "before today"; without settings it is only that |
| BookingForm.PastMatch | src/blocks/BookingBlock/Component.client.tsx:27-29 | the first matcher refuses exactly the days before today |
| BookingForm.HorizonMatch | src/blocks/BookingBlock/Component.client.tsx:31-36 | the horizon matcher refuses exactly the days after today + advanceBookingDays, and only when that setting is non-zero |
| BookingForm.ClosedWeekdaysMatch | src/blocks/BookingBlock/Component.client.tsx:39-43 | a weekday's number is in the parsed list iff that weekday is closed |
| BookingForm.ClosedMatch | src/blocks/BookingBlock/Component.client.tsx:38-43 | the closed-weekday matcher refuses exactly the days on closed weekdays |
| BookingForm.BlackoutMatchersMatch | src/blocks/BookingBlock/Component.client.tsx:45-52 | the blackout matchers refuse exactly the blackout dates |
| BookingForm.DisabledDaysMeaning | src/blocks/BookingBlock/Component.client.tsx:26-55 | with settings, a day is refused iff it is before today, after the horizon (when one is set), on a closed weekday, or a blackout date |
| BookingForm.WeekdaysRange | src/blocks/BookingBlock/Component.client.tsx:69-78 | "mandag-fredag" covers exactly days 1 to 5 |
| BookingForm.SaturdayOnly | src/blocks/BookingBlock/Component.client.tsx:69-78 | "lørdag" covers exactly day 6 |
| BookingForm.SundayOnly | src/blocks/BookingBlock/Component.client.tsx:69-78 | "søndag" covers exactly day 0 |
| BookingForm.TuesdayToThursdaySkipsWednesday | src/blocks/BookingBlock/Component.client.tsx:69-78 | "tirsdag-torsdag" covers days 2 and 4 and not Wednesday (3) |
| BookingForm.EnglishRangeMatchesNothing | src/blocks/BookingBlock/Component.client.tsx:69-78 | a range naming no Norwegian weekday ("mon-fri") covers no day |
| BookingForm.FirstUsable | src/blocks/BookingBlock/Component.client.tsx:65-104 | the chosen entry is the first one that is not closed, covers the day and has both times; every earlier entry fails one of those; with none, nothing is chosen |
| BookingForm.ParseClock | src/blocks/BookingBlock/Component.client.tsx:82-83 | on `HH:MM` text, hour and minute are each below 100 |
| BookingForm.LabelParses | src/blocks/BookingBlock/Component.client.tsx:91 | the zero-padded label of a time below 100:100 is `HH:MM` text that parses back to that time |
| BookingForm.ParsedLabel | src/blocks/BookingBlock/Component.client.tsx:82-91 | every `HH:MM` text is the label of the time it parses to |
| BookingForm.ClockLabels | src/blocks/BookingBlock/Component.client.tsx:91-92 | one label per visited time, each `HH:MM` text naming that time |
| BookingForm.SlotLoop | src/blocks/BookingBlock/Component.client.tsx:87-100 | the loop visits times that all pass the guard; it visits something iff the opening time passes, and the first visited time is the opening time |
| BookingForm.LoopGuardIsMinuteComparison | src/blocks/BookingBlock/Component.client.tsx:90 | with a minute below 60, the hour-then-minute test is "minutes since midnight < closing minute" |
| BookingForm.AdvanceCarries | src/blocks/BookingBlock/Component.client.tsx:95-99 | one pass adds exactly the step to the minutes since midnight and leaves the minute field in [0, 60) |
| BookingForm.SlotLoopFollowsMinutes | src/blocks/BookingBlock/Component.client.tsx:87-100 | with an opening minute below 60, the loop visits exactly every step from opening, strictly before closing |
| BookingForm.SlotMinutesLength | src/blocks/BookingBlock/Component.client.tsx:90-100 | there are ceil((close − open) / step) slots when open < close, and none otherwise |
| BookingForm.SlotMinutesAt | src/blocks/BookingBlock/Component.client.tsx:90-100 | the i-th slot is open + i·step and lies before closing, so the first slot is the opening time and neighbours differ by the step |
| BookingForm.SlotMinutesIncreasing | src/blocks/BookingBlock/Component.client.tsx:90-100 | the slots are strictly increasing |
| BookingForm.OnGridMeaning | src/blocks/BookingBlock/Component.client.tsx:95-99 | a time is reached from opening by whole steps iff it is a multiple of the step after opening |
| BookingForm.SlotMinutesMembership | src/blocks/BookingBlock/Component.client.tsx:90-100 | a time is a slot iff it lies in [open, close) on the step grid from opening |
| BookingForm.EntryTimesAreSlotMinutes | src/blocks/BookingBlock/Component.client.tsx:82-100 | for an entry with an opening minute below 60, the visited times are the reference slots of its window |
| BookingForm.EntrySlots | src/blocks/BookingBlock/Component.client.tsx:82-100 | one `HH:MM` label per visited time, naming it |
| BookingForm.EntrySlotMembership | src/blocks/BookingBlock/Component.client.tsx:80-100 | an `HH:MM` text is offered iff its minute is below 60 and it names a time in [opening, closing) on the step grid from opening |
| BookingForm.StepTimeArithmetic | src/blocks/BookingBlock/Component.client.tsx:85-100 | a step time is one whose distance from opening is a multiple of the step, before closing |
| BookingForm.AvailableTimeSlots | src/blocks/BookingBlock/Component.client.tsx:58-107 | no slots without a date or without hours, or when no entry is usable; otherwise the slots of the first usable entry with step `timeSlotDuration \|\| 30`; every slot is `HH:MM` text |
| BookingForm.FormWithoutHoursOffersNoSlots | src/blocks/BookingBlock/Component.client.tsx:59 | with no opening hours, no slot is ever offered |
| BookingForm.MondayMorningSlots | src/blocks/BookingBlock/Component.client.tsx:58-107 | a "Mandag-Fredag" 08:00–10:00 entry offers 08:00, 08:30, 09:00 and 09:30 on a Monday with the default step; 10:00 is not offered |
| BookingForm.DeclaredBoundsAdmitEndlessSlotLoop | src/blocks/BookingBlock/Component.client.tsx:85-100 | settings inside every declared bound can carry timeSlotDuration = −30; the step is then −30 and the loop guard still holds after any number of passes |
| BookingForm.ResolvedSettingsGiveTerminatingStep | src/blocks/BookingBlock/Component.client.tsx:85 | settings stored under the corrected bound, on a first save or an update, give the form a step ≥ 1, namely the stored timeSlotDuration |
| BookingForm.PartySizeOptions | src/blocks/BookingBlock/Component.client.tsx:160-163 | max(maxPartySize \|\| 8, 0) options; the i-th is i + 1 |
| BookingForm.PartySizeOptionsRange | src/blocks/BookingBlock/Component.client.tsx:120-121 | n is offered iff 1 ≤ n ≤ maxPartySize \|\| 8, ascending. With stored settings there are exactly maxPartySize ≥ 1 options, and the initial 2 is offered iff maxPartySize ≥ 2 |
| BookingForm.PartySizeLabel | src/blocks/BookingBlock/Component.client.tsx:165 | the option text is "1 person" exactly for one person |
| BookingForm.Offered | src/blocks/BookingBlock/Component.client.tsx:183-187 | the time select lists the available slots for the chosen date whenever they can be computed, and every listed value is `HH:MM` text |
| BookingForm.ChosenTimeIsClockText | src/blocks/BookingBlock/Component.client.tsx:176-188 | a value the time select accepts is its empty placeholder or `HH:MM` text |
| BookingForm.AsWrittenKeepsClockText | src/blocks/BookingBlock/Component.client.tsx:128-188 | as the form handles events, the time select holds the placeholder or `HH:MM` text, though not necessarily a slot of the chosen date |
| BookingForm.StaleSlotEvents | src/blocks/BookingBlock/Component.client.tsx:128-188 | picking a Monday keeps the empty time, choosing 08:00 sets it, and then picking a Sunday changes only the date |
| BookingForm.StaleSlotEnablesSubmit | src/blocks/BookingBlock/Component.client.tsx:128-255 | with Monday-to-Friday hours, the events Monday, 08:00, Sunday leave submit enabled with 08:00 while the Sunday offers no slot (see Findings) |
| BookingForm.SundayHasNoEntry | src/blocks/BookingBlock/Component.client.tsx:58-107 | a Monday-to-Friday entry gives no slot on a Sunday |
| BookingForm.RunKeepsConsistent | src/blocks/BookingBlock/Component.client.tsx:128-188 | when a date change clears the time, every state the form reaches holds the placeholder or a slot offered for the chosen date |
| BookingForm.SubmitNeedsDateAndSlot | src/blocks/BookingBlock/Component.client.tsx:176-255 | in every state the corrected form reaches, submit is enabled iff a date is chosen and the time select holds a slot offered for it. Then the time select is enabled too. Without opening hours submit stays disabled |
| MenuBlock.DistinctIdsMembership | src/blocks/MenuBlock/Component.client.tsx:23-31 | an id is listed iff some item's populated category has it |
| MenuBlock.DistinctIdsOrdered | src/blocks/MenuBlock/Component.client.tsx:23-31 | listed ids come in order of first appearance |
| MenuBlock.DistinctIdsMeaning | src/blocks/MenuBlock/Component.client.tsx:23-31 | the listed ids have no duplicates, are exactly the populated category ids, and come in first-seen order |
| MenuBlock.SetCategory | src/blocks/MenuBlock/Component.client.tsx:27 | `Map.set` keeps an existing key in place with the new name, and appends a new key |
| MenuBlock.CategoryOptionIds | src/blocks/MenuBlock/Component.client.tsx:23-31 | the category select offers exactly the distinct ids, in first-seen order |
| MenuBlock.CategoryOptionName | src/blocks/MenuBlock/Component.client.tsx:25-28 | each option carries the name of the last item seen with its id |
| MenuBlock.FilteredItems | src/blocks/MenuBlock/Component.client.tsx:34-59 | every kept item passes the filter; no more items than the menu |
| MenuBlock.FilteredItemsMeaning | src/blocks/MenuBlock/Component.client.tsx:34-59 | an item is shown iff it is on the menu and passes the filter; the result is an order-preserving subsequence |
| MenuBlock.KeepCases | src/blocks/MenuBlock/Component.client.tsx:37-55 | a specific temperature or type keeps only items with that exact value. An item with an unpopulated category passes any category filter. A populated one passes iff the selection is "all" or its id |
| MenuBlock.ResetShowsEverything | src/blocks/MenuBlock/Component.client.tsx:167-177 | the indicator shows iff the filters differ from all-"all"; after reset the whole menu is shown |
| MenuBlock.ImageSplitPartitions | src/blocks/MenuBlock/Component.client.tsx:62-63 | the two lists split the items by `noImage`, as a multiset partition, each an order-preserving subsequence |
| MenuBlock.PlaceItem | src/blocks/MenuBlock/Component.client.tsx:73-92 | an item joins the group of its id; the group is created from this item's name and `order \|\| 0` when its id is new; other groups are untouched |
| MenuBlock.GroupIdsAreDistinctIds | src/blocks/MenuBlock/Component.client.tsx:72-94 | the groups are created in first-seen order of the distinct category ids |
| MenuBlock.GroupHeading | src/blocks/MenuBlock/Component.client.tsx:74-85 | a group's name and order come from the first item with its id, order read as `order \|\| 0` |
| MenuBlock.GroupMembers | src/blocks/MenuBlock/Component.client.tsx:86-92 | a group's two lists are exactly the items with its id with and without an image, in their original order |
| MenuBlock.NoMembersWithoutId | src/blocks/MenuBlock/Component.client.tsx:73 | an id no item carries has no members |
| MenuBlock.ItemInExactlyOneGroup | src/blocks/MenuBlock/Component.client.tsx:72-94 | an item with a populated category lies in exactly one group, its own, in the list matching its `noImage` |
| MenuBlock.SortByOrder | src/blocks/MenuBlock/Component.client.tsx:97-99 | sorting keeps the same groups |
| MenuBlock.SortByOrderMeaning | src/blocks/MenuBlock/Component.client.tsx:97-99 | groups come out ascending by order; groups of equal order keep their creation order |
| MenuBlock.GroupedByCategory | src/blocks/MenuBlock/Component.client.tsx:66-100 | the result holds exactly the groups of the filtered items |
| MenuBlock.NoGroupsMessage | src/blocks/MenuBlock/Component.client.tsx:188-217 | the "no items match" message shows iff no filtered item has a populated category |
| Sorting.SortByMeaning | src/blocks/MenuBlock/Component.client.tsx:99 | the stable sort is ascending by key and keeps the relative order of items with equal keys |
| Footer.FirstClock | src/Footer/Component.client.tsx:35 | the search finds the leftmost `\d{2}:\d{2}` match at or after a position, or reports that there is none |
| Footer.FormatTime | src/Footer/Component.client.tsx:32-40 | "" for missing or empty input. Otherwise the leftmost `HH:MM` match, or the input unchanged when nothing matches |
| Footer.LeftmostClock | src/Footer/Component.client.tsx:35 | a match with none before it is the one found |
| Footer.FormatTimeIdempotent | src/Footer/Component.client.tsx:32-40 | formatting a formatted time changes nothing |
| Footer.FormatTimeOfIsoTimestamp | src/Footer/Component.client.tsx:34-37 | a stored ISO timestamp shows as its time of day ("…T08:30:00.000Z" → "08:30") |
| Footer.HoursColumnOf | src/Footer/Component.client.tsx:85-107 | the fallback message shows iff the hours are missing or empty; otherwise there is one row per entry, with its day range and its line |
| Footer.IsoTimestampShowsTime | src/Footer/Component.client.tsx:32-40 | any ISO timestamp `YYYY-MM-DDTHH:MM…` shows as its `HH:MM`: no match starts inside the date part |
| Footer.IsoHoursRow | src/Footer/Component.client.tsx:85-107 | an open entry whose times are stored as ISO timestamps reads as one row "HH:MM - HH:MM" under its day range |
| Footer.HoursLineShapes | src/Footer/Component.client.tsx:97-99 | an open entry with `HH:MM` times reads "open - close"; one with no times reads " - " |
| Footer.AddressParts | src/Footer/Component.client.tsx:123-124 | every kept part is non-empty |
| Footer.AddressLine | src/Footer/Component.client.tsx:120-125 | the address shows iff street, city or postal code is given |
| Footer.AddressLineCases | src/Footer/Component.client.tsx:120-125 | all three parts give "street, postal code, city"; a single part gives that part alone; a shown line is never empty |
| Footer.SectionTitle | src/Footer/Component.client.tsx:24-25 | a given title is used, otherwise the fallback; a non-empty fallback gives a non-empty title |
| Footer.TitlesNeverEmpty | src/Footer/Component.client.tsx:24-25 | both columns always have a heading: "Opening Hours" and "Contact" when the title is missing or empty |
| ThemeSelector.NextPreference | src/providers/Theme/ThemeSelector/index.tsx:27-40 | auto (nothing or "") becomes light, light becomes dark, anything else becomes auto; each result occurs only in its case |
| ThemeSelector.ToggleEntersCycle | src/providers/Theme/ThemeSelector/index.tsx:27-40 | one toggle always lands on auto, light or dark, and moves off a preference already in that cycle |
| ThemeSelector.ThreeTogglesReturn | src/providers/Theme/ThemeSelector/index.tsx:30-38 | three toggles return to the start iff the start is auto (nothing stored), light or dark |
| ThemeSelector.IconOpacity | src/providers/Theme/ThemeSelector/index.tsx:104-111 | an icon is fully opaque iff its theme is current, and at 30 otherwise |
| ThemeSelector.TextLabel | src/providers/Theme/ThemeSelector/index.tsx:123 | "Lys" iff the current theme is light, "Mørk" otherwise |
| ThemeSelector.Render | src/providers/Theme/ThemeSelector/index.tsx:89-124 | nothing before mount; the icon toggle iff mounted and asked for icons; the text button otherwise |
| ThemeSelector.AtMostOneIconHighlighted | src/providers/Theme/ThemeSelector/index.tsx:104-111 | never both icons opaque; one is opaque iff the theme is light or dark |
| Text.Pad2 | src/blocks/BookingBlock/Component.client.tsx:91 | `padStart(2, '0')` of a number below 100 is two digits that read back as the number |
| Text.DecimalString | src/blocks/BookingBlock/Component.client.tsx:91 | `String(n)` is the shortest digit string reading back as n |

## Left out

- Seat capacity and slot overlap: the route handlers `src/app/(frontend)/api/bookings/check-availability/route.ts` and `src/app/(frontend)/api/bookings/create/route.ts` sum the party sizes of pending and confirmed bookings whose slots overlap the requested one. They compare that sum with `totalSeatingCapacity || 40`, counting occupancy as `tableOccupancyDuration || 120` minutes. Neither field is declared in the settings global, so 40 and 120 always apply. The create handler also refuses a party larger than `maxPartySize || 8` with status 400, answers 409 when seats run short, and stores the booking as `confirmed`. These handlers are database reads and writes with `Date` arithmetic and are not modelled. `maxSeatsPerSlot` is stored and validated but never read. The form's `handleSubmit` only logs and does not call these handlers.
- The e-mail templates and hooks, revalidation hooks, inline-data hooks, map block and other rendering-only components: I/O and layout with no decision logic.
- `new Date()`: "today" and "now" are parameters. Dates are whole day numbers, so the time of day that `new Date()` carries is not modelled.
- BookingForm.Disables: react-day-picker's matcher semantics are assumed as documented: before, after, dayOfWeek, and a single date.
- BookingForm.BlackoutMatchers: the `if (blackout.date)` guard is not modelled. Stored settings always carry a date, because the field is required and `Resolve` enforces it.
- BookingForm.ParseClock: requires `HH:MM` text. The opening-hours global stores date-time strings, and `split(':').map(Number)` on those gives NaN; that path is not modelled.
- BookingForm.EntrySlotMembership: characterises the offered slots only for an opening minute below 60. `SlotLoop` models the loop for any minute below 100.
- BookingForm.AvailableTimeSlots: the step is an integer. Payload stores number fields as JavaScript numbers, so a fractional `timeSlotDuration` such as 7.5 would produce labels like "08:7.5"; that case is not modelled.
- BookingSettings.Resolve: every numeric field is an integer. A fractional value such as `maxPartySize` 2.5 passes Payload's bounds but is not representable here; the form's `Array.from` would truncate the length it gives.
- Bookings.Validate: a required field is either sent or omitted; an explicit `null` for a required field on an update, which Payload rejects, is read as omitted here. The optional `notes` and `createdAt` distinguish omitted, `null` and a value.
- BookingSettings.Resolve: a field is either sent or omitted; an explicit `null` for one of the required numeric fields, which Payload rejects, is read as omitted here.
- Bookings.Validate: `partySize` is an integer; a fractional party size is not modelled.
- BookingForm.AvailableTimeSlots: requires the chosen entry's times to be `HH:MM` text and the step to be positive. The non-positive step is modelled separately by `Iterate` (see Findings).
- Text.ToLower: lower-cases ASCII letters and Æ, Ø, Å only, not the full Unicode `toLowerCase`.
- The block that renders the form passes no opening hours, so the form offers no slot. This is modelled by `FormWithoutHoursOffersNoSlots`; the rest takes hours as a parameter.
- Bookings.Validate: the e-mail format check of Payload's `email` field type is not modelled; any non-empty text is accepted.
- BookingSettings.Resolve: reports only the first violation, in field order. Payload reports all of them.
- MenuBlock.SortByOrder: `Array.prototype.sort` is assumed stable, as ECMAScript 2019 requires. The comparator `a.order - b.order` is read as a comparison of integers.
- ThemeSelector.NextPreference: the theme provider's `setTheme(x)` is taken to store x, and `null` to clear the stored value. The provider is not part of this model.
- Footer: the logo, navigation, phone, e-mail and social links are rendering only.

## Findings

| source | as written | input that shows it | evidently intended | confidence | as-written member | corrected member |
|---|---|---|---|---|---|---|
| src/globals/BookingSettings.ts:28-37 | `timeSlotDuration` declares no minimum. The form reads it as `timeSlotDuration \|\| 30`, which replaces only 0 and unset, and the slot loop adds it to the minutes | timeSlotDuration = −30 with an entry from 08:00 to 10:00: every pass lowers the minute field, and the guard `hour < 10` holds forever | a minimum of 1, like the sibling numeric fields, so that every stored step is positive | high; not executed | BookingForm.DeclaredBoundsAdmitEndlessSlotLoop | BookingSettings.Resolve |
| src/blocks/BookingBlock/Component.client.tsx:131 | The calendar's `onSelect` sets only the date; the time select's value, set at line 179, survives a date change, and the submit guard at line 255 checks only that some time is held | with Monday-to-Friday hours from 08:00 to 10:00: pick a Monday, choose 08:00, then pick a Sunday. Submit stays enabled with 08:00, which the Sunday does not offer | changing the date clears the chosen time, so that submit is enabled only with a slot offered for the chosen date. As the block is rendered it passes no opening hours and `handleSubmit` only logs, so no stale booking is sent | medium; not executed | BookingForm.StaleSlotEnablesSubmit | BookingForm.SubmitNeedsDateAndSlot |
