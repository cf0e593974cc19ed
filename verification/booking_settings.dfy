/** The `booking-settings` global: reservation policy fields with their
    defaults and bounds, and the encoding of the closed-weekday select. */
module BookingSettings {
  import opened Common
  import Text

  /** Days of the week, numbered as `Date.prototype.getDay` numbers them. */
  datatype Weekday = Sunday | Monday | Tuesday | Wednesday | Thursday | Friday | Saturday

  /** The `getDay()` number of a weekday: Sunday is 0, Saturday is 6. */
  function DayIndex(w: Weekday): (n: nat)
    ensures n < 7
  {
    match w
    case Sunday => 0
    case Monday => 1
    case Tuesday => 2
    case Wednesday => 3
    case Thursday => 4
    case Friday => 5
    case Saturday => 6
  }

  function WeekdayOfIndex(n: nat): (w: Weekday)
    requires n < 7
    ensures DayIndex(w) == n
  {
    if n == 0 then Sunday
    else if n == 1 then Monday
    else if n == 2 then Tuesday
    else if n == 3 then Wednesday
    else if n == 4 then Thursday
    else if n == 5 then Friday
    else Saturday
  }

  /** The Norwegian label of each `closedWeekdays` option. */
  function Label(w: Weekday): string {
    match w
    case Monday => "Mandag"
    case Tuesday => "Tirsdag"
    case Wednesday => "Onsdag"
    case Thursday => "Torsdag"
    case Friday => "Fredag"
    case Saturday => "Lørdag"
    case Sunday => "Søndag"
  }

  /** The stored value of each `closedWeekdays` option. */
  function Value(w: Weekday): string {
    match w
    case Monday => "1"
    case Tuesday => "2"
    case Wednesday => "3"
    case Thursday => "4"
    case Friday => "5"
    case Saturday => "6"
    case Sunday => "0"
  }

  /** The options of the `closedWeekdays` select, in the order they are listed. */
  const ClosedWeekdayOptions: seq<Weekday> :=
    [Monday, Tuesday, Wednesday, Thursday, Friday, Saturday, Sunday]

  /** Reads a stored `closedWeekdays` value back; anything but the seven
      option values is not a weekday. */
  function ParseValue(v: string): (r: Option<Weekday>)
    ensures r.Some? ==> Value(r.value) == v
  {
    if v == "0" then Some(Sunday)
    else if v == "1" then Some(Monday)
    else if v == "2" then Some(Tuesday)
    else if v == "3" then Some(Wednesday)
    else if v == "4" then Some(Thursday)
    else if v == "5" then Some(Friday)
    else if v == "6" then Some(Saturday)
    else None
  }

  /** Each stored value is the single decimal digit of the weekday's
      `getDay()` number, and reads back as that weekday. */
  lemma ValueEncodesDayIndex(w: Weekday)
    ensures |Value(w)| == 1 && Text.AllDigits(Value(w))
    ensures Text.ParseDecimal(Value(w)) == DayIndex(w)
    ensures ParseValue(Value(w)) == Some(w)
  {
    assert Value(w)[..0] == [];
  }

  /** The select offers every weekday exactly once, Monday first, and the
      stored values are exactly "0" to "6". */
  lemma ClosedWeekdayOptionsAreComplete()
    ensures |ClosedWeekdayOptions| == 7
    ensures forall w: Weekday :: w in ClosedWeekdayOptions
    ensures forall i, j :: 0 <= i < j < 7 ==> ClosedWeekdayOptions[i] != ClosedWeekdayOptions[j]
    ensures forall v: string :: ParseValue(v).Some? <==> v in {"0", "1", "2", "3", "4", "5", "6"}
  {
    forall w: Weekday
      ensures w in ClosedWeekdayOptions
    {
      assert ClosedWeekdayOptions[(DayIndex(w) + 6) % 7] == w;
    }
  }

  /** An entry of `blackoutDates`: a day number (days since 1970-01-01) and
      an optional reason. */
  datatype BlackoutDate = BlackoutDate(date: int, reason: Option<string>)

  /** The stored settings record. */
  datatype Settings = Settings(
    maxPartySize: int,
    timeSlotDuration: int,
    maxSeatsPerSlot: int,
    advanceBookingDays: int,
    blackoutDates: seq<BlackoutDate>,
    closedWeekdays: seq<Weekday>)

  /** The settings as submitted to the CMS: any field may be left out, and
      a blackout entry may be missing its date. */
  datatype BlackoutInput = BlackoutInput(date: Option<int>, reason: Option<string>)

  datatype SettingsInput = SettingsInput(
    maxPartySize: Option<int>,
    timeSlotDuration: Option<int>,
    maxSeatsPerSlot: Option<int>,
    advanceBookingDays: Option<int>,
    blackoutDates: Option<seq<BlackoutInput>>,
    closedWeekdays: Option<seq<Weekday>>)

  /** A save that sends no field. */
  const NothingSent := SettingsInput(None, None, None, None, None, None)

  const DefaultMaxPartySize := 8
  const DefaultTimeSlotDuration := 30
  const DefaultMaxSeatsPerSlot := 40
  const DefaultAdvanceBookingDays := 30
  const MaxAdvanceBookingDays := 365

  datatype FieldError =
    | BelowMinimum(field: string, minimum: int)
    | AboveMaximum(field: string, maximum: int)
    | MissingBlackoutDate(index: nat)

  /** The bounds the field declarations state: `maxPartySize` and
      `maxSeatsPerSlot` at least 1, `advanceBookingDays` in [1, 365].
      `timeSlotDuration` declares no bound. */
  predicate WithinDeclaredBounds(s: Settings) {
    && s.maxPartySize >= 1
    && s.maxSeatsPerSlot >= 1
    && 1 <= s.advanceBookingDays <= MaxAdvanceBookingDays
  }

  /** The declared bounds plus a positive slot length (see the finding on
      `timeSlotDuration` in the README). */
  predicate Valid(s: Settings) {
    WithinDeclaredBounds(s) && s.timeSlotDuration >= 1
  }

  /** Every blackout entry of the input carries its required date. */
  predicate AllBlackoutDatesGiven(bs: seq<BlackoutInput>) {
    forall i :: 0 <= i < |bs| ==> bs[i].date.Some?
  }

  function FirstMissingDate(bs: seq<BlackoutInput>): (k: nat)
    requires !AllBlackoutDatesGiven(bs)
    ensures k < |bs| && bs[k].date.None?
    ensures forall i :: 0 <= i < k ==> bs[i].date.Some?
  {
    if bs[0].date.None? then 0 else 1 + FirstMissingDate(bs[1..])
  }

  function BlackoutDates(bs: seq<BlackoutInput>): (r: seq<BlackoutDate>)
    requires AllBlackoutDatesGiven(bs)
    ensures |r| == |bs|
    ensures forall i :: 0 <= i < |bs| ==> r[i] == BlackoutDate(bs[i].date.value, bs[i].reason)
  {
    if |bs| == 0 then [] else [BlackoutDate(bs[0].date.value, bs[0].reason)] + BlackoutDates(bs[1..])
  }

  /** The record an omitted field is taken from: the stored settings on an
      update, and on the first save the declared defaults with no blackout
      dates and no closed weekdays. */
  function Fallback(stored: Option<Settings>): Settings {
    if stored.Some? then stored.value
    else Settings(DefaultMaxPartySize, DefaultTimeSlotDuration, DefaultMaxSeatsPerSlot,
                  DefaultAdvanceBookingDays, [], [])
  }

  /** Stored blackout entries, as they would be sent again. */
  function AsInput(bs: seq<BlackoutDate>): (r: seq<BlackoutInput>)
    ensures |r| == |bs| && AllBlackoutDatesGiven(r)
    ensures forall i :: 0 <= i < |bs| ==> r[i] == BlackoutInput(Some(bs[i].date), bs[i].reason)
  {
    seq(|bs|, i requires 0 <= i < |bs| => BlackoutInput(Some(bs[i].date), bs[i].reason))
  }

  /** The blackout entries a save validates: the sent ones, or the fallback's. */
  function SentBlackouts(input: SettingsInput, stored: Option<Settings>): seq<BlackoutInput> {
    input.blackoutDates.GetOr(AsInput(Fallback(stored).blackoutDates))
  }

  /** Stores a submitted settings record. Every field the save leaves out is
      taken from the stored settings, or from the declared defaults (8, 30,
      40, 30) on the first save; then the fields are checked in declaration
      order and the first violation is reported. */
  function Resolve(input: SettingsInput, stored: Option<Settings>): (r: Result<Settings, FieldError>)
    ensures var f := Fallback(stored);
      r.Success? <==>
      && input.maxPartySize.GetOr(f.maxPartySize) >= 1
      && input.timeSlotDuration.GetOr(f.timeSlotDuration) >= 1
      && input.maxSeatsPerSlot.GetOr(f.maxSeatsPerSlot) >= 1
      && 1 <= input.advanceBookingDays.GetOr(f.advanceBookingDays) <= MaxAdvanceBookingDays
      && AllBlackoutDatesGiven(SentBlackouts(input, stored))
    ensures r.Success? ==> Valid(r.value)
    ensures var f := Fallback(stored);
      var bs := SentBlackouts(input, stored);
      r.Success? ==>
      && r.value.maxPartySize == input.maxPartySize.GetOr(f.maxPartySize)
      && r.value.timeSlotDuration == input.timeSlotDuration.GetOr(f.timeSlotDuration)
      && r.value.maxSeatsPerSlot == input.maxSeatsPerSlot.GetOr(f.maxSeatsPerSlot)
      && r.value.advanceBookingDays == input.advanceBookingDays.GetOr(f.advanceBookingDays)
      && r.value.closedWeekdays == input.closedWeekdays.GetOr(f.closedWeekdays)
      && |r.value.blackoutDates| == |bs|
      && forall i :: 0 <= i < |bs| ==>
           r.value.blackoutDates[i].date == bs[i].date.value
           && r.value.blackoutDates[i].reason == bs[i].reason
    ensures var bs := SentBlackouts(input, stored);
      r.Failure? && r.error.MissingBlackoutDate? ==>
      r.error.index < |bs| && bs[r.error.index].date.None?
  {
    var f := Fallback(stored);
    var maxParty := input.maxPartySize.GetOr(f.maxPartySize);
    var step := input.timeSlotDuration.GetOr(f.timeSlotDuration);
    var seats := input.maxSeatsPerSlot.GetOr(f.maxSeatsPerSlot);
    var advance := input.advanceBookingDays.GetOr(f.advanceBookingDays);
    var bs := SentBlackouts(input, stored);
    if maxParty < 1 then Failure(BelowMinimum("maxPartySize", 1))
    else if step < 1 then Failure(BelowMinimum("timeSlotDuration", 1))
    else if seats < 1 then Failure(BelowMinimum("maxSeatsPerSlot", 1))
    else if advance < 1 then Failure(BelowMinimum("advanceBookingDays", 1))
    else if advance > MaxAdvanceBookingDays then Failure(AboveMaximum("advanceBookingDays", MaxAdvanceBookingDays))
    else if !AllBlackoutDatesGiven(bs) then
      Failure(MissingBlackoutDate(FirstMissingDate(bs)))
    else
      Success(Settings(maxParty, step, seats, advance,
                       BlackoutDates(bs), input.closedWeekdays.GetOr(f.closedWeekdays)))
  }

  /** The first save with nothing filled in stores the declared defaults. */
  lemma EmptyInputGivesDefaults()
    ensures Resolve(NothingSent, None) == Success(Settings(8, 30, 40, 30, [], []))
  {
  }

  /** Stored blackout entries sent again come back unchanged. */
  lemma BlackoutsRoundTrip(bs: seq<BlackoutDate>)
    ensures BlackoutDates(AsInput(bs)) == bs
  {
    var r := BlackoutDates(AsInput(bs));
    assert forall i :: 0 <= i < |bs| ==> r[i] == bs[i];
  }

  /** The input that sends every field of a settings record. */
  function InputOf(st: Settings): SettingsInput {
    SettingsInput(Some(st.maxPartySize), Some(st.timeSlotDuration), Some(st.maxSeatsPerSlot),
                  Some(st.advanceBookingDays), Some(AsInput(st.blackoutDates)), Some(st.closedWeekdays))
  }

  /** Saving every field of a record stores exactly that record, whatever was
      stored before, and is accepted iff the record is valid. */
  lemma SaveRoundTrip(st: Settings, stored: Option<Settings>)
    ensures Resolve(InputOf(st), stored).Success? <==> Valid(st)
    ensures Valid(st) ==> Resolve(InputOf(st), stored) == Success(st)
  {
    BlackoutsRoundTrip(st.blackoutDates);
  }

  /** An update that sends nothing keeps valid stored settings unchanged. */
  lemma EmptyUpdateKeepsSettings(st: Settings)
    requires Valid(st)
    ensures Resolve(NothingSent, Some(st)) == Success(st)
  {
    BlackoutsRoundTrip(st.blackoutDates);
  }

  /** An update that sends only `advanceBookingDays` changes only that field;
      the stored party size, step and closed weekdays are kept. */
  lemma AdvanceOnlyUpdate(st: Settings, n: int)
    requires Valid(st)
    ensures Resolve(NothingSent.(advanceBookingDays := Some(n)), Some(st)).Success?
      <==> 1 <= n <= MaxAdvanceBookingDays
    ensures 1 <= n <= MaxAdvanceBookingDays ==>
      Resolve(NothingSent.(advanceBookingDays := Some(n)), Some(st)) == Success(st.(advanceBookingDays := n))
  {
    BlackoutsRoundTrip(st.blackoutDates);
  }
}
