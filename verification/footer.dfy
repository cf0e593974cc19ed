/** The footer's text helpers: `formatTime`, the opening-hours lines, the
    address line and the section titles. */
module Footer {
  import opened Common
  import Text
  import opened OpeningHours

  // ---------------------------------------------------------------------
  // formatTime

  /** `/(\d{2}):(\d{2})/` matches at position `i`: two ASCII digits, a colon,
      two ASCII digits. */
  predicate ClockAt(s: string, i: nat) {
    i + 5 <= |s| && Text.IsDigit(s[i]) && Text.IsDigit(s[i + 1]) && s[i + 2] == ':'
    && Text.IsDigit(s[i + 3]) && Text.IsDigit(s[i + 4])
  }

  /** The leftmost match at or after `from`. */
  function FirstClock(s: string, from: nat): (r: Option<nat>)
    ensures r.Some? ==> from <= r.value && ClockAt(s, r.value)
    ensures r.Some? ==> forall j :: from <= j < r.value ==> !ClockAt(s, j)
    ensures r.None? ==> forall j :: from <= j ==> !ClockAt(s, j)
    decreases |s| - from
  {
    if from + 5 > |s| then None
    else if ClockAt(s, from) then Some(from)
    else FirstClock(s, from + 1)
  }

  /** `formatTime`: empty for a missing or empty value; otherwise the
      leftmost `HH:MM` in the text, or the text itself when there is none. */
  function FormatTime(t: Option<string>): (r: string)
    ensures !Present(t) ==> r == ""
    ensures Present(t) && (forall i: nat :: !ClockAt(t.value, i)) ==> r == t.value
    ensures Present(t) && (exists i: nat :: ClockAt(t.value, i)) ==>
      exists i: nat :: ClockAt(t.value, i) && r == t.value[i..i + 5]
        && forall j :: 0 <= j < i ==> !ClockAt(t.value, j)
  {
    if !Present(t) then ""
    else
      var m := FirstClock(t.value, 0);
      if m.Some? then t.value[m.value..m.value + 5] else t.value
  }

  /** The leftmost match is unique: a match with none before it is the one
      `FirstClock` finds. */
  lemma LeftmostClock(s: string, i: nat)
    requires ClockAt(s, i) && forall j :: 0 <= j < i ==> !ClockAt(s, j)
    ensures FirstClock(s, 0) == Some(i)
  {
  }

  /** A formatted time is left unchanged by formatting it again. */
  lemma FormatTimeIdempotent(t: Option<string>)
    ensures FormatTime(Some(FormatTime(t))) == FormatTime(t)
  {
    var r := FormatTime(t);
    if Present(t) && FirstClock(t.value, 0).Some? {
      var i := FirstClock(t.value, 0).value;
      assert r == t.value[i..i + 5];
      assert ClockAt(r, 0);
      LeftmostClock(r, 0);
      assert r[0..5] == r;
    }
  }

  /** A stored date-time shows as its `HH:MM` part: the first match in an
      ISO timestamp is the time of day. */
  lemma FormatTimeOfIsoTimestamp()
    ensures FormatTime(Some("2024-01-01T08:30:00.000Z")) == "08:30"
  {
    var s := "2024-01-01T08:30:00.000Z";
    assert ClockAt(s, 11);
    forall j | 0 <= j < 11
      ensures !ClockAt(s, j)
    {
      assert s[j + 2] != ':';
    }
    LeftmostClock(s, 11);
    assert s[11..16] == "08:30";
  }

  // ---------------------------------------------------------------------
  // Opening hours

  /** The time line of one entry: "Closed", or the two formatted times
      joined by " - ". */
  function HoursLine(e: HoursEntry): string {
    if e.isClosed then "Closed"
    else FormatTime(e.openingTime) + " - " + FormatTime(e.closingTime)
  }

  /** A row of the hours column: the day range as stored, then its line. */
  datatype HoursRow = HoursRow(dayRange: string, line: string)

  /** The hours column: a row per entry, or the fallback text when the list
      is missing or empty. */
  datatype HoursColumn = NoHoursMessage | Rows(rows: seq<HoursRow>)

  const NoHoursText := "No opening hours available"

  function HoursColumnOf(hours: Option<seq<HoursEntry>>): (r: HoursColumn)
    ensures r.NoHoursMessage? <==> hours.None? || |hours.value| == 0
    ensures r.Rows? ==> |r.rows| == |hours.value|
    ensures r.Rows? ==> forall i :: 0 <= i < |hours.value| ==>
      r.rows[i] == HoursRow(hours.value[i].dayRange.GetOr(""), HoursLine(hours.value[i]))
  {
    if hours.None? || |hours.value| == 0 then NoHoursMessage
    else Rows(seq(|hours.value|, i requires 0 <= i < |hours.value| =>
                  HoursRow(hours.value[i].dayRange.GetOr(""), HoursLine(hours.value[i]))))
  }

  /** The date part of an ISO 8601 timestamp: `YYYY-MM-DDT`. */
  predicate IsoDatePrefix(s: string) {
    |s| >= 11 && Text.IsDigit(s[0]) && Text.IsDigit(s[1]) && Text.IsDigit(s[2]) && Text.IsDigit(s[3])
    && s[4] == '-' && Text.IsDigit(s[5]) && Text.IsDigit(s[6])
    && s[7] == '-' && Text.IsDigit(s[8]) && Text.IsDigit(s[9]) && s[10] == 'T'
  }

  /** Any ISO timestamp with a time of day shows as its `HH:MM`: no match can
      start inside the date part. */
  lemma IsoTimestampShowsTime(s: string)
    requires IsoDatePrefix(s) && ClockAt(s, 11)
    ensures FormatTime(Some(s)) == s[11..16]
  {
    forall j | 0 <= j < 11
      ensures !ClockAt(s, j)
    {
      assert s[j + 2] != ':';
    }
    LeftmostClock(s, 11);
  }

  /** An open entry whose times are stored as ISO timestamps reads as one
      row "HH:MM - HH:MM" under its day range. */
  lemma IsoHoursRow(e: HoursEntry)
    requires !e.isClosed && e.openingTime.Some? && e.closingTime.Some?
    requires IsoDatePrefix(e.openingTime.value) && ClockAt(e.openingTime.value, 11)
    requires IsoDatePrefix(e.closingTime.value) && ClockAt(e.closingTime.value, 11)
    ensures HoursColumnOf(Some([e])) == Rows([HoursRow(e.dayRange.GetOr(""),
      e.openingTime.value[11..16] + " - " + e.closingTime.value[11..16])])
  {
    IsoTimestampShowsTime(e.openingTime.value);
    IsoTimestampShowsTime(e.closingTime.value);
    var r := HoursColumnOf(Some([e]));
    assert r.rows[0] == HoursRow(e.dayRange.GetOr(""), e.openingTime.value[11..16] + " - " + e.closingTime.value[11..16]);
  }

  /** An open entry whose times are already `HH:MM` shows them unchanged;
      one with no times shows only the separator. */
  lemma HoursLineShapes(e: HoursEntry, open: string, close: string)
    requires !e.isClosed
    requires ClockAt(open, 0) && |open| == 5 && ClockAt(close, 0) && |close| == 5
    ensures e.openingTime == Some(open) && e.closingTime == Some(close) ==>
      HoursLine(e) == open + " - " + close
    ensures e.openingTime.None? && e.closingTime.None? ==> HoursLine(e) == " - "
  {
    LeftmostClock(open, 0);
    LeftmostClock(close, 0);
    assert open[0..5] == open;
    assert close[0..5] == close;
  }

  // ---------------------------------------------------------------------
  // Address

  /** The contact fields the address line uses. */
  datatype Address = Address(streetAddress: Option<string>, postalCode: Option<string>, city: Option<string>)

  /** The parts that `.filter(Boolean)` keeps, in the order street, postal
      code, city. */
  function AddressParts(a: Address): (r: seq<string>)
    ensures forall i :: 0 <= i < |r| ==> |r[i]| > 0
  {
    (if Present(a.streetAddress) then [a.streetAddress.value] else [])
    + (if Present(a.postalCode) then [a.postalCode.value] else [])
    + (if Present(a.city) then [a.city.value] else [])
  }

  /** The address line: shown when any part is given, as the given parts
      joined by ", ". */
  function AddressLine(a: Address): (r: Option<string>)
    ensures r.Some? <==> Present(a.streetAddress) || Present(a.city) || Present(a.postalCode)
  {
    if Present(a.streetAddress) || Present(a.city) || Present(a.postalCode) then
      Some(Text.Join(AddressParts(a), ", "))
    else None
  }

  /** With every part given the line is "street, postal code, city"; with
      one part given it is that part alone; and the line is never empty
      when shown. */
  lemma AddressLineCases(a: Address)
    ensures Present(a.streetAddress) && Present(a.postalCode) && Present(a.city) ==>
      AddressLine(a) == Some(a.streetAddress.value + ", " + a.postalCode.value + ", " + a.city.value)
    ensures !Present(a.streetAddress) && !Present(a.postalCode) && Present(a.city) ==>
      AddressLine(a) == Some(a.city.value)
    ensures Present(a.streetAddress) && !Present(a.postalCode) && !Present(a.city) ==>
      AddressLine(a) == Some(a.streetAddress.value)
    ensures AddressLine(a).Some? ==> |AddressLine(a).value| > 0
  {
    var parts := AddressParts(a);
    if Present(a.streetAddress) && Present(a.postalCode) && Present(a.city) {
      assert parts == [a.streetAddress.value, a.postalCode.value, a.city.value];
      assert parts[1..] == [a.postalCode.value, a.city.value];
      assert parts[1..][1..] == [a.city.value];
      assert Text.Join(parts[1..][1..], ", ") == a.city.value;
      assert Text.Join(parts[1..], ", ") == a.postalCode.value + ", " + a.city.value;
      assert Text.Join(parts, ", ") == a.streetAddress.value + ", " + (a.postalCode.value + ", " + a.city.value);
      assert AddressLine(a) == Some(Text.Join(parts, ", "));
      assert a.streetAddress.value + ", " + (a.postalCode.value + ", " + a.city.value)
          == a.streetAddress.value + ", " + a.postalCode.value + ", " + a.city.value;
    }
    if AddressLine(a).Some? {
      JoinNonEmpty(parts, ", ");
    }
  }

  lemma {:induction false} JoinNonEmpty(parts: seq<string>, sep: string)
    requires |parts| > 0 && forall i :: 0 <= i < |parts| ==> |parts[i]| > 0
    ensures |Text.Join(parts, sep)| > 0
  {
    if |parts| > 1 {
      assert |parts[0]| > 0;
    }
  }

  // ---------------------------------------------------------------------
  // Section titles

  const DefaultOpeningHoursTitle := "Opening Hours"
  const DefaultContactTitle := "Contact"

  /** `sectionTitle || fallback`. */
  function SectionTitle(title: Option<string>, fallback: string): (r: string)
    ensures Present(title) ==> r == title.value
    ensures !Present(title) ==> r == fallback
    ensures |fallback| > 0 ==> |r| > 0
  {
    if Present(title) then title.value else fallback
  }

  /** Both columns always carry a heading: a missing or empty title falls
      back to "Opening Hours" or "Contact". */
  lemma TitlesNeverEmpty(hoursTitle: Option<string>, contactTitle: Option<string>)
    ensures |SectionTitle(hoursTitle, DefaultOpeningHoursTitle)| > 0
    ensures |SectionTitle(contactTitle, DefaultContactTitle)| > 0
    ensures SectionTitle(None, DefaultOpeningHoursTitle) == "Opening Hours"
    ensures SectionTitle(Some(""), DefaultContactTitle) == "Contact"
  {
  }
}
