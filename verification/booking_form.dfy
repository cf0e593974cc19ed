/** The client-side booking form: the calendar's disabled-day matchers, the
    time slots offered for the chosen date, the party-size choices and the
    enable/disable guards of its controls. Dates are day numbers (days since
    1970-01-01); "today" is a parameter. */
module BookingForm {
  import opened Common
  import Text
  import opened BookingSettings
  import Arith
  import opened OpeningHours

  // ---------------------------------------------------------------------
  // Dates

  /** `date.getDay()` of a day number; 1970-01-01 was a Thursday. */
  function WeekdayOfDate(day: int): (w: Weekday)
    ensures DayIndex(w) == (day + 4) % 7
  {
    WeekdayOfIndex((day + 4) % 7)
  }

  // ---------------------------------------------------------------------
  // Disabled days

  /** The calendar matchers the form hands to the day picker. */
  datatype Matcher =
    | Before(day: int)
    | After(day: int)
    | DaysOfWeek(days: seq<int>)
    | OnDay(day: int)

  /** `closedWeekdays.map(day => parseInt(day))` over the stored values. */
  function ParsedWeekdays(ws: seq<Weekday>): (r: seq<int>)
    ensures |r| == |ws|
    ensures forall i :: 0 <= i < |ws| ==> r[i] == DayIndex(ws[i])
  {
    if |ws| == 0 then []
    else
      ValueEncodesDayIndex(ws[0]);
      [Text.ParseDecimal(Value(ws[0]))] + ParsedWeekdays(ws[1..])
  }

  function BlackoutMatchers(bs: seq<BlackoutDate>): (r: seq<Matcher>)
    ensures |r| == |bs|
    ensures forall i :: 0 <= i < |bs| ==> r[i] == OnDay(bs[i].date)
  {
    if |bs| == 0 then [] else [OnDay(bs[0].date)] + BlackoutMatchers(bs[1..])
  }

  /** The advance-booking horizon matcher, present only when a horizon is set. */
  function HorizonMatchers(s: Settings, today: int): seq<Matcher> {
    if s.advanceBookingDays != 0 then [After(today + s.advanceBookingDays)] else []
  }

  /** The closed-weekday matcher, present only when some weekday is closed. */
  function ClosedMatchers(s: Settings): seq<Matcher> {
    if |s.closedWeekdays| > 0 then [DaysOfWeek(ParsedWeekdays(s.closedWeekdays))] else []
  }

  /** The disabled-day list: past days, then the advance-booking horizon when
      set, then the closed weekdays when any, then one entry per blackout
      date. Absent settings disable only the past. */
  function DisabledDays(settings: Option<Settings>, today: int): (r: seq<Matcher>)
    ensures |r| >= 1 && r[0] == Before(today)
    ensures settings.None? ==> r == [Before(today)]
  {
    if settings.None? then [Before(today)]
    else
      var s := settings.value;
      [Before(today)] + HorizonMatchers(s, today) + ClosedMatchers(s) + BlackoutMatchers(s.blackoutDates)
  }

  /** How the day picker reads one matcher (react-day-picker's meaning of
      `before`, `after`, `dayOfWeek` and a bare date). */
  predicate Disables(m: Matcher, day: int) {
    match m
    case Before(t) => day < t
    case After(t) => day > t
    case DaysOfWeek(ds) => DayIndex(WeekdayOfDate(day)) in ds
    case OnDay(t) => day == t
  }

  predicate DisabledBy(ms: seq<Matcher>, day: int) {
    exists i :: 0 <= i < |ms| && Disables(ms[i], day)
  }

  predicate IsBlackout(bs: seq<BlackoutDate>, day: int) {
    exists i :: 0 <= i < |bs| && bs[i].date == day
  }

  /** A day is refused by a concatenation of matcher lists exactly when
      one of the two lists refuses it. */
  lemma DisabledByConcat(a: seq<Matcher>, b: seq<Matcher>, day: int)
    ensures DisabledBy(a + b, day) <==> DisabledBy(a, day) || DisabledBy(b, day)
  {
    if DisabledBy(a + b, day) {
      var i :| 0 <= i < |a + b| && Disables((a + b)[i], day);
      if i >= |a| {
        assert (a + b)[i] == b[i - |a|];
      }
    }
    if DisabledBy(b, day) {
      var i :| 0 <= i < |b| && Disables(b[i], day);
      assert (a + b)[|a| + i] == b[i];
    }
    if DisabledBy(a, day) {
      var i :| 0 <= i < |a| && Disables(a[i], day);
      assert (a + b)[i] == a[i];
    }
  }

  /** The closed-weekday matcher holds the getDay() numbers of exactly the
      closed days. */
  lemma ClosedWeekdaysMatch(ws: seq<Weekday>, w: Weekday)
    ensures DayIndex(w) in ParsedWeekdays(ws) <==> w in ws
  {
    var ps := ParsedWeekdays(ws);
    if w in ws {
      var i :| 0 <= i < |ws| && ws[i] == w;
      assert ps[i] == DayIndex(w);
    }
    if DayIndex(w) in ps {
      var i :| 0 <= i < |ps| && ps[i] == DayIndex(w);
      assert WeekdayOfIndex(DayIndex(ws[i])) == ws[i];
      assert WeekdayOfIndex(DayIndex(w)) == w;
    }
  }

  /** One matcher per blackout date refuses exactly the blackout dates. */
  lemma BlackoutMatchersMatch(bs: seq<BlackoutDate>, day: int)
    ensures DisabledBy(BlackoutMatchers(bs), day) <==> IsBlackout(bs, day)
  {
    var ms := BlackoutMatchers(bs);
    if IsBlackout(bs, day) {
      var i :| 0 <= i < |bs| && bs[i].date == day;
      assert Disables(ms[i], day);
    }
    if DisabledBy(ms, day) {
      var i :| 0 <= i < |ms| && Disables(ms[i], day);
      assert bs[i].date == day;
    }
  }

  /** The calendar refuses exactly: past days, days beyond the horizon (when
      one is set), closed weekdays and blackout dates. */
  lemma DisabledDaysMeaning(s: Settings, today: int, day: int)
    ensures DisabledBy(DisabledDays(Some(s), today), day) <==>
      || day < today
      || (s.advanceBookingDays != 0 && day > today + s.advanceBookingDays)
      || WeekdayOfDate(day) in s.closedWeekdays
      || IsBlackout(s.blackoutDates, day)
  {
    var past := [Before(today)];
    var horizon := HorizonMatchers(s, today);
    var closed := ClosedMatchers(s);
    var blackouts := BlackoutMatchers(s.blackoutDates);
    DisabledByConcat(past + horizon + closed, blackouts, day);
    DisabledByConcat(past + horizon, closed, day);
    DisabledByConcat(past, horizon, day);
    PastMatch(today, day);
    HorizonMatch(s, today, day);
    ClosedMatch(s, day);
    BlackoutMatchersMatch(s.blackoutDates, day);
  }

  lemma PastMatch(today: int, day: int)
    ensures DisabledBy([Before(today)], day) <==> day < today
  {
    assert Disables([Before(today)][0], day) <==> day < today;
  }

  /** The horizon matcher refuses the days after the horizon, when one is set. */
  lemma HorizonMatch(s: Settings, today: int, day: int)
    ensures DisabledBy(HorizonMatchers(s, today), day) <==>
      s.advanceBookingDays != 0 && day > today + s.advanceBookingDays
  {
    var horizon := HorizonMatchers(s, today);
    if |horizon| == 1 {
      assert Disables(horizon[0], day) <==> day > today + s.advanceBookingDays;
    }
  }

  /** The closed-weekday matcher refuses exactly the closed weekdays. */
  lemma ClosedMatch(s: Settings, day: int)
    ensures DisabledBy(ClosedMatchers(s), day) <==> WeekdayOfDate(day) in s.closedWeekdays
  {
    var closed := ClosedMatchers(s);
    ClosedWeekdaysMatch(s.closedWeekdays, WeekdayOfDate(day));
    if |closed| == 1 {
      assert Disables(closed[0], day) <==> DayIndex(WeekdayOfDate(day)) in ParsedWeekdays(s.closedWeekdays);
    }
  }

  // ---------------------------------------------------------------------
  // Opening hours and day matching

  /** `hourEntry.dayRange?.toLowerCase() || ''`. */
  function RangeText(e: HoursEntry): string {
    if e.dayRange.Some? then Text.ToLower(e.dayRange.value) else ""
  }

  /** The Norwegian substring tests that decide whether a (lower-cased) day
      range covers the `getDay()` number `day`. */
  predicate MatchesDay(range: string, day: int) {
    || (Text.Contains(range, "mandag-fredag") && 1 <= day <= 5)
    || (Text.Contains(range, "mandag") && day == 1)
    || (Text.Contains(range, "tirsdag") && day == 2)
    || (Text.Contains(range, "onsdag") && day == 3)
    || (Text.Contains(range, "torsdag") && day == 4)
    || (Text.Contains(range, "fredag") && day == 5)
    || (Text.Contains(range, "lørdag") && day == 6)
    || (Text.Contains(range, "søndag") && day == 0)
  }

  lemma ContainsItself(s: string)
    ensures Text.Contains(s, s)
  {
    Text.OccurrenceContains(s, s, 0);
  }

  /** "mandag-fredag" covers Monday to Friday and nothing else. */
  lemma WeekdaysRange(day: int)
    requires 0 <= day < 7
    ensures MatchesDay("mandag-fredag", day) <==> 1 <= day <= 5
  {
    ContainsItself("mandag-fredag");
    Text.MissingCharNotContained("mandag-fredag", "lørdag", 'l');
    Text.MissingCharNotContained("mandag-fredag", "søndag", 's');
  }

  /** "lørdag" covers only Saturday. */
  lemma SaturdayOnly(day: int)
    ensures MatchesDay("lørdag", day) <==> day == 6
  {
    ContainsItself("lørdag");
    Text.MissingCharNotContained("lørdag", "mandag", 'm');
    Text.MissingCharNotContained("lørdag", "tirsdag", 't');
    Text.MissingCharNotContained("lørdag", "onsdag", 'n');
    Text.MissingCharNotContained("lørdag", "torsdag", 't');
    Text.MissingCharNotContained("lørdag", "fredag", 'f');
    Text.MissingCharNotContained("lørdag", "søndag", 's');
  }

  /** "søndag" covers only Sunday. */
  lemma SundayOnly(day: int)
    ensures MatchesDay("søndag", day) <==> day == 0
  {
    ContainsItself("søndag");
    Text.MissingCharNotContained("søndag", "mandag", 'm');
    Text.MissingCharNotContained("søndag", "tirsdag", 't');
    Text.MissingCharNotContained("søndag", "onsdag", 'o');
    Text.MissingCharNotContained("søndag", "torsdag", 't');
    Text.MissingCharNotContained("søndag", "fredag", 'f');
    Text.MissingCharNotContained("søndag", "lørdag", 'l');
  }

  /** A range written as "tirsdag-torsdag" covers Tuesday and Thursday but
      not Wednesday: the tests look for day names, not ranges. */
  lemma TuesdayToThursdaySkipsWednesday(day: int)
    requires 0 <= day < 7
    ensures MatchesDay("tirsdag-torsdag", day) <==> day == 2 || day == 4
  {
    var r := "tirsdag-torsdag";
    if day == 2 {
      assert r[0..7] == "tirsdag";
      Text.OccurrenceContains(r, "tirsdag", 0);
    } else if day == 4 {
      assert r[8..15] == "torsdag";
      Text.OccurrenceContains(r, "torsdag", 8);
    } else {
      Text.MissingCharNotContained(r, "mandag-fredag", 'm');
      if day == 1 {
        Text.MissingCharNotContained(r, "mandag", 'm');
      } else if day == 3 {
        Text.MissingCharNotContained(r, "onsdag", 'n');
      } else if day == 5 {
        Text.MissingCharNotContained(r, "fredag", 'f');
      } else if day == 6 {
        Text.MissingCharNotContained(r, "lørdag", 'l');
      } else {
        Text.MissingCharNotContained(r, "søndag", 'ø');
      }
    }
  }

  /** A range that names no Norwegian weekday, such as "mon-fri", covers no day. */
  lemma EnglishRangeMatchesNothing(day: int)
    ensures !MatchesDay("mon-fri", day)
  {
    Text.MissingCharNotContained("mon-fri", "mandag-fredag", 'a');
    Text.MissingCharNotContained("mon-fri", "mandag", 'a');
    Text.MissingCharNotContained("mon-fri", "tirsdag", 'a');
    Text.MissingCharNotContained("mon-fri", "onsdag", 'a');
    Text.MissingCharNotContained("mon-fri", "torsdag", 'a');
    Text.MissingCharNotContained("mon-fri", "fredag", 'a');
    Text.MissingCharNotContained("mon-fri", "lørdag", 'a');
    Text.MissingCharNotContained("mon-fri", "søndag", 'a');
  }

  /** The entry that may generate slots for a day: not closed, covering the
      day, with both an opening and a closing time. */
  predicate Usable(e: HoursEntry, day: int) {
    !e.isClosed && MatchesDay(RangeText(e), day) && Present(e.openingTime) && Present(e.closingTime)
  }

  /** The position of the first usable entry; the loop stops there. */
  function FirstUsable(hours: seq<HoursEntry>, day: int): (r: Option<nat>)
    ensures r.Some? ==> r.value < |hours| && Usable(hours[r.value], day)
    ensures r.Some? ==> forall i :: 0 <= i < r.value ==> !Usable(hours[i], day)
    ensures r.None? ==> forall i :: 0 <= i < |hours| ==> !Usable(hours[i], day)
  {
    if |hours| == 0 then None
    else if Usable(hours[0], day) then Some(0)
    else
      var rest := FirstUsable(hours[1..], day);
      if rest.Some? then Some(rest.value + 1) else None
  }

  // ---------------------------------------------------------------------
  // Clock text

  /** Two ASCII digits, a colon, two ASCII digits. */
  predicate IsClockText(s: string) {
    |s| == 5 && Text.IsDigit(s[0]) && Text.IsDigit(s[1]) && s[2] == ':'
    && Text.IsDigit(s[3]) && Text.IsDigit(s[4])
  }

  /** `s.split(':').map(Number)` on "HH:MM" text. */
  function ParseClock(s: string): (hm: (nat, nat))
    requires IsClockText(s)
    ensures hm.0 < 100 && hm.1 < 100
  {
    (Text.DigitValue(s[0]) * 10 + Text.DigitValue(s[1]),
     Text.DigitValue(s[3]) * 10 + Text.DigitValue(s[4]))
  }

  /** `${String(h).padStart(2, '0')}:${String(m).padStart(2, '0')}`. */
  function ClockLabel(h: nat, m: nat): string {
    Text.Pad2(h) + ":" + Text.Pad2(m)
  }

  lemma Pad2OfTwoDigits(t: string)
    requires |t| == 2 && Text.AllDigits(t)
    ensures Text.Pad2(Text.DigitValue(t[0]) * 10 + Text.DigitValue(t[1])) == t
  {
    var n := Text.DigitValue(t[0]) * 10 + Text.DigitValue(t[1]);
    if n >= 10 {
      assert n / 10 == Text.DigitValue(t[0]) && n % 10 == Text.DigitValue(t[1]);
      assert Text.DigitChar(Text.DigitValue(t[0])) == t[0];
      assert Text.DigitChar(Text.DigitValue(t[1])) == t[1];
    }
  }

  /** The value of two decimal digits. */
  lemma TwoDigitValue(p: string)
    requires |p| == 2 && Text.AllDigits(p)
    ensures Text.ParseDecimal(p) == Text.DigitValue(p[0]) * 10 + Text.DigitValue(p[1])
  {
    assert p[..1] == [p[0]];
    assert [p[0]][..0] == [];
    assert Text.ParseDecimal([p[0]]) == Text.DigitValue(p[0]);
    assert Text.ParseDecimal(p) == Text.ParseDecimal(p[..1]) * 10 + Text.DigitValue(p[1]);
  }

  /** Every label of a time below 100:100 is clock text that parses back to
      that time. */
  lemma LabelParses(h: nat, m: nat)
    requires h < 100 && m < 100
    ensures IsClockText(ClockLabel(h, m)) && ParseClock(ClockLabel(h, m)) == (h, m)
  {
    var l := ClockLabel(h, m);
    var ph := Text.Pad2(h);
    var pm := Text.Pad2(m);
    TwoDigitValue(ph);
    TwoDigitValue(pm);
    assert l[0] == ph[0] && l[1] == ph[1] && l[3] == pm[0] && l[4] == pm[1];
  }

  /** Every clock text is the label of the time it parses to. */
  lemma ParsedLabel(s: string)
    requires IsClockText(s)
    ensures ClockLabel(ParseClock(s).0, ParseClock(s).1) == s
  {
    Pad2OfTwoDigits(s[..2]);
    Pad2OfTwoDigits(s[3..]);
    assert s == s[..2] + ":" + s[3..];
  }

  // ---------------------------------------------------------------------
  // The slot loop, as written, on (hour, minute) pairs

  /** The `while` test: the current time is before closing, compared hour
      first and minute second. */
  predicate LoopGuard(h: int, m: int, ch: int, cm: int) {
    h < ch || (h == ch && m < cm)
  }

  /** One pass of the loop body: add the step to the minutes and, once they
      reach 60, carry whole hours. */
  function Advance(h: int, m: int, step: int): (int, int) {
    var m' := m + step;
    if m' >= 60 then (h + m' / 60, m' % 60) else (h, m')
  }

  /** The times the loop visits, starting from (h, m) and stopping at the
      first time the guard fails; the loop pushes the label of each. */
  function SlotLoop(h: nat, m: nat, ch: nat, cm: nat, step: int): (r: seq<(nat, nat)>)
    requires step > 0 && m < 100 && ch < 100
    ensures forall i :: 0 <= i < |r| ==> LoopGuard(r[i].0, r[i].1, ch, cm) && r[i].0 < 100 && r[i].1 < 100
    ensures r != [] <==> LoopGuard(h, m, ch, cm)
    ensures r != [] ==> r[0] == (h, m)
    decreases ch * 60 + 100 - (h * 60 + m)
  {
    if LoopGuard(h, m, ch, cm) then
      var next := Advance(h, m, step);
      [(h, m)] + SlotLoop(next.0, next.1, ch, cm, step)
    else []
  }

  /** The labels pushed for the visited times. */
  function ClockLabels(ps: seq<(nat, nat)>): (r: seq<string>)
    requires forall i :: 0 <= i < |ps| ==> ps[i].0 < 100 && ps[i].1 < 100
    ensures |r| == |ps|
    ensures forall i :: 0 <= i < |ps| ==> r[i] == ClockLabel(ps[i].0, ps[i].1)
    ensures forall i :: 0 <= i < |ps| ==> IsClockText(r[i]) && ParseClock(r[i]) == ps[i]
  {
    if |ps| == 0 then []
    else
      LabelParses(ps[0].0, ps[0].1);
      [ClockLabel(ps[0].0, ps[0].1)] + ClockLabels(ps[1..])
  }

  // ---------------------------------------------------------------------
  // The reference: slots as minutes since midnight

  /** Every `step` minutes from `open`, strictly before `close`. */
  function SlotMinutes(open: nat, close: int, step: nat): seq<nat>
    requires step > 0
    decreases close - open
  {
    if open < close then [open] + SlotMinutes(open + step, close, step) else []
  }

  /** There are ceil((close - open) / step) slots, and none for an empty or
      inverted window. */
  lemma {:induction false} SlotMinutesLength(open: nat, close: int, step: nat)
    requires step > 0
    ensures |SlotMinutes(open, close, step)| ==
      (if open < close then (close - open + step - 1) / step else 0)
    decreases close - open
  {
    if open < close {
      SlotMinutesLength(open + step, close, step);
      var d := close - open;
      if open + step < close {
        Arith.DivModPlusDivisor(d - 1, step);
      } else {
        Arith.DivUnique(d + step - 1, step, 1);
      }
    }
  }

  /** The `i`-th slot is `i` steps after opening and before closing. */
  lemma {:induction false} SlotMinutesAt(open: nat, close: int, step: nat, i: nat)
    requires step > 0 && i < |SlotMinutes(open, close, step)|
    ensures SlotMinutes(open, close, step)[i] == open + i * step < close
    decreases close - open
  {
    if i > 0 {
      SlotMinutesAt(open + step, close, step, i - 1);
      assert (i - 1) * step + step == i * step;
    }
  }

  /** `t` is reached from `open` by whole steps. */
  predicate OnGrid(open: int, step: nat, t: int)
    requires step > 0
    decreases t - open
  {
    t == open || (t > open && OnGrid(open + step, step, t))
  }

  /** Being on the grid is lying a multiple of the step after `open`. */
  lemma {:induction false} OnGridMeaning(open: int, step: nat, t: int)
    requires step > 0
    ensures OnGrid(open, step, t) <==> open <= t && (t - open) % step == 0
    decreases t - open
  {
    if t > open {
      OnGridMeaning(open + step, step, t);
      if t >= open + step {
        Arith.DivModPlusDivisor(t - open - step, step);
      } else {
        Arith.DivModSmall(t - open, step);
      }
    }
  }

  /** A time is a slot exactly when it lies in [open, close) on the step
      grid from opening. */
  lemma {:induction false} SlotMinutesMembership(open: nat, close: int, step: nat, t: int)
    requires step > 0
    ensures t in SlotMinutes(open, close, step) <==> open <= t < close && OnGrid(open, step, t)
    decreases close - open
  {
    if open < close {
      SlotMinutesMembership(open + step, close, step, t);
      assert SlotMinutes(open, close, step) == [open] + SlotMinutes(open + step, close, step);
    }
  }

  /** The slots are strictly increasing. */
  lemma SlotMinutesIncreasing(open: nat, close: int, step: nat)
    requires step > 0
    ensures forall i, j :: 0 <= i < j < |SlotMinutes(open, close, step)| ==>
      SlotMinutes(open, close, step)[i] < SlotMinutes(open, close, step)[j]
  {
    var r := SlotMinutes(open, close, step);
    forall i, j | 0 <= i < j < |r|
      ensures r[i] < r[j]
    {
      SlotMinutesAt(open, close, step, i);
      SlotMinutesAt(open, close, step, j);
      Arith.MulMonotone(step, i + 1, j);
    }
  }

  /** The closing time as minutes, read the way the loop guard reads it: a
      closing minute of 60 or more lets the loop run to the end of the hour. */
  function CloseMinute(ch: nat, cm: nat): nat {
    if cm < 60 then ch * 60 + cm else (ch + 1) * 60
  }

  /** Minutes since midnight as (hour, minute). */
  function MinuteClock(ts: seq<nat>): (r: seq<(nat, nat)>)
    ensures |r| == |ts|
    ensures forall i :: 0 <= i < |ts| ==> r[i] == (ts[i] / 60, ts[i] % 60)
  {
    if |ts| == 0 then [] else [(ts[0] / 60, ts[0] % 60)] + MinuteClock(ts[1..])
  }

  /** With minutes below 60 the loop's hour-then-minute test is the
      comparison of minutes since midnight against `CloseMinute`. */
  lemma LoopGuardIsMinuteComparison(h: nat, m: nat, ch: nat, cm: nat)
    requires m < 60
    ensures LoopGuard(h, m, ch, cm) <==> h * 60 + m < CloseMinute(ch, cm)
  {
  }

  /** The carry keeps the time as minutes since midnight and brings the
      minute field back below 60. */
  lemma AdvanceCarries(h: nat, m: nat, step: int)
    requires step > 0 && m < 60
    ensures Advance(h, m, step).0 * 60 + Advance(h, m, step).1 == h * 60 + m + step
    ensures 0 <= Advance(h, m, step).1 < 60 && Advance(h, m, step).0 >= h
  {
    var m' := m + step;
    if m' >= 60 {
      assert m' / 60 * 60 + m' % 60 == m';
    }
  }

  lemma SameStartSameSlots(a: nat, b: nat, close: int, step: nat)
    requires step > 0 && a == b
    ensures SlotMinutes(a, close, step) == SlotMinutes(b, close, step)
  {
  }

  /** The loop as written visits exactly the reference slots, given an
      opening minute below 60. */
  lemma {:induction false} SlotLoopFollowsMinutes(h: nat, m: nat, ch: nat, cm: nat, step: nat)
    requires step > 0 && m < 60 && ch < 100
    ensures SlotLoop(h, m, ch, cm, step) == MinuteClock(SlotMinutes(h * 60 + m, CloseMinute(ch, cm), step))
    decreases ch * 60 + 100 - (h * 60 + m)
  {
    var t := h * 60 + m;
    var c := CloseMinute(ch, cm);
    LoopGuardIsMinuteComparison(h, m, ch, cm);
    if LoopGuard(h, m, ch, cm) {
      var next := Advance(h, m, step);
      AdvanceCarries(h, m, step);
      SlotLoopFollowsMinutes(next.0, next.1, ch, cm, step);
      SameStartSameSlots(next.0 * 60 + next.1, t + step, c, step);
      MinuteOfClock(h, m);
      MinuteClockCons(t, SlotMinutes(t + step, c, step));
    }
  }

  /** (h, m) with m below 60 is minute h * 60 + m. */
  lemma MinuteOfClock(h: nat, m: nat)
    requires m < 60
    ensures (h * 60 + m) / 60 == h && (h * 60 + m) % 60 == m
  {
    Arith.DivUnique(h * 60 + m, 60, h);
  }

  lemma MinuteClockCons(t: nat, rest: seq<nat>)
    ensures MinuteClock([t] + rest) == [(t / 60, t % 60)] + MinuteClock(rest)
  {
    assert ([t] + rest)[1..] == rest;
  }

  // ---------------------------------------------------------------------
  // The generator

  /** `bookingSettings?.timeSlotDuration || 30`: unset or 0 means 30. */
  function SlotStep(settings: Option<Settings>): int {
    if settings.None? || settings.value.timeSlotDuration == 0 then DefaultTimeSlotDuration
    else settings.value.timeSlotDuration
  }

  /** The `getDay()` number of the chosen date. */
  function DayOf(date: int): nat {
    DayIndex(WeekdayOfDate(date))
  }

  /** An entry whose opening and closing times are clock text. */
  predicate HasClockTimes(e: HoursEntry) {
    Present(e.openingTime) && Present(e.closingTime)
    && IsClockText(e.openingTime.value) && IsClockText(e.closingTime.value)
  }

  /** The opening time of an entry as minutes since midnight. */
  function OpenMinute(e: HoursEntry): nat
    requires HasClockTimes(e)
  {
    ParseClock(e.openingTime.value).0 * 60 + ParseClock(e.openingTime.value).1
  }

  function EntryClose(e: HoursEntry): nat
    requires HasClockTimes(e)
  {
    CloseMinute(ParseClock(e.closingTime.value).0, ParseClock(e.closingTime.value).1)
  }

  /** The times the loop visits for one entry, from its opening time to its
      closing time. */
  function EntryTimes(e: HoursEntry, step: int): (r: seq<(nat, nat)>)
    requires HasClockTimes(e) && step > 0
    ensures forall i :: 0 <= i < |r| ==> r[i].0 < 100 && r[i].1 < 100
  {
    var open := ParseClock(e.openingTime.value);
    var close := ParseClock(e.closingTime.value);
    SlotLoop(open.0, open.1, close.0, close.1, step)
  }

  /** When the opening minute is below 60, the loop visits every `step`
      minutes from opening, strictly before closing. */
  lemma EntryTimesAreSlotMinutes(e: HoursEntry, step: nat)
    requires HasClockTimes(e) && step > 0 && ParseClock(e.openingTime.value).1 < 60
    ensures EntryTimes(e, step) == MinuteClock(SlotMinutes(OpenMinute(e), EntryClose(e), step))
  {
    var open := ParseClock(e.openingTime.value);
    var close := ParseClock(e.closingTime.value);
    SlotLoopFollowsMinutes(open.0, open.1, close.0, close.1, step);
  }

  lemma EntryTimeMembership(e: HoursEntry, step: nat, hm: (nat, nat))
    requires HasClockTimes(e) && step > 0 && ParseClock(e.openingTime.value).1 < 60
    ensures hm in EntryTimes(e, step) <==> hm in MinuteClock(SlotMinutes(OpenMinute(e), EntryClose(e), step))
  {
    EntryTimesAreSlotMinutes(e, step);
  }

  /** The labels one entry generates: one clock text per visited time,
      naming that time. */
  function EntrySlots(e: HoursEntry, step: int): (r: seq<string>)
    requires HasClockTimes(e) && step > 0
    ensures |r| == |EntryTimes(e, step)|
    ensures forall i :: 0 <= i < |r| ==> IsClockText(r[i]) && ParseClock(r[i]) == EntryTimes(e, step)[i]
  {
    ClockLabels(EntryTimes(e, step))
  }

  /** Which clock texts an entry offers: with an opening minute below 60, a
      clock text is offered exactly when its minute is below 60 and the time
      it names lies in [opening, closing) a whole number of steps from
      opening. */
  lemma EntrySlotMembership(e: HoursEntry, step: nat, x: string)
    requires HasClockTimes(e) && step > 0 && ParseClock(e.openingTime.value).1 < 60
    requires IsClockText(x)
    ensures x in EntrySlots(e, step) <==> IsStepTime(e, step, ParseClock(x))
  {
    EntryTimesAreSlotMinutes(e, step);
    LabelsOfSlotMinutes(EntrySlots(e, step), OpenMinute(e), EntryClose(e), step, x);
  }

  /** Among the labels of the slots from `open` to `close`, a clock text
      occurs exactly when its minute is below 60 and it names a time in
      [open, close) on the step grid. */
  lemma LabelsOfSlotMinutes(r: seq<string>, open: nat, close: int, step: nat, x: string)
    requires step > 0
    requires |r| == |MinuteClock(SlotMinutes(open, close, step))|
    requires forall i :: 0 <= i < |r| ==>
      IsClockText(r[i]) && ParseClock(r[i]) == MinuteClock(SlotMinutes(open, close, step))[i]
    requires IsClockText(x)
    ensures x in r <==>
      var t := ParseClock(x).0 * 60 + ParseClock(x).1;
      ParseClock(x).1 < 60 && open <= t < close && OnGrid(open, step, t)
  {
    LabelsOfTimes(r, MinuteClock(SlotMinutes(open, close, step)), x);
    TimesOfSlotMinutes(open, close, step, ParseClock(x));
  }

  /** An (hour, minute) pair is among the slots from `open` to `close`
      exactly when its minute is below 60 and it names a time in
      [open, close) on the step grid. */
  lemma TimesOfSlotMinutes(open: nat, close: int, step: nat, hm: (nat, nat))
    requires step > 0
    ensures hm in MinuteClock(SlotMinutes(open, close, step)) <==>
      hm.1 < 60 && open <= hm.0 * 60 + hm.1 < close && OnGrid(open, step, hm.0 * 60 + hm.1)
  {
    TimesOfMinutes(SlotMinutes(open, close, step), hm);
    SlotMinutesMembership(open, close, step, hm.0 * 60 + hm.1);
  }

  /** The time (h, m) has a minute below 60 and lies in the entry's window
      on the step grid from opening. */
  predicate IsStepTime(e: HoursEntry, step: nat, hm: (nat, nat))
    requires HasClockTimes(e) && step > 0
  {
    hm.1 < 60 && OpenMinute(e) <= hm.0 * 60 + hm.1 < EntryClose(e)
    && OnGrid(OpenMinute(e), step, hm.0 * 60 + hm.1)
  }

  /** In arithmetic terms: a step time is a whole number of steps after
      opening and before closing. */
  lemma StepTimeArithmetic(e: HoursEntry, step: nat, hm: (nat, nat))
    requires HasClockTimes(e) && step > 0
    ensures IsStepTime(e, step, hm) <==>
      hm.1 < 60 && OpenMinute(e) <= hm.0 * 60 + hm.1 < EntryClose(e)
      && (hm.0 * 60 + hm.1 - OpenMinute(e)) % step == 0
  {
    OnGridMeaning(OpenMinute(e), step, hm.0 * 60 + hm.1);
  }

  /** A clock text is among the labels of some times exactly when it names
      one of them. */
  lemma LabelsOfTimes(r: seq<string>, ps: seq<(nat, nat)>, x: string)
    requires |r| == |ps|
    requires forall i :: 0 <= i < |r| ==> IsClockText(r[i]) && ParseClock(r[i]) == ps[i]
    requires IsClockText(x)
    ensures x in r <==> ParseClock(x) in ps
  {
    if x in r {
      TimeOfListedLabel(r, ps, x);
    }
    if ParseClock(x) in ps {
      LabelOfListedTime(r, ps, x);
    }
  }

  /** An (hour, minute) pair is among the (hour, minute) forms of some
      minute counts exactly when its minute is below 60 and it names one of
      them. */
  lemma TimesOfMinutes(ts: seq<nat>, hm: (nat, nat))
    ensures hm in MinuteClock(ts) <==> hm.1 < 60 && hm.0 * 60 + hm.1 in ts
  {
    if hm in MinuteClock(ts) {
      MinuteClockListed(ts, hm);
    }
    if hm.1 < 60 && hm.0 * 60 + hm.1 in ts {
      ListedMinuteClock(ts, hm.0, hm.1);
    }
  }

  /** A label among the labels of some times names one of those times. */
  lemma TimeOfListedLabel(r: seq<string>, ps: seq<(nat, nat)>, x: string)
    requires |r| == |ps|
    requires forall i :: 0 <= i < |r| ==> IsClockText(r[i]) && ParseClock(r[i]) == ps[i]
    requires x in r
    ensures IsClockText(x) && ParseClock(x) in ps
  {
    var i :| 0 <= i < |r| && r[i] == x;
    assert ps[i] == ParseClock(x);
  }

  /** A listed (hour, minute) has a minute below 60 and names a listed
      minute count. */
  lemma MinuteClockListed(ts: seq<nat>, hm: (nat, nat))
    requires hm in MinuteClock(ts)
    ensures hm.1 < 60 && hm.0 * 60 + hm.1 in ts
  {
    var ps := MinuteClock(ts);
    var i :| 0 <= i < |ps| && ps[i] == hm;
    MinuteClockAt(ts, i);
  }

  /** A time whose minute count is listed appears among the listed times
      as (hour, minute). */
  lemma ListedMinuteClock(ts: seq<nat>, h: nat, m: nat)
    requires m < 60 && h * 60 + m in ts
    ensures (h, m) in MinuteClock(ts)
  {
    var i := IndexOf(ts, h * 60 + m);
    MinuteOfClock(h, m);
    assert MinuteClock(ts)[i] == (h, m);
  }

  /** A clock text naming one of the listed times is among their labels. */
  lemma LabelOfListedTime(r: seq<string>, ps: seq<(nat, nat)>, x: string)
    requires |r| == |ps|
    requires forall i :: 0 <= i < |r| ==> IsClockText(r[i]) && ParseClock(r[i]) == ps[i]
    requires IsClockText(x) && ParseClock(x) in ps
    ensures x in r
  {
    var i :| 0 <= i < |ps| && ps[i] == ParseClock(x);
    ClockTextIsItsValue(r[i], x);
  }

  /** Each (hour, minute) pair of `MinuteClock` names its minute count. */
  lemma MinuteClockAt(ts: seq<nat>, i: nat)
    requires i < |ts|
    ensures MinuteClock(ts)[i].1 < 60
    ensures MinuteClock(ts)[i].0 * 60 + MinuteClock(ts)[i].1 == ts[i]
  {
  }

  /** Two clock texts naming the same time are the same text. */
  lemma ClockTextIsItsValue(a: string, b: string)
    requires IsClockText(a) && IsClockText(b) && ParseClock(a) == ParseClock(b)
    ensures a == b
  {
    ParsedLabel(a);
    ParsedLabel(b);
  }

  lemma IndexOf(s: seq<nat>, x: nat) returns (i: nat)
    requires x in s
    ensures i < |s| && s[i] == x
  {
    i :| 0 <= i < |s| && s[i] == x;
  }

  /** What the generator needs to run: when it reaches an entry, that entry's
      times are clock text and the step is positive. */
  predicate SlotsComputable(date: Option<int>, hours: Option<seq<HoursEntry>>, settings: Option<Settings>) {
    date.None? || hours.None? ||
    var k := FirstUsable(hours.value, DayOf(date.value));
    k.None? || (HasClockTimes(hours.value[k.value]) && SlotStep(settings) > 0)
  }

  /** The time slots offered for the chosen date: none without a date or
      without opening hours; otherwise the slots of the first usable entry
      for that weekday, or none if there is no such entry. */
  function AvailableTimeSlots(date: Option<int>, hours: Option<seq<HoursEntry>>, settings: Option<Settings>): (r: seq<string>)
    requires SlotsComputable(date, hours, settings)
    ensures date.None? || hours.None? ==> r == []
    ensures date.Some? && hours.Some? && FirstUsable(hours.value, DayOf(date.value)).None? ==> r == []
    ensures forall i :: 0 <= i < |r| ==> IsClockText(r[i])
    ensures date.Some? && hours.Some? && FirstUsable(hours.value, DayOf(date.value)).Some? ==>
      r == EntrySlots(hours.value[FirstUsable(hours.value, DayOf(date.value)).value], SlotStep(settings))
  {
    if date.None? || hours.None? then []
    else
      var k := FirstUsable(hours.value, DayOf(date.value));
      if k.None? then [] else EntrySlots(hours.value[k.value], SlotStep(settings))
  }

  /** The block that renders the form passes no opening hours, so the form
      never offers a time slot. */
  lemma FormWithoutHoursOffersNoSlots(date: Option<int>, settings: Option<Settings>)
    ensures AvailableTimeSlots(date, None, settings) == []
  {
  }

  /** A weekday entry from 08:00 to 10:00 with the default 30-minute step
      offers 08:00, 08:30, 09:00 and 09:30 on a Monday (day 4 is Monday
      1970-01-05); 10:00 is not offered. */
  lemma MondayMorningSlots(e: HoursEntry)
    requires e == HoursEntry(Some("Mandag-Fredag"), Some("08:00"), Some("10:00"), false)
    ensures SlotsComputable(Some(4), Some([e]), None)
    ensures AvailableTimeSlots(Some(4), Some([e]), None) == ["08:00", "08:30", "09:00", "09:30"]
  {
    MorningEntryChosenOnMonday(e);
    MorningEntrySlots(e);
    assert SlotStep(None) == 30;
  }

  lemma MorningEntryChosenOnMonday(e: HoursEntry)
    requires e == HoursEntry(Some("Mandag-Fredag"), Some("08:00"), Some("10:00"), false)
    ensures DayOf(4) == 1 && FirstUsable([e], 1) == Some(0) && HasClockTimes(e)
  {
    assert Text.ToLower("Mandag-Fredag") == "mandag-fredag";
    WeekdaysRange(1);
    assert Usable(e, 1);
  }

  lemma MorningEntrySlots(e: HoursEntry)
    requires e == HoursEntry(Some("Mandag-Fredag"), Some("08:00"), Some("10:00"), false)
    ensures HasClockTimes(e) && EntrySlots(e, 30) == ["08:00", "08:30", "09:00", "09:30"]
  {
    assert ParseClock("08:00") == (8, 0);
    assert ParseClock("10:00") == (10, 0);
    assert SlotLoop(10, 0, 10, 0, 30) == [];
    assert SlotLoop(9, 30, 10, 0, 30) == [(9, 30)];
    assert SlotLoop(9, 0, 10, 0, 30) == [(9, 0), (9, 30)];
    assert SlotLoop(8, 30, 10, 0, 30) == [(8, 30), (9, 0), (9, 30)];
    assert SlotLoop(8, 0, 10, 0, 30) == [(8, 0), (8, 30), (9, 0), (9, 30)];
    MorningLabels();
  }

  lemma MorningLabels()
    ensures ClockLabels([(8, 0), (8, 30), (9, 0), (9, 30)]) == ["08:00", "08:30", "09:00", "09:30"]
  {
    MorningLabelTexts();
    var r := ClockLabels([(8, 0), (8, 30), (9, 0), (9, 30)]);
    assert r == [ClockLabel(8, 0), ClockLabel(8, 30), ClockLabel(9, 0), ClockLabel(9, 30)];
  }

  lemma MorningLabelTexts()
    ensures ClockLabel(8, 0) == "08:00" && ClockLabel(8, 30) == "08:30"
    ensures ClockLabel(9, 0) == "09:00" && ClockLabel(9, 30) == "09:30"
  {
    assert Text.Pad2(8) == "08" && Text.Pad2(9) == "09";
    assert Text.Pad2(0) == "00";
    assert Text.DecimalString(3) == "3";
    assert Text.Pad2(30) == "30";
  }

  /** Stored settings always yield a positive step, so the generator runs to
      completion on them. */
  lemma ResolvedSettingsGiveTerminatingStep(input: SettingsInput, stored: Option<Settings>)
    requires Resolve(input, stored).Success?
    ensures SlotStep(Some(Resolve(input, stored).value)) ==
      input.timeSlotDuration.GetOr(Fallback(stored).timeSlotDuration) >= 1
  {
  }

  // ---------------------------------------------------------------------
  // The loop with the step the declared bounds allow

  /** The loop state after `k` passes of the body, whatever the guard says. */
  function Iterate(h: int, m: int, step: int, k: nat): (int, int)
    decreases k
  {
    if k == 0 then (h, m) else var next := Advance(h, m, step); Iterate(next.0, next.1, step, k - 1)
  }

  lemma {:induction false} NegativeStepStaysInHour(h: int, m: int, step: int, k: nat)
    requires step < 0 && m < 60
    ensures Iterate(h, m, step, k) == (h, m + k * step)
    decreases k
  {
    if k > 0 {
      NegativeStepStaysInHour(h, m + step, step, k - 1);
      assert m + step + (k - 1) * step == m + k * step;
    }
  }

  /** Settings within every declared bound may still carry
      `timeSlotDuration` = -30; the form then steps by -30 and, for an
      08:00-10:00 entry, the loop guard still holds after any number of
      passes: the loop never ends. */
  lemma DeclaredBoundsAdmitEndlessSlotLoop(k: nat)
    ensures
      var s := Settings(8, -30, 40, 30, [], []);
      && WithinDeclaredBounds(s)
      && SlotStep(Some(s)) == -30
      && var hm := Iterate(8, 0, SlotStep(Some(s)), k); LoopGuard(hm.0, hm.1, 10, 0)
  {
    NegativeStepStaysInHour(8, 0, -30, k);
  }

  // ---------------------------------------------------------------------
  // Party size and control guards

  /** `bookingSettings?.maxPartySize || 8`. */
  function MaxPartySize(settings: Option<Settings>): int {
    if settings.None? || settings.value.maxPartySize == 0 then DefaultMaxPartySize
    else settings.value.maxPartySize
  }

  const MinPartySize := 1

  /** `Array.from({length: max - min + 1}, (_, i) => i + min)`: a negative
      length gives an empty array. */
  function PartySizeOptions(settings: Option<Settings>): (r: seq<int>)
    ensures |r| == if MaxPartySize(settings) > 0 then MaxPartySize(settings) else 0
    ensures forall i :: 0 <= i < |r| ==> r[i] == i + MinPartySize
  {
    var length := MaxPartySize(settings) - MinPartySize + 1;
    if length <= 0 then [] else seq(length, i => i + MinPartySize)
  }

  /** The offered party sizes are exactly 1 to the maximum, ascending; with
      stored settings at least one size is offered, and the initial choice 2
      is among them exactly when the maximum is at least 2. */
  lemma PartySizeOptionsRange(settings: Option<Settings>, n: int)
    ensures n in PartySizeOptions(settings) <==> 1 <= n <= MaxPartySize(settings)
    ensures forall i, j :: 0 <= i < j < |PartySizeOptions(settings)| ==>
      PartySizeOptions(settings)[i] < PartySizeOptions(settings)[j]
    ensures settings.Some? && Valid(settings.value) ==>
      |PartySizeOptions(settings)| == settings.value.maxPartySize >= 1
    ensures settings.Some? && Valid(settings.value) ==>
      (InitialPartySize in PartySizeOptions(settings) <==> settings.value.maxPartySize >= 2)
  {
    var r := PartySizeOptions(settings);
    if 1 <= n <= MaxPartySize(settings) {
      assert r[n - 1] == n;
    }
    if settings.Some? && Valid(settings.value) && settings.value.maxPartySize >= 2 {
      assert r[1] == InitialPartySize;
    }
  }

  const InitialPartySize := 2

  /** The text of a party-size option. */
  function PartySizeLabel(n: nat): (r: string)
    ensures n == 1 <==> r == "1 person"
  {
    Text.DecimalString(n) + " " + (if n == 1 then "person" else "personer")
  }

  /** The time select is disabled until a date is chosen. */
  predicate TimeSelectDisabled(date: Option<int>) {
    date.None?
  }

  /** Submit is disabled without a date or without a chosen time. */
  predicate SubmitDisabled(date: Option<int>, timeSlot: string) {
    date.None? || timeSlot == ""
  }

  /** The values the time select can hold: the empty placeholder, then the slots. */
  function TimeChoices(slots: seq<string>): seq<string> {
    [""] + slots
  }

  // ---------------------------------------------------------------------
  // The form's date and time state across user events

  /** What the form is rendered with: the opening hours it is given, the
      stored settings and the day the page is shown. */
  datatype Page = Page(hours: Option<seq<HoursEntry>>, settings: Option<Settings>, today: int)

  /** The chosen date and the value of the time select. */
  datatype FormState = FormState(date: Option<int>, timeSlot: string)

  /** No date is chosen and the time select shows its placeholder. */
  const InitialForm := FormState(None, "")

  /** Picking a day in the calendar (or clearing the selection), and
      choosing an entry of the time select. */
  datatype FormEvent = PickDate(day: Option<int>) | PickTime(slot: string)

  /** The slots the time select lists for a date on this page. Only `HH:MM`
      times are parsed. For the date-time strings the opening-hours global
      stores, the source lists nothing too (`NaN` fails the loop guard); other
      text such as "8:00" or "08:00:00", which the source would parse, is not
      modelled and lists nothing here. When the step is not positive the
      source loop never ends, and `[]` here stands in for that
      non-terminating render (see `Iterate`). */
  function Offered(p: Page, date: Option<int>): (r: seq<string>)
    ensures SlotsComputable(date, p.hours, p.settings) ==> r == AvailableTimeSlots(date, p.hours, p.settings)
    ensures forall i :: 0 <= i < |r| ==> IsClockText(r[i])
  {
    if SlotsComputable(date, p.hours, p.settings) then AvailableTimeSlots(date, p.hours, p.settings) else []
  }

  /** The calendar lets a day be picked unless a matcher disables it;
      clearing the selection is always possible. */
  predicate Selectable(p: Page, day: Option<int>) {
    day.None? || !DisabledBy(DisabledDays(p.settings, p.today), day.value)
  }

  /** The time select takes an event only while a date is chosen, and only
      a value it lists: the placeholder or one of the offered slots. */
  predicate Choosable(p: Page, date: Option<int>, t: string) {
    date.Some? && SlotsComputable(date, p.hours, p.settings)
    && t in TimeChoices(AvailableTimeSlots(date, p.hours, p.settings))
  }

  /** One event as the form handles it: the calendar's `onSelect` sets only
      the date and keeps whatever time was chosen before. */
  function StepAsWritten(p: Page, s: FormState, e: FormEvent): FormState {
    match e
    case PickDate(d) => if Selectable(p, d) then FormState(d, s.timeSlot) else s
    case PickTime(t) => if Choosable(p, s.date, t) then FormState(s.date, t) else s
  }

  /** One event with the time cleared when the date changes. */
  function Step(p: Page, s: FormState, e: FormEvent): FormState {
    match e
    case PickDate(d) =>
      if !Selectable(p, d) then s
      else if d == s.date then s
      else FormState(d, "")
    case PickTime(t) => if Choosable(p, s.date, t) then FormState(s.date, t) else s
  }

  function RunAsWritten(p: Page, s: FormState, es: seq<FormEvent>): FormState
    decreases |es|
  {
    if |es| == 0 then s else RunAsWritten(p, StepAsWritten(p, s, es[0]), es[1..])
  }

  function Run(p: Page, s: FormState, es: seq<FormEvent>): FormState
    decreases |es|
  {
    if |es| == 0 then s else Run(p, Step(p, s, es[0]), es[1..])
  }

  /** The time select holds the placeholder or a slot it offers for the
      chosen date. */
  predicate Consistent(p: Page, s: FormState) {
    s.timeSlot == "" || (s.date.Some? && s.timeSlot in Offered(p, s.date))
  }

  /** As the form handles events, the time select always holds the
      placeholder or clock text offered for some date, though not
      necessarily the chosen one. */
  lemma {:induction false} AsWrittenKeepsClockText(p: Page, s: FormState, es: seq<FormEvent>)
    requires s.timeSlot == "" || IsClockText(s.timeSlot)
    ensures RunAsWritten(p, s, es).timeSlot == "" || IsClockText(RunAsWritten(p, s, es).timeSlot)
    decreases |es|
  {
    if |es| > 0 {
      if es[0].PickTime? && Choosable(p, s.date, es[0].slot) {
        ChosenTimeIsClockText(p, s.date, es[0]);
      }
      AsWrittenKeepsClockText(p, StepAsWritten(p, s, es[0]), es[1..]);
    }
  }

  /** A time the select accepts is the placeholder or clock text. */
  lemma ChosenTimeIsClockText(p: Page, date: Option<int>, e: FormEvent)
    requires e.PickTime? && Choosable(p, date, e.slot)
    ensures e.slot == "" || IsClockText(e.slot)
  {
    var slots := AvailableTimeSlots(date, p.hours, p.settings);
    if e.slot != "" {
      var i :| 0 <= i < |slots| && slots[i] == e.slot;
    }
  }

  /** Given Monday-to-Friday hours from 08:00 to 10:00 on a page shown on
      Monday 1970-01-05 (day 4): choosing that Monday, then 08:00, then
      Sunday 1970-01-11 (day 10) leaves submit enabled with the time 08:00,
      although no slot is offered on the Sunday. */
  lemma StaleSlotEnablesSubmit(e: HoursEntry)
    requires e == HoursEntry(Some("Mandag-Fredag"), Some("08:00"), Some("10:00"), false)
    ensures var p := Page(Some([e]), None, 4);
      var s := RunAsWritten(p, InitialForm, [PickDate(Some(4)), PickTime("08:00"), PickDate(Some(10))]);
      s == FormState(Some(10), "08:00") && !SubmitDisabled(s.date, s.timeSlot)
      && Offered(p, s.date) == [] && !Consistent(p, s)
  {
    var p := Page(Some([e]), None, 4);
    var es := [PickDate(Some(4)), PickTime("08:00"), PickDate(Some(10))];
    StaleSlotEvents(e, p);
    assert RunAsWritten(p, InitialForm, es) == RunAsWritten(p, FormState(Some(4), ""), es[1..]);
    assert RunAsWritten(p, FormState(Some(4), ""), es[1..]) == RunAsWritten(p, FormState(Some(4), "08:00"), es[1..][1..]);
    assert RunAsWritten(p, FormState(Some(4), "08:00"), es[1..][1..]) == RunAsWritten(p, FormState(Some(10), "08:00"), []);
    SundayHasNoEntry(e);
  }

  /** The three events of the example, one at a time. */
  lemma StaleSlotEvents(e: HoursEntry, p: Page)
    requires e == HoursEntry(Some("Mandag-Fredag"), Some("08:00"), Some("10:00"), false)
    requires p == Page(Some([e]), None, 4)
    ensures StepAsWritten(p, InitialForm, PickDate(Some(4))) == FormState(Some(4), "")
    ensures StepAsWritten(p, FormState(Some(4), ""), PickTime("08:00")) == FormState(Some(4), "08:00")
    ensures StepAsWritten(p, FormState(Some(4), "08:00"), PickDate(Some(10))) == FormState(Some(10), "08:00")
  {
    assert DisabledDays(None, 4) == [Before(4)];
    assert Selectable(p, Some(4)) && Selectable(p, Some(10));
    MondayMorningSlots(e);
    assert "08:00" in TimeChoices(AvailableTimeSlots(Some(4), p.hours, p.settings));
  }

  /** No Monday-to-Friday entry applies on Sunday 1970-01-11. */
  lemma SundayHasNoEntry(e: HoursEntry)
    requires e == HoursEntry(Some("Mandag-Fredag"), Some("08:00"), Some("10:00"), false)
    ensures DayOf(10) == 0 && FirstUsable([e], 0).None?
    ensures SlotsComputable(Some(10), Some([e]), None) && AvailableTimeSlots(Some(10), Some([e]), None) == []
  {
    assert Text.ToLower("Mandag-Fredag") == "mandag-fredag";
    WeekdaysRange(0);
    assert !Usable(e, 0);
  }

  /** Each corrected event keeps the time select consistent with the date. */
  lemma StepKeepsConsistent(p: Page, s: FormState, e: FormEvent)
    requires Consistent(p, s)
    ensures Consistent(p, Step(p, s, e))
  {
  }

  /** Every state the corrected form reaches keeps the time consistent. */
  lemma {:induction false} RunKeepsConsistent(p: Page, s: FormState, es: seq<FormEvent>)
    requires Consistent(p, s)
    ensures Consistent(p, Run(p, s, es))
    decreases |es|
  {
    if |es| > 0 {
      StepKeepsConsistent(p, s, es[0]);
      RunKeepsConsistent(p, Step(p, s, es[0]), es[1..]);
    }
  }

  /** For every state the corrected form reaches, submit is enabled exactly
      when a date is chosen and the time select holds a slot offered for
      that date; without opening hours it is never enabled, which is the
      case for the form as the block renders it. */
  lemma SubmitNeedsDateAndSlot(p: Page, es: seq<FormEvent>)
    ensures var s := Run(p, InitialForm, es);
      (!SubmitDisabled(s.date, s.timeSlot) <==> s.date.Some? && s.timeSlot in Offered(p, s.date))
      && (!SubmitDisabled(s.date, s.timeSlot) ==> !TimeSelectDisabled(s.date))
      && (p.hours.None? ==> SubmitDisabled(s.date, s.timeSlot))
  {
    RunKeepsConsistent(p, InitialForm, es);
  }
}
