/**
 * The landing page (`src/routes/index.tsx`): the scroll picker's value
 * arithmetic (clamping, the chevrons, the wheel and touch steps) and the
 * birthday string the page assembles, submits and restores. A picker value of 0
 * means that nothing has been picked yet.
 */
module Landing {
  import opened Wrappers
  import opened Strings
  import opened Dates
  import opened Timeline
  import opened Select

  /** A picker's range of values; the day picker is 1..31, the year picker 1920..this year. */
  datatype Picker = Picker(min: int, max: int)

  const DayPicker := Picker(1, 31)
  const FirstYear := 1920
  const WheelThreshold := 50
  const ItemHeight := 48

  function YearPicker(currentYear: int): Picker {
    Picker(FirstYear, currentYear)
  }

  /** A range the page can show: non-empty, and without 0, the "nothing picked" value. */
  predicate Proper(p: Picker) {
    0 < p.min <= p.max
  }

  /** `Math.max(min, Math.min(max, v))`. */
  function Clamp(p: Picker, v: int): (r: int)
    ensures p.min <= p.max ==> p.min <= r <= p.max
    ensures p.min <= v <= p.max ==> r == v
    ensures p.min <= p.max && v < p.min ==> r == p.min
    ensures v > p.max ==> r == if p.min <= p.max then p.max else p.min
  {
    var m := if p.max < v then p.max else v;
    if p.min > m then p.min else m
  }

  // ---------------------------------------------------------------------------
  // Chevrons
  // ---------------------------------------------------------------------------

  /** The up chevron: from nothing to the maximum, else one down. */
  function Up(p: Picker, v: int): int {
    Clamp(p, if v == 0 then p.max else v - 1)
  }

  /** The down chevron: from nothing to the minimum, else one up. */
  function Down(p: Picker, v: int): int {
    Clamp(p, if v == 0 then p.min else v + 1)
  }

  /**
   * From nothing the chevrons jump to an end of the range; from a value in the
   * range they move one step and stop at the ends; each undoes the other away
   * from the ends.
   */
  lemma ChevronsCorrect(p: Picker, v: int)
    requires Proper(p)
    ensures Up(p, 0) == p.max && Down(p, 0) == p.min
    ensures p.min <= v <= p.max ==> Up(p, v) == (if v > p.min then v - 1 else p.min)
    ensures p.min <= v <= p.max ==> Down(p, v) == (if v < p.max then v + 1 else p.max)
    ensures p.min < v <= p.max ==> Down(p, Up(p, v)) == v
    ensures p.min <= v < p.max ==> Up(p, Down(p, v)) == v
    ensures p.min <= Up(p, v) <= p.max && p.min <= Down(p, v) <= p.max
  {
  }

  // ---------------------------------------------------------------------------
  // The wheel
  // ---------------------------------------------------------------------------

  function Abs(a: int): nat {
    if a < 0 then -a else a
  }

  /** `Math.trunc(a / threshold)`: whole thresholds in `a`, rounded toward zero. */
  function WheelSteps(a: int): (q: int)
    ensures Abs(a - q * WheelThreshold) < WheelThreshold
    ensures a >= 0 ==> 0 <= q * WheelThreshold <= a
    ensures a < 0 ==> a <= q * WheelThreshold <= 0
  {
    if a >= 0 then a / WheelThreshold else -((-a) / WheelThreshold)
  }

  /** The accumulated scroll after an event, and the value picked, if any. */
  datatype WheelStep = WheelStep(accum: int, pick: Option<int>)

  /** `handleWheel`: add the event's delta, and act once it reaches the threshold. */
  function Wheel(p: Picker, value: int, accum: int, deltaY: int): (r: WheelStep)
    ensures Abs(r.accum) < WheelThreshold
    ensures r.pick.Some? <==> Abs(accum + deltaY) >= WheelThreshold
    ensures (accum + deltaY - r.accum) % WheelThreshold == 0
    ensures accum + deltaY >= 0 ==> 0 <= r.accum <= accum + deltaY
    ensures accum + deltaY <= 0 ==> accum + deltaY <= r.accum <= 0
  {
    var a := accum + deltaY;
    if Abs(a) < WheelThreshold then WheelStep(a, None)
    else
      var steps := WheelSteps(a);
      WheelStep(a - steps * WheelThreshold,
                Some(if value == 0 then (if steps > 0 then p.min else p.max) else Clamp(p, value + steps)))
  }

  /**
   * A pick moves by exactly the whole thresholds scrolled, the scroll kept back
   * being the rest; from nothing, scrolling down picks the minimum and scrolling
   * up the maximum; the pick stays in the range.
   */
  lemma WheelCorrect(p: Picker, value: int, accum: int, deltaY: int)
    requires Proper(p)
    ensures var r := Wheel(p, value, accum, deltaY);
            var steps := (accum + deltaY - r.accum) / WheelThreshold;
            r.pick.Some? ==>
              && steps != 0
              && p.min <= r.pick.value <= p.max
              && (value == 0 ==> r.pick.value == if accum + deltaY > 0 then p.min else p.max)
              && (value != 0 ==> r.pick.value == Clamp(p, value + steps))
  {
    var a := accum + deltaY;
    if Abs(a) >= WheelThreshold {
      var q := WheelSteps(a);
      assert a - (a - q * WheelThreshold) == q * WheelThreshold;
      assert (q * WheelThreshold) / WheelThreshold == q;
      assert q != 0;
    }
  }

  // ---------------------------------------------------------------------------
  // Touch
  // ---------------------------------------------------------------------------

  /** `Math.round(a / d)`: the nearest whole number, halves rounded up. */
  function RoundDiv(a: int, d: int): (q: int)
    requires d > 0
    ensures (2 * q - 1) * d <= 2 * a < (2 * q + 1) * d
  {
    (2 * a + d) / (2 * d)
  }

  /** Where a drag starts from: the current value, or the minimum when nothing is picked. */
  function TouchStart(p: Picker, value: int): int {
    if value != 0 then value else p.min
  }

  /** `handleTouchMove`: half an item's height of drag is one step. */
  function TouchMove(p: Picker, startVal: int, startY: int, y: int): Option<int> {
    var steps := RoundDiv(startY - y, ItemHeight / 2);
    if steps != 0 then Some(Clamp(p, startVal + steps)) else None
  }

  /**
   * A drag picks nothing until it covers half a step (12 pixels), up or down;
   * then the pick is the start moved by the rounded number of steps, held to the
   * range.
   */
  lemma TouchCorrect(p: Picker, value: int, startY: int, y: int)
    requires Proper(p)
    ensures var r := TouchMove(p, TouchStart(p, value), startY, y);
            && (r.None? <==> -12 <= startY - y < 12)
            && (r.Some? ==> p.min <= r.value <= p.max)
            && (r.Some? && 12 <= startY - y ==> r.value >= TouchStart(p, value) || r.value == p.max)
            && (r.Some? && startY - y < -12 ==> r.value <= TouchStart(p, value) || r.value == p.min)
  {
    var q := RoundDiv(startY - y, ItemHeight / 2);
    if 12 <= startY - y {
      assert q > 0;
    } else if startY - y < -12 {
      assert q < 0;
    }
  }

  // ---------------------------------------------------------------------------
  // The birthday
  // ---------------------------------------------------------------------------

  predicate IsComplete(month: int, day: int, year: int) {
    month > 0 && day > 0 && year >= FirstYear
  }

  /** `dob`: `YYYY-MM-DD` with zero-padded fields once all three are picked, else empty. */
  function Dob(month: int, day: int, year: int): (r: string)
    ensures r == "" <==> !IsComplete(month, day, year)
  {
    if IsComplete(month, day, year) then FormatIso(CalendarDate(year, month, day)) else ""
  }

  datatype SubmitError = Incomplete | NotBornYet

  /** `handleSubmit`; whether the date lies after now is the clock's answer, passed in. */
  function Submit(month: int, day: int, year: int, afterNow: bool): (r: Result<string, SubmitError>)
    ensures r.Ok? <==> IsComplete(month, day, year) && !afterNow
    ensures r == Err(Incomplete) <==> !IsComplete(month, day, year)
    ensures r.Ok? ==> r.value != ""
  {
    if !IsComplete(month, day, year) then Err(Incomplete)
    else if afterNow then Err(NotBornYet)
    else Ok(Dob(month, day, year))
  }

  /** The three pickers as restored: each `parseInt` result, absent for `NaN`. */
  datatype Restored = Restored(year: Option<int>, month: Option<int>, day: Option<int>)

  function PartAt(parts: seq<string>, i: nat): Option<int> {
    if i < |parts| then ParseInt(parts[i]) else None
  }

  /** The saved `dob` split on '-' and read with `parseInt`; an empty one restores nothing. */
  function RestoreDob(saved: string): Option<Restored> {
    if saved == "" then None
    else
      var parts := Split(saved, '-');
      Some(Restored(PartAt(parts, 0), PartAt(parts, 1), PartAt(parts, 2)))
  }

  /** A padded field reads back with `parseInt` and holds no '-'. */
  lemma PaddedField(n: nat, width: nat)
    requires width >= 1
    ensures '-' !in PadStart(NatToString(n), width, '0')
    ensures ParseInt(PadStart(NatToString(n), width, '0')) == Some(n)
  {
    PadStartRoundTrip(n, width);
    ParseIntDigits(PadStart(NatToString(n), width, '0'));
  }

  /**
   * A complete birthday restores to the very pickers that built it, and for a
   * real calendar date it is an ISO date whose year the timeline reads back.
   */
  lemma DobRoundTrip(month: int, day: int, year: int)
    requires IsComplete(month, day, year)
    ensures RestoreDob(Dob(month, day, year)) == Some(Restored(Some(year), Some(month), Some(day)))
    ensures ValidDate(CalendarDate(year, month, day)) && year <= 9999 ==>
              IsIsoDate(Dob(month, day, year)) && BirthYear(Dob(month, day, year)) == Some(year)
  {
    DobRestores(month, day, year);
    if ValidDate(CalendarDate(year, month, day)) && year <= 9999 {
      IsoRoundTrip(CalendarDate(year, month, day));
    }
  }

  lemma DobRestores(month: int, day: int, year: int)
    requires IsComplete(month, day, year)
    ensures RestoreDob(Dob(month, day, year)) == Some(Restored(Some(year), Some(month), Some(day)))
  {
    var a := PadStart(NatToString(year), 4, '0');
    var b := Pad2(month);
    var c := Pad2(day);
    PaddedField(year, 4);
    PaddedField(month, 2);
    PaddedField(day, 2);
    DobShape(month, day, year);
    SplitThree(a, b, c);
    var parts := [a, b, c];
    assert PartAt(parts, 0) == Some(year) && PartAt(parts, 1) == Some(month) && PartAt(parts, 2) == Some(day);
  }

  lemma DobShape(month: int, day: int, year: int)
    requires IsComplete(month, day, year)
    ensures Dob(month, day, year) == PadStart(NatToString(year), 4, '0') + "-" + Pad2(month) + "-" + Pad2(day)
  {
  }

  lemma SplitThree(a: string, b: string, c: string)
    requires '-' !in a && '-' !in b && '-' !in c
    ensures Split(a + "-" + b + "-" + c, '-') == [a, b, c]
  {
    assert Join([a, b, c], "-") == a + "-" + b + "-" + c by {
      assert [a, b, c][1..] == [b, c];
      assert [b, c][1..] == [c];
      assert Join([c], "-") == c;
      assert Join([b, c], "-") == b + "-" + c;
      assert Join([a, b, c], "-") == a + "-" + (b + "-" + c);
    }
    SplitJoin([a, b, c], '-');
  }

  // ---------------------------------------------------------------------------
  // Restoring the birthday from storage
  // ---------------------------------------------------------------------------

  /** The key the landing page reads as written, which no page ever writes. */
  const LandingKeyAsWritten := "ring-count-selections"

  /** The pickers restored from a stored record's `dob`; nothing without a string one. */
  function SavedDob(saved: Saved): Option<Restored> {
    if saved.SavedRecord? && saved.dob.Some? then RestoreDob(saved.dob.value) else None
  }

  /** The mount effect as written: it reads under its own key. */
  function RestoreFromStorageAsWritten(store: Storage): (r: Option<Restored>)
    ensures LandingKeyAsWritten !in store ==> r.None?
  {
    SavedDob(Lookup(store, LandingKeyAsWritten))
  }

  /** The mount effect reading the key the selection page writes. */
  function RestoreFromStorage(store: Storage): (r: Option<Restored>)
    ensures r.Some? ==> Lookup(store, SelectionsKey).SavedRecord?
  {
    SavedDob(Lookup(store, SelectionsKey))
  }

  /**
   * As written, the birthday the selection page saves is never restored: the
   * two pages use different keys, so after the hand-off the landing page
   * still finds nothing unless something else wrote its key.
   */
  lemma SavedBirthdayLostAsWritten(store: Storage, month: int, day: int, year: int, sel: seq<int>)
    requires IsComplete(month, day, year) && |sel| > 0
    requires LandingKeyAsWritten !in store
    ensures RestoreFromStorage(SaveHandoff(store, ViewTimeline(Dob(month, day, year), sel).value)).Some?
    ensures RestoreFromStorageAsWritten(SaveHandoff(store, ViewTimeline(Dob(month, day, year), sel).value)).None?
  {
    var h := ViewTimeline(Dob(month, day, year), sel).value;
    DobRestores(month, day, year);
    assert Lookup(SaveHandoff(store, h), LandingKeyAsWritten) == NoEntry;
  }

  /** Reading the selection page's key, a later visit restores the pickers that built the birthday. */
  lemma SavedBirthdayRestores(store: Storage, month: int, day: int, year: int, sel: seq<int>)
    requires IsComplete(month, day, year) && |sel| > 0
    ensures RestoreFromStorage(SaveHandoff(store, ViewTimeline(Dob(month, day, year), sel).value))
            == Some(Restored(Some(year), Some(month), Some(day)))
  {
    DobRestores(month, day, year);
  }
}
