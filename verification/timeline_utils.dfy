/** The timeline's shared helpers (`src/lib/timeline/utils.ts`). */
module TimelineUtils {
  import opened Wrappers
  import opened Dates
  import opened Db

  /** A championship on the timeline, flagged when it was a title-game loss. */
  datatype TimelineItem = TimelineItem(c: Championship, isLoss: bool)

  /** The stored date is absent, empty, or a well-formed ISO date. */
  predicate WellDated(c: Championship) {
    match c.row.championshipDate
    case None => true
    case Some(d) => d == "" || IsIsoDate(d)
  }

  /** `champYear`: the calendar year the game was played when the date is known, else the season year. */
  function ChampYear(c: Championship): (y: int)
    requires WellDated(c)
    ensures c.row.championshipDate.None? || c.row.championshipDate == Some("") ==> y == c.row.year
    ensures c.row.championshipDate.Some? && c.row.championshipDate.value != "" ==>
              y == ParseIso(c.row.championshipDate.value).year
    ensures forall d :: ValidDate(d) && 0 <= d.year <= 9999 && c.row.championshipDate == Some(FormatIso(d)) ==>
              y == d.year
  {
    IsoYears();
    match c.row.championshipDate
    case None => c.row.year
    case Some(d) => if d == "" then c.row.year else ParseIso(d).year
  }

  /** Every rendered four-digit-year date reads back with its own year. */
  lemma IsoYears()
    ensures forall d :: ValidDate(d) && 0 <= d.year <= 9999 ==>
              IsIsoDate(FormatIso(d)) && ParseIso(FormatIso(d)).year == d.year
  {
    forall d | ValidDate(d) && 0 <= d.year <= 9999
      ensures IsIsoDate(FormatIso(d)) && ParseIso(FormatIso(d)).year == d.year
    {
      IsoRoundTrip(d);
    }
  }

  /** A championship dated `d` counts in `d`'s calendar year, whatever its season year says. */
  lemma ChampYearOfDate(c: Championship, d: CalendarDate)
    requires ValidDate(d) && 0 <= d.year <= 9999
    requires c.row.championshipDate == Some(FormatIso(d))
    ensures WellDated(c) && ChampYear(c) == d.year
  {
    IsoRoundTrip(d);
  }

  /** Two dates with the same `YYYY` give the same year, whatever their month and day. */
  lemma ChampYearIgnoresMonthDay(c1: Championship, c2: Championship)
    requires WellDated(c1) && WellDated(c2)
    requires c1.row.championshipDate.Some? && c1.row.championshipDate.value != ""
    requires c2.row.championshipDate.Some? && c2.row.championshipDate.value != ""
    requires c1.row.championshipDate.value[..4] == c2.row.championshipDate.value[..4]
    ensures ChampYear(c1) == ChampYear(c2)
  {
  }

  /** Only the stored date and the season year matter; every other field is ignored. */
  lemma ChampYearFields(c1: Championship, c2: Championship)
    requires WellDated(c1)
    requires c1.row.championshipDate == c2.row.championshipDate && c1.row.year == c2.row.year
    ensures WellDated(c2) && ChampYear(c1) == ChampYear(c2)
  {
  }
}
