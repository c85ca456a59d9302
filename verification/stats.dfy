/**
 * The lifetime statistics of the stats bar (`src/lib/timeline/stats-bar.tsx`):
 * the distinct win years, the best year, the longest drought and streak, the
 * current streak, the most decorated teams and the league breakdown. Only the
 * integer and string results are modelled; the floating-point widths,
 * percentages and the frequency sentiment are not.
 */
module Stats {
  import opened Wrappers
  import opened Strings
  import opened Sorting
  import opened Dates
  import opened Grouping
  import opened Db
  import opened TimelineUtils

  /** Every championship's stored date is absent, empty or a well-formed ISO date. */
  ghost predicate AllWellDated(cs: seq<Championship>) {
    forall c :: c in cs ==> WellDated(c)
  }

  /** `champYear` as a total key; on the championships the bar is given it is `champYear`. */
  function YearOf(c: Championship): (y: int)
    ensures WellDated(c) ==> y == ChampYear(c)
  {
    if WellDated(c) then ChampYear(c) else c.row.year
  }

  // ---------------------------------------------------------------------------
  // Distinct win years
  // ---------------------------------------------------------------------------

  /** `new Set(championships.map(champYear))`, in insertion order. */
  function UniqueYears(cs: seq<Championship>): seq<int> {
    Dedup(KeysOf(cs, YearOf))
  }

  /** The distinct years are exactly the years of the championships, each once. */
  lemma UniqueYearsMembers(cs: seq<Championship>)
    requires AllWellDated(cs)
    ensures Distinct(UniqueYears(cs))
    ensures forall y :: y in UniqueYears(cs) <==> exists c :: c in cs && ChampYear(c) == y
  {
    var ks := KeysOf(cs, YearOf);
    DedupFacts(ks);
    forall y ensures y in UniqueYears(cs) <==> exists c :: c in cs && ChampYear(c) == y {
      if y in ks {
        var i :| 0 <= i < |ks| && ks[i] == y;
        assert cs[i] in cs && ChampYear(cs[i]) == y;
      }
      if exists c :: c in cs && ChampYear(c) == y {
        var c :| c in cs && ChampYear(c) == y;
        var i :| 0 <= i < |cs| && cs[i] == c;
        assert ks[i] == y;
      }
    }
  }

  /** `uniqueYears.size`: the number of distinct `champYear` values. */
  function YearsWithWin(cs: seq<Championship>): (n: nat)
    requires AllWellDated(cs)
    ensures n == |set c | c in cs :: ChampYear(c)|
  {
    var ks := KeysOf(cs, YearOf);
    DedupFacts(ks);
    assert Members(ks) == set c | c in cs :: ChampYear(c) by {
      forall y | y in Members(ks) ensures y in set c | c in cs :: ChampYear(c) {
        var i :| 0 <= i < |ks| && ks[i] == y;
        assert cs[i] in cs;
      }
      forall y | y in (set c | c in cs :: ChampYear(c)) ensures y in Members(ks) {
        var c :| c in cs && ChampYear(c) == y;
        var i :| 0 <= i < |cs| && cs[i] == c;
        assert ks[i] == y;
      }
    }
    |UniqueYears(cs)|
  }

  // ---------------------------------------------------------------------------
  // Best year
  // ---------------------------------------------------------------------------

  /** The logo and name the best-year card shows for one title. */
  datatype TeamEntry = TeamEntry(league: string, espnId: string, name: string)

  function EntryOf(c: Championship): TeamEntry {
    TeamEntry(c.team.league, c.team.espnId, c.team.city + " " + c.team.name)
  }

  function Entries(cs: seq<Championship>): (es: seq<TeamEntry>)
    ensures |es| == |cs| && forall i :: 0 <= i < |cs| ==> es[i] == EntryOf(cs[i])
  {
    if |cs| == 0 then [] else [EntryOf(cs[0])] + Entries(cs[1..])
  }

  /** `yearChamps`: the championships of each year, years in first-seen order. */
  function YearChamps(cs: seq<Championship>): seq<Group<int, Championship>> {
    GroupBy(cs, YearOf)
  }

  datatype BestYear = BestYear(year: int, count: int, teams: seq<TeamEntry>)

  /** The scan over `yearChamps`: a year replaces the best only with strictly more titles. */
  function BestFrom(gs: seq<Group<int, Championship>>, best: BestYear): BestYear
    decreases |gs|
  {
    if |gs| == 0 then best
    else
      var next := if |gs[0].items| > best.count
                  then BestYear(gs[0].key, |gs[0].items|, Entries(gs[0].items))
                  else best;
      BestFrom(gs[1..], next)
  }

  function BestYearOf(cs: seq<Championship>): BestYear {
    BestFrom(YearChamps(cs), BestYear(0, 0, []))
  }

  function Picked(g: Group<int, Championship>): BestYear {
    BestYear(g.key, |g.items|, Entries(g.items))
  }

  /**
   * The scan keeps the starting best unless some group beats it; then it picks the
   * first group whose size is the largest, and no group is larger.
   */
  lemma {:induction false} BestFromPicks(gs: seq<Group<int, Championship>>, best: BestYear)
    ensures var r := BestFrom(gs, best);
            && best.count <= r.count
            && (forall j :: 0 <= j < |gs| ==> |gs[j].items| <= r.count)
            && (r == best || exists i :: 0 <= i < |gs| && r == Picked(gs[i]) && best.count < r.count
                                         && forall j :: 0 <= j < i ==> |gs[j].items| < r.count)
    decreases |gs|
  {
    if |gs| > 0 {
      var next := if |gs[0].items| > best.count then Picked(gs[0]) else best;
      BestFromPicks(gs[1..], next);
      var r := BestFrom(gs, best);
      assert r == BestFrom(gs[1..], next);
      forall j | 0 <= j < |gs| ensures |gs[j].items| <= r.count {
        if j > 0 {
          assert gs[j] == gs[1..][j - 1];
        }
      }
      if r != best && r != next {
        var i :| 0 <= i < |gs[1..]| && r == Picked(gs[1..][i]) && next.count < r.count
                 && forall j :: 0 <= j < i ==> |gs[1..][j].items| < r.count;
        assert r == Picked(gs[i + 1]);
        forall j | 0 <= j < i + 1 ensures |gs[j].items| < r.count {
          if j > 0 {
            assert gs[j] == gs[1..][j - 1];
          }
        }
      } else if r != best {
        assert r == Picked(gs[0]);
      }
    }
  }

  /**
   * `bestYear` is year 0 with no titles when there are no championships; otherwise
   * it is a win year, its count and teams are that year's titles, no year has more
   * titles, and every year seen earlier has strictly fewer.
   */
  lemma BestYearCorrect(cs: seq<Championship>)
    ensures var b := BestYearOf(cs);
            var ys := UniqueYears(cs);
            && (|cs| == 0 ==> b == BestYear(0, 0, []))
            && (|cs| > 0 ==>
                  && b.count == |Filter(cs, YearOf, b.year)| && b.teams == Entries(Filter(cs, YearOf, b.year))
                  && (forall y :: y in ys ==> |Filter(cs, YearOf, y)| <= b.count)
                  && exists i :: 0 <= i < |ys| && ys[i] == b.year
                                 && forall j :: 0 <= j < i ==> |Filter(cs, YearOf, ys[j])| < b.count)
  {
    var g := YearChamps(cs);
    var b := BestYearOf(cs);
    var ys := UniqueYears(cs);
    YearChampsFacts(cs);
    if |cs| == 0 {
      assert g == [];
    } else {
      var i := BestYearPick(cs);
      forall y | y in ys ensures |Filter(cs, YearOf, y)| <= b.count {
        var k :| 0 <= k < |ys| && ys[k] == y;
        assert g[k].key == y;
      }
      forall j | 0 <= j < i ensures |Filter(cs, YearOf, ys[j])| < b.count {
        assert g[j].key == ys[j];
      }
    }
  }

  /** The year groups are keyed by the distinct years and hold each year's championships. */
  lemma YearChampsFacts(cs: seq<Championship>)
    ensures var g := YearChamps(cs);
            && Keys(g) == UniqueYears(cs)
            && (forall i :: 0 <= i < |g| ==> g[i].items == Filter(cs, YearOf, g[i].key))
            && (|cs| == 0 <==> |g| == 0)
  {
    GroupByCorrect(cs, YearOf);
    var g := YearChamps(cs);
    if |cs| > 0 {
      assert KeysOf(cs, YearOf)[0] in Keys(g);
    }
  }

  /** On championships, the scan picks the position of the first largest year group. */
  lemma BestYearPick(cs: seq<Championship>) returns (i: int)
    requires |cs| > 0
    ensures var g := YearChamps(cs);
            var b := BestYearOf(cs);
            && 0 <= i < |g| && b == Picked(g[i])
            && (forall j :: 0 <= j < |g| ==> |g[j].items| <= b.count)
            && (forall j :: 0 <= j < i ==> |g[j].items| < b.count)
  {
    var g := YearChamps(cs);
    var b := BestYearOf(cs);
    YearChampsFacts(cs);
    BestFromPicks(g, BestYear(0, 0, []));
    DedupFacts(KeysOf(cs, YearOf));
    assert g[0].key == Keys(g)[0];
    FilterOfKey(cs, YearOf, g[0].key);
    assert b.count >= |g[0].items| > 0;
    i :| 0 <= i < |g| && b == Picked(g[i]) && 0 < b.count
         && forall j :: 0 <= j < i ==> |g[j].items| < b.count;
  }

  /** `Math.max(1, ...yearWinCounts.values())`: the scale of the per-year chart. */
  function MaxWinsInYear(cs: seq<Championship>): (m: int)
    ensures m >= 1
    ensures |cs| == 0 ==> m == 1
    ensures forall c :: c in cs ==> |Filter(cs, YearOf, YearOf(c))| <= m
    ensures |cs| > 0 ==> exists c :: c in cs && m == (if |Filter(cs, YearOf, YearOf(c))| > 1 then |Filter(cs, YearOf, YearOf(c))| else 1)
  {
    var b := BestYearOf(cs);
    MaxWinsFacts(cs);
    if b.count > 1 then b.count else 1
  }

  lemma MaxWinsFacts(cs: seq<Championship>)
    ensures var b := BestYearOf(cs);
            && (forall c :: c in cs ==> |Filter(cs, YearOf, YearOf(c))| <= b.count)
            && (|cs| > 0 ==> exists c :: c in cs && b.count == |Filter(cs, YearOf, YearOf(c))|)
  {
    var b := BestYearOf(cs);
    BestYearCorrect(cs);
    UniqueYearsAll(cs);
    if |cs| > 0 {
      var i :| 0 <= i < |UniqueYears(cs)| && UniqueYears(cs)[i] == b.year;
      var c := YearWitness(cs, b.year);
      assert YearOf(c) == b.year;
    }
  }

  lemma UniqueYearsAll(cs: seq<Championship>)
    ensures forall y :: y in UniqueYears(cs) <==> y in KeysOf(cs, YearOf)
    ensures forall c :: c in cs ==> YearOf(c) in UniqueYears(cs)
  {
    var ks := KeysOf(cs, YearOf);
    DedupFacts(ks);
    forall c | c in cs ensures YearOf(c) in UniqueYears(cs) {
      var i :| 0 <= i < |cs| && cs[i] == c;
      assert ks[i] == YearOf(c);
    }
  }

  /** Some championship of a win year. */
  ghost function YearWitness(cs: seq<Championship>, y: int): (c: Championship)
    requires y in UniqueYears(cs)
    ensures c in cs && YearOf(c) == y
  {
    UniqueYearsAll(cs);
    var ks := KeysOf(cs, YearOf);
    var i :| 0 <= i < |ks| && ks[i] == y;
    cs[i]
  }

  // ---------------------------------------------------------------------------
  // Sorted years and the longest streak
  // ---------------------------------------------------------------------------

  ghost predicate StrictlyAscending(ys: seq<int>) {
    forall i, j :: 0 <= i < j < |ys| ==> ys[i] < ys[j]
  }

  /** `Array.from(uniqueYears).sort((a, b) => a - b)`: the win years, each once, ascending. */
  function SortedYears(cs: seq<Championship>): (ys: seq<int>)
    ensures StrictlyAscending(ys)
    ensures forall y :: y in ys <==> y in UniqueYears(cs)
  {
    var u := UniqueYears(cs);
    DedupFacts(KeysOf(cs, YearOf));
    var r := SortAsc(u);
    PermutationDistinct(u, r);
    SortAscMembers(u);
    AscendingDistinct(r);
    r
  }

  /** Ascending and without repeats is strictly ascending. */
  lemma AscendingDistinct(r: seq<int>)
    requires Distinct(r) && forall i, j :: 0 <= i < j < |r| ==> r[i] <= r[j]
    ensures StrictlyAscending(r)
  {
  }

  /** Positions `a..b` of the ascending years hold consecutive years. */
  ghost predicate Run(ys: seq<int>, a: int, b: int) {
    0 <= a <= b < |ys| && ys[b] - ys[a] == b - a
  }

  /** A run that cannot be extended at either end. */
  ghost predicate MaximalRun(ys: seq<int>, a: int, b: int) {
    && Run(ys, a, b)
    && (a == 0 || ys[a - 1] + 1 < ys[a])
    && (b == |ys| - 1 || ys[b] + 1 < ys[b + 1])
  }

  /** Ascending distinct integers grow by at least one per position. */
  lemma {:induction false} AscendingGaps(ys: seq<int>, i: int, j: int)
    requires StrictlyAscending(ys) && 0 <= i <= j < |ys|
    ensures ys[j] - ys[i] >= j - i
    decreases j - i
  {
    if i < j {
      AscendingGaps(ys, i, j - 1);
    }
  }

  /** A run cannot step over a gap. */
  lemma RunNoGap(ys: seq<int>, a: int, b: int, k: int)
    requires StrictlyAscending(ys) && Run(ys, a, b) && a < k <= b
    ensures ys[k - 1] + 1 == ys[k]
  {
    AscendingGaps(ys, a, k - 1);
    AscendingGaps(ys, k, b);
  }

  /** Every year between the ends of a run is a win year. */
  lemma RunCovers(ys: seq<int>, a: int, b: int, y: int)
    requires StrictlyAscending(ys) && Run(ys, a, b) && ys[a] <= y <= ys[b]
    ensures y in ys
  {
    var k := a + (y - ys[a]);
    AscendingGaps(ys, a, k);
    AscendingGaps(ys, k, b);
    assert ys[k] == y;
  }

  /**
   * Runs ending at or before `e`, where `rs..e` is a run that starts after a gap,
   * are no longer than `m` once those ending before `rs` are and `rs..e` is.
   */
  lemma ExtendBound(ys: seq<int>, rs: int, e: int, m: int)
    requires StrictlyAscending(ys) && Run(ys, rs, e) && (rs == 0 || ys[rs - 1] + 1 < ys[rs])
    requires forall a, b :: Run(ys, a, b) && b < rs ==> b - a + 1 <= m
    requires e - rs + 1 <= m
    ensures forall a, b :: Run(ys, a, b) && b <= e ==> b - a + 1 <= m
  {
    forall a, b | Run(ys, a, b) && b <= e ensures b - a + 1 <= m {
      if rs <= b && a < rs {
        RunNoGap(ys, a, b, rs);
        assert false;
      }
    }
  }

  /** A run starting before the gap at `rs` ends before it. */
  lemma BeforeGap(ys: seq<int>, rs: int, a: int, b: int)
    requires StrictlyAscending(ys) && 0 < rs < |ys| && ys[rs - 1] + 1 < ys[rs]
    requires Run(ys, a, b) && a < rs
    ensures b < rs
  {
    if rs <= b {
      RunNoGap(ys, a, b, rs);
      assert false;
    }
  }

  /** A new longest run `rs..e` is strictly longer than every run that starts before it. */
  lemma NewBest(ys: seq<int>, rs: int, e: int, m: int)
    requires StrictlyAscending(ys) && Run(ys, rs, e) && (rs == 0 || ys[rs - 1] + 1 < ys[rs])
    requires forall a, b :: Run(ys, a, b) && b < rs ==> b - a + 1 <= m
    requires m < e - rs + 1
    ensures forall a, b :: Run(ys, a, b) && b <= e && ys[a] < ys[rs] ==> b - a + 1 < e - rs + 1
  {
    forall a, b | Run(ys, a, b) && b <= e && ys[a] < ys[rs] ensures b - a + 1 < e - rs + 1 {
      assert a < rs;
      BeforeGap(ys, rs, a, b);
    }
  }

  /** Keeping the best run `ba..`: runs of `rs..e` start after it, so ties still favour it. */
  lemma KeepTies(ys: seq<int>, rs: int, e: int, m: int, ba: int)
    requires StrictlyAscending(ys) && 0 <= ba < rs <= e < |ys|
    requires forall a, b :: Run(ys, a, b) && b < rs && ys[a] < ys[ba] ==> b - a + 1 < m
    requires rs == 0 || ys[rs - 1] + 1 < ys[rs]
    ensures forall a, b :: Run(ys, a, b) && b <= e && ys[a] < ys[ba] ==> b - a + 1 < m
  {
    forall a, b | Run(ys, a, b) && b <= e && ys[a] < ys[ba] ensures b - a + 1 < m {
      assert a < ba;
      BeforeGap(ys, rs, a, b);
    }
  }

  datatype Streak = Streak(years: int, from: int, to: int)

  /** `s` is the run `ba..bb`, it cannot be extended on the left, and it ends before `e` or at it. */
  ghost predicate StreakAt(ys: seq<int>, s: Streak, ba: int, bb: int) {
    && Run(ys, ba, bb) && s == Streak(bb - ba + 1, ys[ba], ys[bb])
    && (ba == 0 || ys[ba - 1] + 1 < ys[ba])
  }

  /** No run ending before `end` is longer than `s`, and those starting before it are shorter. */
  ghost predicate LongestBefore(ys: seq<int>, s: Streak, end: int) {
    && (forall a, b :: Run(ys, a, b) && b < end ==> b - a + 1 <= s.years)
    && (forall a, b :: Run(ys, a, b) && b < end && ys[a] < s.from ==> b - a + 1 < s.years)
  }

  lemma LongestOverall(ys: seq<int>, s: Streak)
    requires LongestBefore(ys, s, |ys|)
    ensures forall a, b :: Run(ys, a, b) ==> b - a + 1 <= s.years
    ensures forall a, b :: Run(ys, a, b) && ys[a] < s.from ==> b - a + 1 < s.years
  {
  }

  /**
   * Closing the current run `rs..e`: `const len = runEnd - runStart + 1; if (len >
   * longestStreak.years) longestStreak = ...`. Afterwards the best covers every run
   * ending at or before `e`.
   */
  method CloseRun(ys: seq<int>, e: int, s: Streak, rs: int, runStart: int, runEnd: int, ba: int, bb: int)
    returns (s': Streak, ba': int, bb': int)
    requires StrictlyAscending(ys) && Run(ys, rs, e) && runStart == ys[rs] && runEnd == ys[e]
    requires rs == 0 || ys[rs - 1] + 1 < ys[rs]
    requires s.years == 0 ==> rs == 0
    requires s.years > 0 ==> StreakAt(ys, s, ba, bb) && bb < rs && ys[bb] + 1 < ys[bb + 1]
    requires LongestBefore(ys, s, rs)
    ensures s'.years > 0 && StreakAt(ys, s', ba', bb') && bb' <= e && (bb' == e || ys[bb'] + 1 < ys[bb' + 1])
    ensures LongestBefore(ys, s', e + 1)
  {
    var len := runEnd - runStart + 1;
    if len > s.years {
      NewBest(ys, rs, e, s.years);
      s' := Streak(len, runStart, runEnd);
      ba', bb' := rs, e;
      ExtendBound(ys, rs, e, s'.years);
    } else {
      s', ba', bb' := s, ba, bb;
      ExtendBound(ys, rs, e, s.years);
      KeepTies(ys, rs, e, s.years, ba);
    }
  }

  /** The loop's state after the years before position `i`: the best so far and the open run. */
  datatype Scan = Scan(best: Streak, rs: int, runStart: int, runEnd: int, ba: int, bb: int)

  ghost predicate Scanned(ys: seq<int>, i: int, st: Scan) {
    && StrictlyAscending(ys) && 1 <= i <= |ys|
    && 0 <= st.rs < i && st.runStart == ys[st.rs] && st.runEnd == ys[i - 1] && Run(ys, st.rs, i - 1)
    && (st.rs == 0 || ys[st.rs - 1] + 1 < ys[st.rs])
    && (st.best.years == 0 ==> st.rs == 0)
    && (st.best.years > 0 ==> StreakAt(ys, st.best, st.ba, st.bb) && st.bb < st.rs && ys[st.bb] + 1 < ys[st.bb + 1])
    && LongestBefore(ys, st.best, st.rs)
  }

  /** One iteration: extend the open run by `ys[i]`, or close it and open a new one. */
  method ScanStep(ys: seq<int>, i: int, st: Scan) returns (st': Scan)
    requires i < |ys| && Scanned(ys, i, st)
    ensures Scanned(ys, i + 1, st')
  {
    if ys[i] == st.runEnd + 1 {
      st' := st.(runEnd := ys[i]);
      ExtendScanned(ys, i, st);
    } else {
      var best, ba, bb := CloseRun(ys, i - 1, st.best, st.rs, st.runStart, st.runEnd, st.ba, st.bb);
      st' := Scan(best, i, ys[i], ys[i], ba, bb);
      OpenScanned(ys, i, best, ba, bb);
    }
  }

  lemma ExtendScanned(ys: seq<int>, i: int, st: Scan)
    requires i < |ys| && Scanned(ys, i, st) && ys[i] == st.runEnd + 1
    ensures Scanned(ys, i + 1, st.(runEnd := ys[i]))
  {
  }

  lemma OpenScanned(ys: seq<int>, i: int, best: Streak, ba: int, bb: int)
    requires StrictlyAscending(ys) && 1 <= i < |ys| && ys[i] != ys[i - 1] + 1
    requires best.years > 0 && StreakAt(ys, best, ba, bb) && bb <= i - 1
    requires bb == i - 1 || ys[bb] + 1 < ys[bb + 1]
    requires LongestBefore(ys, best, i)
    ensures Scanned(ys, i + 1, Scan(best, i, ys[i], ys[i], ba, bb))
  {
  }

  /**
   * `longestStreak`: the longest run of consecutive win years, the earliest one
   * on ties. The run is maximal at both ends and `years = to - from + 1`.
   */
  method LongestStreak(ys: seq<int>) returns (s: Streak)
    requires StrictlyAscending(ys)
    ensures |ys| == 0 ==> s == Streak(0, 0, 0)
    ensures |ys| > 0 ==> exists a, b :: MaximalRun(ys, a, b) && s == Streak(b - a + 1, ys[a], ys[b])
    ensures forall a, b :: Run(ys, a, b) ==> b - a + 1 <= s.years
    ensures forall a, b :: Run(ys, a, b) && ys[a] < s.from ==> b - a + 1 < s.years
  {
    s := Streak(0, 0, 0);
    if |ys| == 0 {
      return;
    }
    var st := ScanAll(ys);
    s := CloseLast(ys, st);
  }

  /** The loop over the years after the first. */
  method ScanAll(ys: seq<int>) returns (st: Scan)
    requires StrictlyAscending(ys) && |ys| > 0
    ensures Scanned(ys, |ys|, st)
  {
    st := Scan(Streak(0, 0, 0), 0, ys[0], ys[0], 0, 0);
    FirstScanned(ys);
    var i := 1;
    while i < |ys|
      invariant Scanned(ys, i, st)
      decreases |ys| - i
    {
      st := ScanStep(ys, i, st);
      i := i + 1;
    }
  }

  /** Closing the run still open after the last year gives the answer. */
  method CloseLast(ys: seq<int>, st: Scan) returns (s: Streak)
    requires |ys| > 0 && Scanned(ys, |ys|, st)
    ensures exists a, b :: MaximalRun(ys, a, b) && s == Streak(b - a + 1, ys[a], ys[b])
    ensures forall a, b :: Run(ys, a, b) ==> b - a + 1 <= s.years
    ensures forall a, b :: Run(ys, a, b) && ys[a] < s.from ==> b - a + 1 < s.years
  {
    var ba, bb;
    s, ba, bb := CloseRun(ys, |ys| - 1, st.best, st.rs, st.runStart, st.runEnd, st.ba, st.bb);
    FinalStreak(ys, s, ba, bb);
  }

  lemma FirstScanned(ys: seq<int>)
    requires StrictlyAscending(ys) && |ys| > 0
    ensures Scanned(ys, 1, Scan(Streak(0, 0, 0), 0, ys[0], ys[0], 0, 0))
  {
  }

  /** After the last run is closed, the best run is maximal and no run beats it. */
  lemma FinalStreak(ys: seq<int>, s: Streak, ba: int, bb: int)
    requires StrictlyAscending(ys) && |ys| > 0
    requires s.years > 0 && StreakAt(ys, s, ba, bb) && bb <= |ys| - 1
    requires bb == |ys| - 1 || ys[bb] + 1 < ys[bb + 1]
    requires LongestBefore(ys, s, |ys|)
    ensures exists a, b :: MaximalRun(ys, a, b) && s == Streak(b - a + 1, ys[a], ys[b])
    ensures forall a, b :: Run(ys, a, b) ==> b - a + 1 <= s.years
    ensures forall a, b :: Run(ys, a, b) && ys[a] < s.from ==> b - a + 1 < s.years
  {
    assert MaximalRun(ys, ba, bb);
    LongestOverall(ys, s);
  }

  /** The years the streak card lists: every year of the streak won a title. */
  lemma StreakYearsWon(ys: seq<int>, s: Streak, y: int)
    requires StrictlyAscending(ys)
    requires exists a, b :: MaximalRun(ys, a, b) && s == Streak(b - a + 1, ys[a], ys[b])
    requires s.from <= y <= s.to
    ensures y in ys
  {
    var a, b :| MaximalRun(ys, a, b) && s == Streak(b - a + 1, ys[a], ys[b]);
    RunCovers(ys, a, b, y);
  }

  // ---------------------------------------------------------------------------
  // Bounding dates and the longest drought
  // ---------------------------------------------------------------------------

  /** The stored date when it is truthy, else "". */
  function DateString(c: Championship): string {
    match c.row.championshipDate
    case None => ""
    case Some(d) => d
  }

  /** `championships.filter((c) => c.championship_date)`. */
  function Dated(cs: seq<Championship>): (r: seq<Championship>)
    ensures forall c :: c in r <==> c in cs && DateString(c) != ""
  {
    if |cs| == 0 then []
    else (if DateString(cs[0]) != "" then [cs[0]] else []) + Dated(cs[1..])
  }

  /**
   * The position of an ISO date in calendar order. On `YYYY-MM-DD` strings this is
   * the order `localeCompare` gives, since the strings differ only in digits at
   * equal positions.
   */
  function DayKey(c: Championship): int {
    if IsIsoDate(DateString(c)) then DayNumber(ParseIso(DateString(c))) else 0
  }

  function Later(c: Championship): int {
    -DayKey(c)
  }

  /** Dates never decrease along `s`. */
  predicate AscendingByDay(s: seq<Championship>) {
    forall i, j :: 0 <= i < j < |s| ==> DayKey(s[i]) <= DayKey(s[j])
  }

  /** `sortedByDate`: the dated championships, earliest date first (stable). */
  function SortedByDate(cs: seq<Championship>): (r: seq<Championship>)
    ensures forall c :: c in r <==> c in cs && DateString(c) != ""
    ensures AscendingByDay(r)
  {
    SortDescMembers(Dated(cs), Later);
    SortDesc(Dated(cs), Later)
  }

  /** The first position holding a championship of year `y`. */
  function FirstOfYear(s: seq<Championship>, y: int): (r: Option<nat>)
    ensures r.None? ==> forall j :: 0 <= j < |s| ==> YearOf(s[j]) != y
    ensures r.Some? ==> r.value < |s| && YearOf(s[r.value]) == y
                        && forall j :: 0 <= j < r.value ==> YearOf(s[j]) != y
  {
    if |s| == 0 then None
    else if YearOf(s[0]) == y then Some(0)
    else match FirstOfYear(s[1..], y)
      case None => None
      case Some(k) => Some(k + 1)
  }

  /** The last position holding a championship of year `y`. */
  function LastOfYear(s: seq<Championship>, y: int): (r: Option<nat>)
    ensures r.None? ==> forall j :: 0 <= j < |s| ==> YearOf(s[j]) != y
    ensures r.Some? ==> r.value < |s| && YearOf(s[r.value]) == y
                        && forall j :: r.value < j < |s| ==> YearOf(s[j]) != y
  {
    if |s| == 0 then None
    else if YearOf(s[|s| - 1]) == y then Some(|s| - 1)
    else LastOfYear(s[..|s| - 1], y)
  }

  /** `earliestDateInYear.get(y) || ''`: the first date seen for `y` in date order. */
  function EarliestDateIn(cs: seq<Championship>, y: int): string {
    var s := SortedByDate(cs);
    match FirstOfYear(s, y)
    case None => ""
    case Some(k) => DateString(s[k])
  }

  /** `latestDateInYear.get(y) || ''`: the last date written for `y` in date order. */
  function LatestDateIn(cs: seq<Championship>, y: int): string {
    var s := SortedByDate(cs);
    match LastOfYear(s, y)
    case None => ""
    case Some(k) => DateString(s[k])
  }

  /** No dated championship of year `y` exactly when the date-sorted list has none. */
  lemma NoneOfYear(cs: seq<Championship>, y: int)
    ensures (forall j :: 0 <= j < |SortedByDate(cs)| ==> YearOf(SortedByDate(cs)[j]) != y)
            <==> forall c :: c in cs && DateString(c) != "" ==> YearOf(c) != y
  {
    var s := SortedByDate(cs);
    if forall j :: 0 <= j < |s| ==> YearOf(s[j]) != y {
      forall c | c in cs && DateString(c) != "" ensures YearOf(c) != y {
        var j :| 0 <= j < |s| && s[j] == c;
      }
    } else {
      var j :| 0 <= j < |s| && YearOf(s[j]) == y;
      assert s[j] in s;
    }
  }

  /** In a list in date order, the first championship of a year has that year's earliest date. */
  lemma FirstOfYearLeast(s: seq<Championship>, y: int)
    requires AscendingByDay(s) && FirstOfYear(s, y).Some?
    ensures forall j :: 0 <= j < |s| && YearOf(s[j]) == y ==> DayKey(s[FirstOfYear(s, y).value]) <= DayKey(s[j])
  {
    var k := FirstOfYear(s, y).value;
    forall j | 0 <= j < |s| && YearOf(s[j]) == y ensures DayKey(s[k]) <= DayKey(s[j]) {
      if j != k {
        assert k < j;
      }
    }
  }

  /** In a list in date order, the last championship of a year has that year's latest date. */
  lemma LastOfYearGreatest(s: seq<Championship>, y: int)
    requires AscendingByDay(s) && LastOfYear(s, y).Some?
    ensures forall j :: 0 <= j < |s| && YearOf(s[j]) == y ==> DayKey(s[j]) <= DayKey(s[LastOfYear(s, y).value])
  {
    var k := LastOfYear(s, y).value;
    forall j | 0 <= j < |s| && YearOf(s[j]) == y ensures DayKey(s[j]) <= DayKey(s[k]) {
      if j != k {
        assert j < k;
      }
    }
  }

  /** Every dated championship of `cs` sits somewhere in the date-sorted list. */
  lemma DatedAt(cs: seq<Championship>, c: Championship) returns (j: nat)
    requires c in cs && DateString(c) != ""
    ensures j < |SortedByDate(cs)| && SortedByDate(cs)[j] == c
  {
    var s := SortedByDate(cs);
    assert c in s;
    j :| 0 <= j < |s| && s[j] == c;
  }

  /**
   * The earliest date of a year is "" exactly when no championship of that year is
   * dated; otherwise it is the date of one of them and no date of that year is earlier.
   */
  lemma EarliestDateInMin(cs: seq<Championship>, y: int)
    ensures var e := EarliestDateIn(cs, y);
            && (e == "" <==> forall c :: c in cs && DateString(c) != "" ==> YearOf(c) != y)
            && (e != "" ==> exists c :: c in cs && YearOf(c) == y && DateString(c) == e
                                       && forall c' :: c' in cs && DateString(c') != "" && YearOf(c') == y ==> DayKey(c) <= DayKey(c'))
  {
    var s := SortedByDate(cs);
    NoneOfYear(cs, y);
    var r := FirstOfYear(s, y);
    if r.Some? {
      var c := s[r.value];
      assert c in s;
      FirstIsEarliest(cs, y, s, r.value);
    }
  }

  lemma FirstIsEarliest(cs: seq<Championship>, y: int, s: seq<Championship>, k: nat)
    requires s == SortedByDate(cs) && FirstOfYear(s, y) == Some(k)
    ensures forall c' :: c' in cs && DateString(c') != "" && YearOf(c') == y ==> DayKey(s[k]) <= DayKey(c')
  {
    FirstOfYearLeast(s, y);
    forall c' | c' in cs && DateString(c') != "" && YearOf(c') == y ensures DayKey(s[k]) <= DayKey(c') {
      var j := DatedAt(cs, c');
    }
  }

  /** The latest date of a year, symmetrically: no date of that year is later. */
  lemma LatestDateInMax(cs: seq<Championship>, y: int)
    ensures var e := LatestDateIn(cs, y);
            && (e == "" <==> forall c :: c in cs && DateString(c) != "" ==> YearOf(c) != y)
            && (e != "" ==> exists c :: c in cs && YearOf(c) == y && DateString(c) == e
                                       && forall c' :: c' in cs && DateString(c') != "" && YearOf(c') == y ==> DayKey(c') <= DayKey(c))
  {
    var s := SortedByDate(cs);
    NoneOfYear(cs, y);
    var r := LastOfYear(s, y);
    if r.Some? {
      var c := s[r.value];
      assert c in s;
      LastIsLatestOfYear(cs, y, s, r.value);
    }
  }

  lemma LastIsLatestOfYear(cs: seq<Championship>, y: int, s: seq<Championship>, k: nat)
    requires s == SortedByDate(cs) && LastOfYear(s, y) == Some(k)
    ensures forall c' :: c' in cs && DateString(c') != "" && YearOf(c') == y ==> DayKey(c') <= DayKey(s[k])
  {
    LastOfYearGreatest(s, y);
    forall c' | c' in cs && DateString(c') != "" && YearOf(c') == y ensures DayKey(c') <= DayKey(s[k]) {
      var j := DatedAt(cs, c');
    }
  }

  /** The bounding dates of well-dated championships are ISO dates or "". */
  lemma BoundingDatesIso(cs: seq<Championship>, y: int)
    requires AllWellDated(cs)
    ensures IsoOrEmpty(EarliestDateIn(cs, y)) && IsoOrEmpty(LatestDateIn(cs, y))
  {
    var s := SortedByDate(cs);
    var first := FirstOfYear(s, y);
    var last := LastOfYear(s, y);
    if first.Some? {
      assert s[first.value] in s;
    }
    if last.Some? {
      assert s[last.value] in s;
    }
  }

  lemma AllBoundingDatesIso(cs: seq<Championship>)
    requires AllWellDated(cs)
    ensures forall y :: IsoOrEmpty(LatestDateIn(cs, y)) && IsoOrEmpty(EarliestDateIn(cs, y))
  {
    forall y ensures IsoOrEmpty(LatestDateIn(cs, y)) && IsoOrEmpty(EarliestDateIn(cs, y)) {
      BoundingDatesIso(cs, y);
    }
  }

  predicate IsoOrEmpty(d: string) {
    d == "" || IsIsoDate(d)
  }

  datatype YearsMonths = YearsMonths(years: int, months: int)

  /**
   * `dateDiffYearsMonths`: the whole months from `s` to `e` (a month is not complete
   * before the same day of the month), as years and months with months in 0..11.
   */
  function DateDiffYearsMonths(s: CalendarDate, e: CalendarDate): (r: YearsMonths)
    requires ValidDate(s) && ValidDate(e)
    ensures 0 <= r.months <= 11
    ensures r.years * 12 + r.months == (e.year - s.year) * 12 + (e.month - s.month) - (if e.day < s.day then 1 else 0)
  {
    var yrs := e.year - s.year;
    var mos := (e.month - 1) - (s.month - 1) - (if e.day < s.day then 1 else 0);
    if mos < 0 then YearsMonths(yrs - 1, mos + 12) else YearsMonths(yrs, mos)
  }

  function DayNumber(d: CalendarDate): int {
    d.year * 10000 + d.month * 100 + d.day
  }

  /** From a date to one not before it, the difference is never negative. */
  lemma DateDiffNonNegative(s: CalendarDate, e: CalendarDate)
    requires ValidDate(s) && ValidDate(e) && DayNumber(s) <= DayNumber(e)
    ensures DateDiffYearsMonths(s, e).years >= 0
  {
    var r := DateDiffYearsMonths(s, e);
    assert (e.year - s.year) * 12 + (e.month - s.month) - (if e.day < s.day then 1 else 0) >= 0 by {
      if e.year == s.year {
        assert e.month * 100 + e.day >= s.month * 100 + s.day;
      } else {
        assert e.year > s.year;
      }
    }
  }

  datatype Drought = Drought(years: int, months: int, from: int, to: int, fromDate: string, toDate: string)

  /** The drought between adjacent win years `a` and `b`, bounded by the dates `fd` and `td`. */
  function GapDrought(a: int, b: int, fd: string, td: string): (d: Drought)
    requires IsoOrEmpty(fd) && IsoOrEmpty(td)
    ensures d.from == a && d.to == b && d.fromDate == fd && d.toDate == td
    ensures fd == "" || td == "" ==> d.years == b - a && d.months == 0
    ensures fd != "" && td != "" ==> 0 <= d.months <= 11
  {
    var diff := if fd != "" && td != "" then DateDiffYearsMonths(ParseIso(fd), ParseIso(td)) else YearsMonths(b - a, 0);
    Drought(diff.years, diff.months, a, b, fd, td)
  }

  function Gap(ys: seq<int>, j: int): int
    requires 1 <= j < |ys|
  {
    ys[j] - ys[j - 1]
  }

  /**
   * The scan over adjacent years, as the position of the gap it keeps: a gap
   * replaces the kept one only when strictly longer. Position 0 means none was kept.
   */
  function WidestGap(ys: seq<int>, i: int, longest: int, k: int): (r: int)
    requires 1 <= i <= |ys|
    ensures r == k || i <= r < |ys|
    decreases |ys| - i
  {
    if i == |ys| then k
    else if Gap(ys, i) > longest then WidestGap(ys, i + 1, Gap(ys, i), i)
    else WidestGap(ys, i + 1, longest, k)
  }

  /** The drought spanning the gap before position `k`, with its bounding dates. */
  function AtGap(ys: seq<int>, latest: int -> string, earliest: int -> string, k: int): Drought
    requires 1 <= k < |ys|
    requires forall y :: IsoOrEmpty(latest(y)) && IsoOrEmpty(earliest(y))
  {
    GapDrought(ys[k - 1], ys[k], latest(ys[k - 1]), earliest(ys[k]))
  }

  lemma {:induction false} WidestGapPicks(ys: seq<int>, i: int, longest: int, k: int)
    requires 1 <= i <= |ys|
    ensures var r := WidestGap(ys, i, longest, k);
            || (r == k && forall j :: i <= j < |ys| ==> Gap(ys, j) <= longest)
            || (i <= r < |ys| && longest < Gap(ys, r)
                && (forall j :: i <= j < |ys| ==> Gap(ys, j) <= Gap(ys, r))
                && (forall j :: i <= j < r ==> Gap(ys, j) < Gap(ys, r)))
    decreases |ys| - i
  {
    if i < |ys| {
      if Gap(ys, i) > longest {
        WidestGapPicks(ys, i + 1, Gap(ys, i), i);
      } else {
        WidestGapPicks(ys, i + 1, longest, k);
      }
    }
  }

  /** `drought` from the sorted win years, birth year and current year. */
  function LongestDrought(ys: seq<int>, latest: int -> string, earliest: int -> string, birthYear: int, currentYear: int): Drought
    requires forall y :: IsoOrEmpty(latest(y)) && IsoOrEmpty(earliest(y))
  {
    if |ys| > 1 then
      var k := WidestGap(ys, 1, 0, 0);
      if k == 0 then Drought(0, 0, 0, 0, "", "") else AtGap(ys, latest, earliest, k)
    else if |ys| == 1 then
      var before := ys[0] - birthYear;
      var after := currentYear - ys[0];
      if before >= after then Drought(before, 0, birthYear, ys[0], "", earliest(ys[0]))
      else Drought(after, 0, ys[0], currentYear, latest(ys[0]), "")
    else Drought(0, 0, 0, 0, "", "")
  }

  /**
   * With several win years the drought spans the first strictly largest gap between
   * adjacent years, from the last date of the earlier year to the first date of the
   * later one; a missing date leaves the plain year gap and no months.
   */
  lemma DroughtSeveral(ys: seq<int>, latest: int -> string, earliest: int -> string, birthYear: int, currentYear: int)
    requires StrictlyAscending(ys) && |ys| > 1
    requires forall y :: IsoOrEmpty(latest(y)) && IsoOrEmpty(earliest(y))
    ensures exists k :: 1 <= k < |ys| && LongestDrought(ys, latest, earliest, birthYear, currentYear) == AtGap(ys, latest, earliest, k)
                        && (forall j :: 1 <= j < |ys| ==> Gap(ys, j) <= Gap(ys, k))
                        && (forall j :: 1 <= j < k ==> Gap(ys, j) < Gap(ys, k))
  {
    WidestGapPicks(ys, 1, 0, 0);
    assert Gap(ys, 1) > 0;
  }

  /**
   * With one win year the drought is the longer of the years before it (from the
   * birth year) and after it (to the current year), the years before winning ties.
   */
  lemma DroughtSingle(ys: seq<int>, latest: int -> string, earliest: int -> string, birthYear: int, currentYear: int)
    requires |ys| == 1
    requires forall y :: IsoOrEmpty(latest(y)) && IsoOrEmpty(earliest(y))
    ensures var d := LongestDrought(ys, latest, earliest, birthYear, currentYear);
            var before := ys[0] - birthYear;
            var after := currentYear - ys[0];
            && d.months == 0
            && d.years >= before && d.years >= after && (d.years == before || d.years == after)
            && (d.years == before <==> before >= after)
            && (before >= after ==> d.from == birthYear && d.to == ys[0] && d.fromDate == "" && d.toDate == earliest(ys[0]))
            && (before < after ==> d.from == ys[0] && d.to == currentYear && d.fromDate == latest(ys[0]) && d.toDate == "")
  {
  }

  /** The drought card's data for the championships. */
  function DroughtOf(cs: seq<Championship>, birthYear: int, currentYear: int): Drought
    requires AllWellDated(cs)
  {
    AllBoundingDatesIso(cs);
    LongestDrought(SortedYears(cs), y => LatestDateIn(cs, y), y => EarliestDateIn(cs, y), birthYear, currentYear)
  }

  // ---------------------------------------------------------------------------
  // The current streak
  // ---------------------------------------------------------------------------

  /** The loop counting consecutive win years downward from `y`, never below `birthYear`. */
  function StreakDown(ys: seq<int>, y: int, birthYear: int): (n: nat)
    ensures forall x :: y - n < x <= y ==> x in ys
    ensures n > 0 ==> y - n + 1 >= birthYear
    ensures y - n < birthYear || y - n !in ys
    decreases y - birthYear + 1
  {
    if y < birthYear || y !in ys then 0
    else 1 + StreakDown(ys, y - 1, birthYear)
  }

  /** `lastWinYear`: the latest win year, none without wins. */
  function LastWinYear(ys: seq<int>): (r: Option<int>)
    requires StrictlyAscending(ys)
    ensures r.None? <==> |ys| == 0
    ensures r.Some? ==> r.value in ys && forall y :: y in ys ==> y <= r.value
  {
    if |ys| == 0 then None else Some(ys[|ys| - 1])
  }

  /**
   * `streakLength`: zero unless the latest win year is non-zero (JavaScript's
   * truthiness) and at least `currentYear - 1`; then the number of consecutive
   * win years counting down from it.
   */
  function StreakLength(ys: seq<int>, currentYear: int, birthYear: int): (n: nat)
    requires StrictlyAscending(ys)
    ensures n > 0 ==> |ys| > 0 && ys[|ys| - 1] != 0 && ys[|ys| - 1] >= currentYear - 1
    ensures |ys| > 0 ==> forall x :: ys[|ys| - 1] - n < x <= ys[|ys| - 1] ==> x in ys
    ensures n > 0 ==> ys[|ys| - 1] - n + 1 >= birthYear
    ensures |ys| > 0 && ys[|ys| - 1] != 0 && ys[|ys| - 1] >= currentYear - 1 ==>
              ys[|ys| - 1] - n < birthYear || ys[|ys| - 1] - n !in ys
  {
    match LastWinYear(ys)
    case None => 0
    case Some(last) => if last != 0 && last >= currentYear - 1 then StreakDown(ys, last, birthYear) else 0
  }

  /** `yearsSinceLastWin`: none when the latest win year is absent or 0. */
  function YearsSinceLastWin(ys: seq<int>, currentYear: int): (r: Option<int>)
    requires StrictlyAscending(ys)
    ensures r.Some? <==> |ys| > 0 && ys[|ys| - 1] != 0
    ensures r.Some? ==> r.value == currentYear - ys[|ys| - 1]
    ensures r.Some? ==> forall y :: y in ys ==> currentYear - y >= r.value
    ensures r.Some? ==> exists y :: y in ys && currentYear - y == r.value
  {
    match LastWinYear(ys)
    case None => None
    case Some(last) => if last != 0 then Some(currentYear - last) else None
  }

  /** A running streak means the last title came this year or last year. */
  lemma StreakMeansRecent(ys: seq<int>, currentYear: int, birthYear: int)
    requires StrictlyAscending(ys) && StreakLength(ys, currentYear, birthYear) > 0
    ensures YearsSinceLastWin(ys, currentYear).Some? && YearsSinceLastWin(ys, currentYear).value <= 1
  {
  }

  // ---------------------------------------------------------------------------
  // Time since the last title
  // ---------------------------------------------------------------------------

  datatype Elapsed = Elapsed(years: int, months: int, days: int)

  /** `new Date(today.getFullYear(), today.getMonth(), 0).getDate()`: the length of the month before today's. */
  function PrevMonthDays(today: CalendarDate): (n: int)
    requires ValidDate(today)
    ensures 28 <= n <= 31
  {
    if today.month == 1 then DaysInMonth(today.year - 1, 12) else DaysInMonth(today.year, today.month - 1)
  }

  /**
   * `sinceLastTitle` as the stats bar computes it: a negative day count borrows the
   * length of the month before today's, which is too little when the last title
   * fell on a day that month does not have.
   */
  function SinceLastTitleAsWritten(last: CalendarDate, today: CalendarDate): (r: Elapsed)
    requires ValidDate(last) && ValidDate(today)
    ensures 0 <= r.months <= 11
    ensures r.days >= today.day - last.day
  {
    var yrs := today.year - last.year;
    var mos := today.month - last.month;
    var days := today.day - last.day;
    var mos1 := if days < 0 then mos - 1 else mos;
    var days1 := if days < 0 then days + PrevMonthDays(today) else days;
    if mos1 < 0 then Elapsed(yrs - 1, mos1 + 12, days1) else Elapsed(yrs, mos1, days1)
  }

  /** A title on 31 January 2024 seen on 1 March 2025 is shown as one year, one month and -2 days. */
  lemma SinceLastTitleNegativeDays()
    ensures exists last, today :: ValidDate(last) && ValidDate(today) && DayNumber(last) < DayNumber(today)
                                  && SinceLastTitleAsWritten(last, today).days < 0
  {
    var last := CalendarDate(2024, 1, 31);
    var today := CalendarDate(2025, 3, 1);
    assert ValidDate(last) && ValidDate(today);
    assert SinceLastTitleAsWritten(last, today) == Elapsed(1, 1, -2);
  }

  /**
   * The elapsed time with the borrow fixed: when the last title's day does not
   * exist in the month before today's, the count starts from that month's last day.
   */
  function SinceLastTitle(last: CalendarDate, today: CalendarDate): (r: Elapsed)
    requires ValidDate(last) && ValidDate(today)
    ensures 0 <= r.months <= 11
    ensures 0 <= r.days <= 30
    ensures r.years * 12 + r.months
            == (today.year - last.year) * 12 + (today.month - last.month) - (if today.day < last.day then 1 else 0)
  {
    var yrs := today.year - last.year;
    var mos := today.month - last.month;
    var p := PrevMonthDays(today);
    var mos1 := if today.day < last.day then mos - 1 else mos;
    var days1 := if today.day >= last.day then today.day - last.day
                 else if last.day <= p then today.day + p - last.day
                 else today.day;
    if mos1 < 0 then Elapsed(yrs - 1, mos1 + 12, days1) else Elapsed(yrs, mos1, days1)
  }

  /**
   * The fix changes the result exactly when the last title's day does not exist in
   * the month before today's and today's day is earlier; every negative day count
   * of the original is such a case.
   */
  lemma SinceLastTitleAgrees(last: CalendarDate, today: CalendarDate)
    requires ValidDate(last) && ValidDate(today)
    ensures SinceLastTitle(last, today) == SinceLastTitleAsWritten(last, today)
            <==> today.day >= last.day || last.day <= PrevMonthDays(today)
    ensures SinceLastTitleAsWritten(last, today).days < 0 ==> SinceLastTitle(last, today) != SinceLastTitleAsWritten(last, today)
  {
  }

  /** Its years and months are those `dateDiffYearsMonths` gives for the same two dates. */
  lemma SinceLastTitleMonths(last: CalendarDate, today: CalendarDate)
    requires ValidDate(last) && ValidDate(today)
    ensures SinceLastTitle(last, today).years == DateDiffYearsMonths(last, today).years
    ensures SinceLastTitle(last, today).months == DateDiffYearsMonths(last, today).months
  {
    var r := SinceLastTitle(last, today);
    var q := DateDiffYearsMonths(last, today);
    assert r.years * 12 + r.months == q.years * 12 + q.months;
  }

  /** The latest dated championship's elapsed time, none without one. */
  function SinceLastTitleOf(cs: seq<Championship>, today: CalendarDate): Option<Elapsed>
    requires ValidDate(today)
  {
    var s := SortedByDate(cs);
    if |s| == 0 then None
    else
      var d := DateString(s[|s| - 1]);
      if IsIsoDate(d) then Some(SinceLastTitle(ParseIso(d), today)) else None
  }

  /**
   * The elapsed time is measured from the latest-dated championship; with every
   * date well formed, there is none only when no championship carries a date.
   */
  lemma SinceLastTitleOfCorrect(cs: seq<Championship>, today: CalendarDate)
    requires ValidDate(today)
    ensures var r := SinceLastTitleOf(cs, today);
            r.Some? ==> exists c :: c in cs && IsIsoDate(DateString(c))
                                   && r.value == SinceLastTitle(ParseIso(DateString(c)), today)
                                   && forall c' :: c' in cs && DateString(c') != "" ==> DayKey(c') <= DayKey(c)
    ensures SinceLastTitleOf(cs, today).None? && AllWellDated(cs) ==> forall c :: c in cs ==> DateString(c) == ""
  {
    SinceLastTitleOfLatest(cs, today);
    if AllWellDated(cs) {
      SinceLastTitleOfNone(cs, today);
    }
  }

  lemma SinceLastTitleOfLatest(cs: seq<Championship>, today: CalendarDate)
    requires ValidDate(today)
    ensures var r := SinceLastTitleOf(cs, today);
            r.Some? ==> exists c :: c in cs && IsIsoDate(DateString(c))
                                   && r.value == SinceLastTitle(ParseIso(DateString(c)), today)
                                   && forall c' :: c' in cs && DateString(c') != "" ==> DayKey(c') <= DayKey(c)
  {
    var s := SortedByDate(cs);
    if |s| > 0 {
      LatestDated(cs, s);
      var c := s[|s| - 1];
      if IsIsoDate(DateString(c)) {
        assert SinceLastTitleOf(cs, today).value == SinceLastTitle(ParseIso(DateString(c)), today);
      }
    }
  }

  lemma SinceLastTitleOfNone(cs: seq<Championship>, today: CalendarDate)
    requires ValidDate(today) && AllWellDated(cs)
    ensures SinceLastTitleOf(cs, today).None? ==> forall c :: c in cs ==> DateString(c) == ""
  {
    var s := SortedByDate(cs);
    if |s| > 0 {
      var last := s[|s| - 1];
      assert last in s;
      assert WellDated(last);
      assert SinceLastTitleOf(cs, today).Some?;
    } else {
      assert forall c :: c in cs && DateString(c) != "" ==> c in s;
    }
  }

  lemma LatestDated(cs: seq<Championship>, s: seq<Championship>)
    requires s == SortedByDate(cs) && |s| > 0
    ensures s[|s| - 1] in cs
    ensures forall c' :: c' in cs && DateString(c') != "" ==> DayKey(c') <= DayKey(s[|s| - 1])
  {
    assert s[|s| - 1] in s;
    LastIsLatest(s);
    forall c' | c' in cs && DateString(c') != "" ensures DayKey(c') <= DayKey(s[|s| - 1]) {
      var i := DatedAt(cs, c');
    }
  }

  lemma LastIsLatest(s: seq<Championship>)
    requires AscendingByDay(s) && |s| > 0
    ensures forall j :: 0 <= j < |s| ==> DayKey(s[j]) <= DayKey(s[|s| - 1])
  {
    forall j | 0 <= j < |s| ensures DayKey(s[j]) <= DayKey(s[|s| - 1]) {
      if j < |s| - 1 {
        assert DayKey(s[j]) <= DayKey(s[|s| - 1]);
      }
    }
  }

  // ---------------------------------------------------------------------------
  // Most decorated teams
  // ---------------------------------------------------------------------------

  /** One entry of `teamWins`: the title count and the team the card shows. */
  datatype TeamWin = TeamWin(count: int, league: string, espnId: string, name: string)

  /** The map key `${team_league}-${team_espn_id}`. */
  function TeamKey(c: Championship): string {
    c.team.league + "-" + c.team.espnId
  }

  function WinCount(w: TeamWin): int {
    w.count
  }

  /** The entry of one key: how many championships it has, and the team of the first (groups are never empty). */
  function WinOf(g: Group<string, Championship>): TeamWin {
    if |g.items| == 0 then TeamWin(0, "", "", "")
    else
      var c := g.items[0];
      TeamWin(|g.items|, c.team.league, c.team.espnId, c.team.city + " " + c.team.name)
  }

  function WinsOf(gs: seq<Group<string, Championship>>): (ws: seq<TeamWin>)
    ensures |ws| == |gs| && forall i :: 0 <= i < |gs| ==> ws[i] == WinOf(gs[i])
  {
    if |gs| == 0 then [] else [WinOf(gs[0])] + WinsOf(gs[1..])
  }

  /** `teamWins.values()`: one entry per team key, keys in first-seen order. */
  function TeamWins(cs: seq<Championship>): seq<TeamWin> {
    WinsOf(GroupBy(cs, TeamKey))
  }

  lemma {:induction false} WinsOfSum(gs: seq<Group<string, Championship>>)
    ensures SumOf(WinsOf(gs), WinCount) == TotalSize(gs)
    decreases |gs|
  {
    if |gs| > 0 {
      WinsOfSum(gs[1..]);
      assert WinsOf(gs)[1..] == WinsOf(gs[1..]);
    }
  }

  /**
   * One entry per distinct team key (`uniqueTeams`), in first-seen order; each
   * counts exactly the championships with its key and shows the team of the first
   * of them; the counts add up to the number of championships.
   */
  lemma TeamWinsCorrect(cs: seq<Championship>)
    ensures |TeamWins(cs)| == |Members(KeysOf(cs, TeamKey))|
    ensures SumOf(TeamWins(cs), WinCount) == |cs|
    ensures forall i :: 0 <= i < |TeamWins(cs)| ==>
              var f := Filter(cs, TeamKey, Keys(GroupBy(cs, TeamKey))[i]);
              && |f| > 0 && TeamWins(cs)[i].count == |f|
              && TeamEntry(TeamWins(cs)[i].league, TeamWins(cs)[i].espnId, TeamWins(cs)[i].name) == EntryOf(f[0])
  {
    var g := GroupBy(cs, TeamKey);
    var ws := TeamWins(cs);
    assert ws == WinsOf(g);
    GroupByCorrect(cs, TeamKey);
    DedupFacts(KeysOf(cs, TeamKey));
    WinsOfSum(g);
    forall i | 0 <= i < |ws|
      ensures var f := Filter(cs, TeamKey, Keys(g)[i]);
              && |f| > 0 && ws[i].count == |f|
              && TeamEntry(ws[i].league, ws[i].espnId, ws[i].name) == EntryOf(f[0])
    {
      TeamWinAt(cs, g, i);
    }
  }

  lemma TeamWinAt(cs: seq<Championship>, g: seq<Group<string, Championship>>, i: int)
    requires g == GroupBy(cs, TeamKey) && 0 <= i < |g|
    ensures var f := Filter(cs, TeamKey, Keys(g)[i]);
            && |f| > 0 && WinOf(g[i]).count == |f|
            && TeamEntry(WinOf(g[i]).league, WinOf(g[i]).espnId, WinOf(g[i]).name) == EntryOf(f[0])
  {
    GroupByCorrect(cs, TeamKey);
    assert g[i].key in Keys(g);
    FilterOfKey(cs, TeamKey, g[i].key);
  }

  /** The entries' counts add up to the number of championships, so there are entries exactly when there are championships. */
  lemma TeamWinsSum(cs: seq<Championship>)
    ensures SumOf(TeamWins(cs), WinCount) == |cs|
    ensures |TeamWins(cs)| == 0 <==> |cs| == 0
  {
    var g := GroupBy(cs, TeamKey);
    GroupByCorrect(cs, TeamKey);
    WinsOfSum(g);
    if |TeamWins(cs)| == 0 {
      assert SumOf(TeamWins(cs), WinCount) == 0;
    }
  }

  function SortedTeamWins(cs: seq<Championship>): seq<TeamWin> {
    SortDesc(TeamWins(cs), WinCount)
  }

  /** `sortedTeamWins[0]?.count || 0`. */
  function TopCount(cs: seq<Championship>): int {
    var s := SortedTeamWins(cs);
    if |s| == 0 then 0 else s[0].count
  }

  /** `topTeams`: the sorted entries whose count is the top count. */
  function TopTeams(cs: seq<Championship>): seq<TeamWin> {
    FilterKey(SortedTeamWins(cs), WinCount, TopCount(cs))
  }

  /**
   * The top count is the largest count, held by some team when there are titles;
   * the top teams are exactly the teams holding it, in first-seen order.
   */
  lemma TopTeamsCorrect(cs: seq<Championship>)
    ensures |cs| == 0 ==> TopCount(cs) == 0 && TopTeams(cs) == []
    ensures forall v :: v in TeamWins(cs) ==> v.count <= TopCount(cs)
    ensures |cs| > 0 ==> exists v :: v in TeamWins(cs) && v.count == TopCount(cs)
    ensures forall w :: w in TopTeams(cs) <==> w in TeamWins(cs) && w.count == TopCount(cs)
    ensures TopTeams(cs) == FilterKey(TeamWins(cs), WinCount, TopCount(cs))
  {
    TopCountIsMax(cs, TeamWins(cs), SortedTeamWins(cs));
    TopTeamsFilter(cs, TeamWins(cs), SortedTeamWins(cs));
  }

  lemma TopCountIsMax(cs: seq<Championship>, ws: seq<TeamWin>, s: seq<TeamWin>)
    requires ws == TeamWins(cs) && s == SortDesc(ws, WinCount)
    ensures |cs| == 0 ==> TopCount(cs) == 0 && s == []
    ensures forall v :: v in ws ==> v.count <= TopCount(cs)
    ensures |cs| > 0 ==> exists v :: v in ws && v.count == TopCount(cs)
  {
    TeamWinsSum(cs);
    if |cs| == 0 {
      assert |ws| == 0;
    } else {
      assert |ws| > 0;
      var i := SortDescHead(ws, WinCount);
      assert TopCount(cs) == ws[i].count;
      forall v | v in ws ensures v.count <= TopCount(cs) {
        var j :| 0 <= j < |ws| && ws[j] == v;
      }
    }
  }

  lemma TopTeamsFilter(cs: seq<Championship>, ws: seq<TeamWin>, s: seq<TeamWin>)
    requires ws == TeamWins(cs) && s == SortDesc(ws, WinCount)
    ensures |cs| == 0 ==> TopTeams(cs) == []
    ensures forall w :: w in TopTeams(cs) <==> w in ws && w.count == TopCount(cs)
    ensures TopTeams(cs) == FilterKey(ws, WinCount, TopCount(cs))
  {
    var top := TopCount(cs);
    assert TopTeams(cs) == FilterKey(s, WinCount, top);
    SortDescStable(ws, WinCount, top);
    SortDescMembers(ws, WinCount);
    forall w ensures w in TopTeams(cs) <==> w in ws && w.count == top {
      FilterKeyMember(s, WinCount, top, w);
    }
    if |cs| == 0 {
      TeamWinsSum(cs);
      assert |s| == 0;
    }
  }

  // ---------------------------------------------------------------------------
  // League breakdown
  // ---------------------------------------------------------------------------

  datatype LeagueCount = LeagueCount(league: string, count: int)

  /** `c.league`: the championship's own league column. */
  function RowLeague(c: Championship): string {
    c.row.league
  }

  function Tally(e: LeagueCount): int {
    e.count
  }

  function CountsOf(gs: seq<Group<string, Championship>>): (r: seq<LeagueCount>)
    ensures |r| == |gs| && forall i :: 0 <= i < |gs| ==> r[i] == LeagueCount(gs[i].key, |gs[i].items|)
  {
    if |gs| == 0 then [] else [LeagueCount(gs[0].key, |gs[0].items|)] + CountsOf(gs[1..])
  }

  /** `leagueCounts.entries()`: leagues in first-seen order. */
  function LeagueCounts(cs: seq<Championship>): seq<LeagueCount> {
    CountsOf(GroupBy(cs, RowLeague))
  }

  /** `leagueBreakdown`: the league counts, largest first (stable). */
  function LeagueBreakdown(cs: seq<Championship>): seq<LeagueCount> {
    SortDesc(LeagueCounts(cs), Tally)
  }

  lemma {:induction false} CountsOfSum(gs: seq<Group<string, Championship>>)
    ensures SumOf(CountsOf(gs), Tally) == TotalSize(gs)
    decreases |gs|
  {
    if |gs| > 0 {
      CountsOfSum(gs[1..]);
      assert CountsOf(gs)[1..] == CountsOf(gs[1..]);
    }
  }

  /**
   * Each league with a championship is listed once, with the number of its
   * championships, and nothing else is listed; the counts add up to the total.
   */
  lemma LeagueCountsCorrect(cs: seq<Championship>)
    ensures SumOf(LeagueCounts(cs), Tally) == |cs|
    ensures forall e :: e in LeagueCounts(cs) ==> e.count == |Filter(cs, RowLeague, e.league)| && e.count > 0
    ensures forall c :: c in cs ==> LeagueCount(c.row.league, |Filter(cs, RowLeague, c.row.league)|) in LeagueCounts(cs)
    ensures forall i, j :: 0 <= i < j < |LeagueCounts(cs)| ==> LeagueCounts(cs)[i].league != LeagueCounts(cs)[j].league
  {
    var g := GroupBy(cs, RowLeague);
    var r := LeagueCounts(cs);
    GroupByCorrect(cs, RowLeague);
    CountsOfSum(g);
    forall e | e in r ensures e.count == |Filter(cs, RowLeague, e.league)| && e.count > 0 {
      var i :| 0 <= i < |r| && r[i] == e;
      assert g[i].key in Keys(g);
      FilterOfKey(cs, RowLeague, g[i].key);
    }
    forall c | c in cs ensures LeagueCount(c.row.league, |Filter(cs, RowLeague, c.row.league)|) in r {
      var n :| 0 <= n < |cs| && cs[n] == c;
      assert KeysOf(cs, RowLeague)[n] == c.row.league;
      assert c.row.league in Keys(g);
      var i :| 0 <= i < |g| && Keys(g)[i] == c.row.league;
      assert r[i] == LeagueCount(c.row.league, |Filter(cs, RowLeague, c.row.league)|);
    }
    forall i, j | 0 <= i < j < |r| ensures r[i].league != r[j].league {
      assert Keys(g)[i] != Keys(g)[j];
    }
  }

  /**
   * The breakdown lists the same league counts, largest first, with equal counts
   * kept in first-seen order; its counts add up to the number of championships.
   */
  lemma LeagueBreakdownCorrect(cs: seq<Championship>)
    ensures SortedDesc(LeagueBreakdown(cs), Tally)
    ensures SumOf(LeagueBreakdown(cs), Tally) == |cs|
    ensures forall e :: e in LeagueBreakdown(cs) <==> e in LeagueCounts(cs)
    ensures forall i, j :: 0 <= i < j < |LeagueBreakdown(cs)| ==> LeagueBreakdown(cs)[i].league != LeagueBreakdown(cs)[j].league
    ensures forall v :: FilterKey(LeagueBreakdown(cs), Tally, v) == FilterKey(LeagueCounts(cs), Tally, v)
  {
    var r := LeagueCounts(cs);
    var b := LeagueBreakdown(cs);
    assert b == SortDesc(r, Tally);
    LeagueCountsCorrect(cs);
    SumOfPermutation(b, r, Tally);
    SortDescMembers(r, Tally);
    SortKeepsLeaguesDistinct(r, b);
    forall v ensures FilterKey(b, Tally, v) == FilterKey(r, Tally, v) {
      SortDescStable(r, Tally, v);
    }
  }

  /** Sorting a list of counts with distinct leagues keeps the leagues distinct. */
  lemma SortKeepsLeaguesDistinct(r: seq<LeagueCount>, b: seq<LeagueCount>)
    requires forall i, j :: 0 <= i < j < |r| ==> r[i].league != r[j].league
    requires b == SortDesc(r, Tally)
    ensures forall i, j :: 0 <= i < j < |b| ==> b[i].league != b[j].league
  {
    assert Distinct(r) by {
      forall i, j | 0 <= i < j < |r| ensures r[i] != r[j] {
        assert r[i].league != r[j].league;
      }
    }
    PermutationDistinct(r, b);
    SortDescMembers(r, Tally);
    forall i, j | 0 <= i < j < |b| ensures b[i].league != b[j].league {
      assert b[i] in r && b[j] in r;
      LeaguesDiffer(r, b[i], b[j]);
    }
  }

  lemma LeaguesDiffer(r: seq<LeagueCount>, x: LeagueCount, y: LeagueCount)
    requires forall i, j :: 0 <= i < j < |r| ==> r[i].league != r[j].league
    requires x in r && y in r && x != y
    ensures x.league != y.league
  {
    var i :| 0 <= i < |r| && r[i] == x;
    var j :| 0 <= j < |r| && r[j] == y;
    assert i != j;
  }

  // ---------------------------------------------------------------------------
  // Titles of the longest streak
  // ---------------------------------------------------------------------------

  datatype StreakTitle = StreakTitle(year: int, league: string, espnId: string)

  function TitlesOf(y: int, cs: seq<Championship>): (r: seq<StreakTitle>)
    ensures |r| == |cs|
    ensures forall i :: 0 <= i < |cs| ==> r[i] == StreakTitle(y, cs[i].team.league, cs[i].team.espnId)
  {
    if |cs| == 0 then [] else [StreakTitle(y, cs[0].team.league, cs[0].team.espnId)] + TitlesOf(y, cs[1..])
  }

  /** `streakTitles`: for each year from `lo` to `hi`, the titles `yearChamps` holds for it. */
  function StreakTitles(cs: seq<Championship>, lo: int, hi: int): seq<StreakTitle>
    decreases hi - lo + 1
  {
    if lo > hi then []
    else TitlesOf(lo, ItemsOf(YearChamps(cs), lo)) + StreakTitles(cs, lo + 1, hi)
  }

  /** The championships whose year lies in `[lo, hi]`, in order. */
  function InYears(cs: seq<Championship>, lo: int, hi: int): (r: seq<Championship>)
    ensures forall c :: c in r <==> c in cs && lo <= YearOf(c) <= hi
    ensures lo > hi ==> r == []
  {
    if |cs| == 0 then []
    else (if lo <= YearOf(cs[0]) <= hi then [cs[0]] else []) + InYears(cs[1..], lo, hi)
  }

  lemma {:induction false} InYearsSplit(cs: seq<Championship>, lo: int, hi: int)
    requires lo <= hi
    ensures |InYears(cs, lo, hi)| == |Filter(cs, YearOf, lo)| + |InYears(cs, lo + 1, hi)|
    decreases |cs|
  {
    if |cs| > 0 {
      InYearsSplit(cs[1..], lo, hi);
    }
  }

  /** There is one streak title per championship whose year lies in the streak. */
  lemma {:induction false} StreakTitlesCount(cs: seq<Championship>, lo: int, hi: int)
    ensures |StreakTitles(cs, lo, hi)| == |InYears(cs, lo, hi)|
    decreases hi - lo + 1
  {
    if lo <= hi {
      ItemsOfGroupBy(cs, YearOf, lo);
      StreakTitlesCount(cs, lo + 1, hi);
      InYearsSplit(cs, lo, hi);
    }
  }

  /** Some championship of year `t.year` was won by the team `t` shows. */
  ghost predicate IsTitleOf(cs: seq<Championship>, t: StreakTitle) {
    exists c :: c in cs && YearOf(c) == t.year && c.team.league == t.league && c.team.espnId == t.espnId
  }

  /** Each streak title is the team of a championship won in a year of the streak. */
  lemma {:induction false} StreakTitlesSound(cs: seq<Championship>, lo: int, hi: int)
    ensures forall t :: t in StreakTitles(cs, lo, hi) ==> lo <= t.year <= hi
    ensures forall t :: t in StreakTitles(cs, lo, hi) ==> IsTitleOf(cs, t)
    decreases hi - lo + 1
  {
    if lo <= hi {
      ItemsOfGroupBy(cs, YearOf, lo);
      StreakTitlesSound(cs, lo + 1, hi);
      var f := Filter(cs, YearOf, lo);
      forall t | t in TitlesOf(lo, f) ensures IsTitleOf(cs, t) {
        var i :| 0 <= i < |f| && TitlesOf(lo, f)[i] == t;
        assert f[i] in cs && YearOf(f[i]) == lo;
      }
    }
  }

  /** When every year of the streak won a title, there are at least as many titles as years. */
  lemma {:induction false} StreakTitlesAtLeast(cs: seq<Championship>, lo: int, hi: int)
    requires forall y :: lo <= y <= hi ==> y in UniqueYears(cs)
    ensures |StreakTitles(cs, lo, hi)| >= hi - lo + 1
    decreases hi - lo + 1
  {
    if lo <= hi {
      assert lo in UniqueYears(cs);
      YearHasTitles(cs, lo);
      StreakTitlesAtLeast(cs, lo + 1, hi);
    }
  }

  /** A year some championship was won in holds at least one title in `yearChamps`. */
  lemma YearHasTitles(cs: seq<Championship>, y: int)
    requires y in UniqueYears(cs)
    ensures |TitlesOf(y, ItemsOf(YearChamps(cs), y))| >= 1
  {
    ItemsOfGroupBy(cs, YearOf, y);
    DedupMember(KeysOf(cs, YearOf), y);
    FilterOfKey(cs, YearOf, y);
  }
}
