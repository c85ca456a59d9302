/**
 * The timeline page (`src/routes/timeline.tsx`): its search parameters, the
 * team-id list it reads from the URL, the merge of wins and losses, the
 * per-year buckets with wins before losses, and the list of years it draws.
 */
module Timeline {
  import opened Wrappers
  import opened Strings
  import opened Sorting
  import opened Grouping
  import opened Dates
  import opened Db
  import opened TimelineUtils
  import opened Stats

  // ---------------------------------------------------------------------------
  // validateSearch
  // ---------------------------------------------------------------------------

  /** A raw search-parameter value: absent, a string, a boolean, a number, or an object or array. */
  datatype Param = Missing | Text(s: string) | Flag(b: bool) | Num(n: int) | Composite

  /** JavaScript truthiness of a parameter value. */
  predicate ParamTruthy(p: Param) {
    match p
    case Missing => false
    case Text(s) => s != ""
    case Flag(b) => b
    case Num(n) => n != 0
    case Composite => true
  }

  /** The validated search; `dob` and `teams` keep whatever truthy value the URL held. */
  datatype TimelineSearch = TimelineSearch(dob: Param, teams: Param, losses: Option<bool>)

  /**
   * `(value as string) || ''`: the cast converts nothing, so a truthy value of
   * any type is kept as it is and every falsy one becomes the empty string.
   */
  function StringOrEmpty(p: Param): (r: Param)
    ensures ParamTruthy(p) ==> r == p
    ensures !ParamTruthy(p) ==> r == Text("")
  {
    if ParamTruthy(p) then p else Text("")
  }

  /** `losses` is `false` for the boolean or the string `false`, and absent otherwise. */
  function LossesParam(p: Param): (r: Option<bool>)
    ensures r == Some(false) <==> p == Flag(false) || p == Text("false")
    ensures r != Some(true)
  {
    if p == Flag(false) || p == Text("false") then Some(false) else None
  }

  function ValidateSearch(dob: Param, teams: Param, losses: Param): TimelineSearch {
    TimelineSearch(StringOrEmpty(dob), StringOrEmpty(teams), LossesParam(losses))
  }

  /** The parameter that writes a validated `losses` back into the URL. */
  function LossesValue(losses: Option<bool>): Param {
    if losses == Some(false) then Flag(false) else Missing
  }

  /** Validating an already validated search changes nothing. */
  lemma ValidateSearchIdempotent(dob: Param, teams: Param, losses: Param)
    ensures var s := ValidateSearch(dob, teams, losses);
            ValidateSearch(s.dob, s.teams, LossesValue(s.losses)) == s
  {
  }

  /**
   * The loader's `teamIds`: `split` exists only on strings, so a kept value of
   * any other type throws (`None`).
   */
  function LoaderTeamIds(teams: Param): (r: Option<seq<nat>>)
    ensures r.Some? <==> teams.Text?
    ensures r.Some? ==> forall i :: 0 <= i < |r.value| ==> r.value[i] > 0
  {
    if teams.Text? then Some(ParseTeamIds(teams.s)) else None
  }

  /**
   * After validation the loader reads the ids of a string, no ids when the
   * parameter was falsy, and throws on a truthy value that is not a string.
   */
  lemma LoaderTeamIdsCorrect(dob: Param, teams: Param, losses: Param)
    ensures var ids := LoaderTeamIds(ValidateSearch(dob, teams, losses).teams);
            && (ids.None? <==> ParamTruthy(teams) && !teams.Text?)
            && (!ParamTruthy(teams) ==> ids == Some([]))
            && (teams.Text? ==> ids == Some(ParseTeamIds(teams.s)))
  {
    var s := ValidateSearch(dob, teams, losses);
    if !ParamTruthy(teams) {
      assert s.teams == Text("");
      NoIdsInEmpty();
    }
  }

  /** Losses are drawn unless the parameter is `false`. */
  predicate ShowLosses(s: TimelineSearch) {
    s.losses != Some(false)
  }

  /** The parameter `setHideLosses` writes: `false` to hide losses, absent to show them. */
  function HideParam(hidden: bool): Param {
    if hidden then Flag(false) else Missing
  }

  /**
   * The toggle survives the trip through the URL, whether the parameter comes
   * back as a boolean or as its string form, and any other value shows losses.
   */
  lemma HideLossesRoundTrip(dob: Param, teams: Param, hidden: bool)
    ensures ShowLosses(ValidateSearch(dob, teams, HideParam(hidden))) <==> !hidden
    ensures hidden ==> !ShowLosses(ValidateSearch(dob, teams, Text("false")))
    ensures forall p :: p != Flag(false) && p != Text("false") ==> ShowLosses(ValidateSearch(dob, teams, p))
  {
  }

  // ---------------------------------------------------------------------------
  // The team ids in the URL
  // ---------------------------------------------------------------------------

  /**
   * `Number(token)` on the tokens modelled: after trimming, a run of digits (none
   * reads as 0) is its value, and anything else is NaN.
   */
  function NumberOf(tok: string): Option<nat> {
    var t := Trim(tok);
    if AllDigits(t) then Some(DigitsValue(t)) else None
  }

  /** `.map(Number).filter(n => !isNaN(n) && n > 0)`. */
  function Positive(toks: seq<string>): (r: seq<nat>)
    ensures forall i :: 0 <= i < |r| ==> r[i] > 0
  {
    if |toks| == 0 then []
    else
      var n := NumberOf(toks[0]);
      (if n.Some? && n.value > 0 then [n.value] else []) + Positive(toks[1..])
  }

  /** The loader's `teamIds`. */
  function ParseTeamIds(teams: string): seq<nat> {
    Positive(Split(teams, ','))
  }

  /** An empty parameter names no team: its one token reads as 0. */
  lemma NoIdsInEmpty()
    ensures ParseTeamIds("") == []
  {
    assert Split("", ',') == [""];
    assert NumberOf("") == Some(0);
  }

  /** The kept ids are exactly the positive numbers among the tokens. */
  lemma {:induction false} PositiveMembers(toks: seq<string>, x: nat)
    ensures x in Positive(toks) <==> x > 0 && exists tok :: tok in toks && NumberOf(tok) == Some(x)
    decreases |toks|
  {
    if |toks| > 0 {
      PositiveMembers(toks[1..], x);
      if exists tok :: tok in toks && NumberOf(tok) == Some(x) {
        var tok :| tok in toks && NumberOf(tok) == Some(x);
        if tok != toks[0] {
          assert tok in toks[1..];
        }
      }
      assert forall tok :: tok in toks[1..] ==> tok in toks;
    }
  }

  /** How the selection page writes ids: `Array.from(selectedIds).join(',')`. */
  function EncodeTeamIds(ids: seq<nat>): string {
    Join(Decimals(ids), ",")
  }

  function Decimals(ids: seq<nat>): (r: seq<string>)
    ensures |r| == |ids|
    ensures forall i :: 0 <= i < |r| ==> r[i] == NatToString(ids[i])
  {
    if |ids| == 0 then [] else [NatToString(ids[0])] + Decimals(ids[1..])
  }

  lemma NumberOfNat(n: nat)
    ensures NumberOf(NatToString(n)) == Some(n)
  {
    var s := NatToString(n);
    assert IsDigit(s[0]) && IsDigit(s[|s| - 1]);
    TrimNoSpace(s);
    NatToStringRoundTrip(n);
  }

  lemma {:induction false} PositiveDecimals(ids: seq<nat>)
    requires forall i :: 0 <= i < |ids| ==> ids[i] > 0
    ensures Positive(Decimals(ids)) == ids
    decreases |ids|
  {
    if |ids| > 0 {
      PositiveCons(ids[0], Decimals(ids[1..]));
      PositiveDecimals(ids[1..]);
      assert ids == [ids[0]] + ids[1..];
    }
  }

  lemma PositiveCons(n: nat, rest: seq<string>)
    requires n > 0
    ensures Positive([NatToString(n)] + rest) == [n] + Positive(rest)
  {
    NumberOfNat(n);
    assert ([NatToString(n)] + rest)[1..] == rest;
  }

  /** Positive ids written by the selection page are read back by the timeline, in order. */
  lemma TeamIdsRoundTrip(ids: seq<nat>)
    requires forall i :: 0 <= i < |ids| ==> ids[i] > 0
    ensures ParseTeamIds(EncodeTeamIds(ids)) == ids
  {
    var parts := Decimals(ids);
    if |ids| == 0 {
      assert EncodeTeamIds(ids) == "";
      NoIdsInEmpty();
    } else {
      assert forall i :: 0 <= i < |parts| ==> ',' !in parts[i];
      SplitJoin(parts, ',');
      PositiveDecimals(ids);
    }
  }

  // ---------------------------------------------------------------------------
  // Merging and grouping by year
  // ---------------------------------------------------------------------------

  function Tagged(cs: seq<Championship>, isLoss: bool): (r: seq<TimelineItem>)
    ensures |r| == |cs|
    ensures forall i :: 0 <= i < |r| ==> r[i] == TimelineItem(cs[i], isLoss)
  {
    if |cs| == 0 then [] else [TimelineItem(cs[0], isLoss)] + Tagged(cs[1..], isLoss)
  }

  /** `allItems`: the wins, then the losses when they are shown. */
  function AllItems(wins: seq<Championship>, losses: seq<Championship>, show: bool): (r: seq<TimelineItem>)
    ensures |r| == |wins| + (if show then |losses| else 0)
    ensures forall i :: 0 <= i < |wins| ==> r[i] == TimelineItem(wins[i], false)
    ensures forall i :: |wins| <= i < |r| ==> r[i] == TimelineItem(losses[i - |wins|], true)
    ensures !show ==> forall t :: t in r ==> !t.isLoss
  {
    Tagged(wins, false) + (if show then Tagged(losses, true) else [])
  }

  function ItemYear(t: TimelineItem): int {
    YearOf(t.c)
  }

  /** The sort key that puts wins (1) before losses (0). */
  function WinFirst(t: TimelineItem): int {
    if t.isLoss then 0 else 1
  }

  /** Each year's list sorted by the stable wins-first comparator. */
  function SortBuckets(gs: seq<Group<int, TimelineItem>>): (r: seq<Group<int, TimelineItem>>)
    ensures |r| == |gs| && Keys(r) == Keys(gs)
    ensures forall i :: 0 <= i < |r| ==> r[i].items == SortDesc(gs[i].items, WinFirst)
    ensures TotalSize(r) == TotalSize(gs)
  {
    if |gs| == 0 then []
    else [Group(gs[0].key, SortDesc(gs[0].items, WinFirst))] + SortBuckets(gs[1..])
  }

  /** `byYear` after its lists are sorted. */
  function ByYear(items: seq<TimelineItem>): seq<Group<int, TimelineItem>> {
    SortBuckets(GroupBy(items, ItemYear))
  }

  /** A list sorted wins-first is its wins followed by its losses, each in original order. */
  lemma WinsThenLosses(items: seq<TimelineItem>)
    ensures SortDesc(items, WinFirst) == FilterKey(items, WinFirst, 1) + FilterKey(items, WinFirst, 0)
  {
    var r := SortDesc(items, WinFirst);
    SortedTwoClasses(r, WinFirst);
    SortDescStable(items, WinFirst, 1);
    SortDescStable(items, WinFirst, 0);
  }

  /**
   * The buckets: one per distinct year in first-appearance order, each holding
   * exactly that year's items with the wins first and the losses after, both in
   * merge order; no item is lost or put in two buckets.
   */
  lemma ByYearCorrect(items: seq<TimelineItem>)
    ensures var g := ByYear(items);
            && Keys(g) == Dedup(KeysOf(items, ItemYear))
            && Distinct(Keys(g))
            && TotalSize(g) == |items|
            && forall i :: 0 <= i < |g| ==>
                 var ys := Filter(items, ItemYear, g[i].key);
                 g[i].items == FilterKey(ys, WinFirst, 1) + FilterKey(ys, WinFirst, 0)
  {
    var u := GroupBy(items, ItemYear);
    GroupByCorrect(items, ItemYear);
    var g := ByYear(items);
    forall i | 0 <= i < |g|
      ensures var ys := Filter(items, ItemYear, g[i].key);
              g[i].items == FilterKey(ys, WinFirst, 1) + FilterKey(ys, WinFirst, 0)
    {
      assert g[i].key == Keys(g)[i] == Keys(u)[i] == u[i].key;
      WinsThenLosses(u[i].items);
    }
  }

  // ---------------------------------------------------------------------------
  // The years drawn
  // ---------------------------------------------------------------------------

  /** `new Date(dob + 'T00:00:00').getFullYear()`; not a number unless `dob` is an ISO date. */
  function BirthYear(dob: string): Option<int> {
    SinceYear(dob)
  }

  /**
   * `Array.from({ length: currentYear - birthYear + 1 }, (_, i) => currentYear - i)`;
   * a negative or not-a-number length gives no years.
   */
  function AllYears(current: int, birth: Option<int>): (ys: seq<int>)
    ensures forall i :: 0 <= i < |ys| ==> ys[i] == current - i
  {
    if birth.None? || current - birth.value + 1 <= 0 then []
    else seq(current - birth.value + 1, i => current - i)
  }

  /**
   * The years run strictly downward from the current year to the birth year,
   * each year in between exactly once.
   */
  lemma AllYearsCorrect(current: int, birth: int)
    ensures var ys := AllYears(current, Some(birth));
            && |ys| == (if birth <= current + 1 then current - birth + 1 else 0)
            && (forall i, j :: 0 <= i < j < |ys| ==> ys[i] > ys[j])
            && (forall y :: y in ys <==> birth <= y <= current)
  {
    var ys := AllYears(current, Some(birth));
    forall y | birth <= y <= current ensures y in ys {
      assert ys[current - y] == y;
    }
  }
}
