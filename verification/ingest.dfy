/**
 * The championship ingestion job (`cron/src/index.ts`). For each configured
 * league it reads the provider's post-season scoreboard, keeps the events that
 * look like the title game, decides winner and loser, builds the title and the
 * date, and inserts one row per (league, year, game title) into the store.
 *
 * Deciding what to do with an event is pure (`SingleGamePlan`, `SeriesPlan`);
 * only `Insert` looks at the store. The provider's responses are inputs and the
 * store is a sequence of rows.
 */
module Ingest {
  import opened Wrappers
  import opened Strings
  import opened Sorting
  import opened Db

  // ---------------------------------------------------------------------------
  // Configuration and provider data
  // ---------------------------------------------------------------------------

  datatype LeagueConfig = LeagueConfig(
    league: string,
    sport: string,
    espnLeague: string,
    keywords: seq<string>,
    gameTitle: string,
    isSeries: bool)

  const Leagues: seq<LeagueConfig> := [
    LeagueConfig("NFL", "football", "nfl", ["Super Bowl"], "Super Bowl", false),
    LeagueConfig("MLB", "baseball", "mlb", ["World Series"], "World Series", true),
    LeagueConfig("NBA", "basketball", "nba", ["NBA Finals"], "NBA Finals", true),
    LeagueConfig("NHL", "hockey", "nhl", ["Stanley Cup"], "Stanley Cup Finals", true),
    LeagueConfig("CFB", "football", "college-football", ["National Championship"], "CFP National Championship", false),
    LeagueConfig("CBB", "basketball", "mens-college-basketball", ["National Championship"], "NCAA Championship Game", false)
  ]

  /** A side of a game; `winner` is the provider's optional flag. */
  datatype Competitor = Competitor(teamId: string, displayName: string, score: string, winner: Option<bool>)

  datatype Series = Series(completed: bool, summary: string)

  datatype Competition = Competition(competitors: seq<Competitor>, series: Option<Series>, date: string)

  /** A scoreboard event; `completed` is `status.type.completed`, `notes` the note headlines. */
  datatype Event = Event(
    name: string,
    seasonYear: int,
    completed: bool,
    competitions: seq<Competition>,
    notes: Option<seq<string>>)

  /** The scoreboard response: a non-2xx status, or a body whose `events` may be missing. */
  datatype Feed = HttpError(status: int) | Body(events: Option<seq<Event>>)

  /**
   * The ways processing an event throws: reading a field of the missing first
   * competition, of the missing first competitor, of a missing winner or loser;
   * a game score that does not read as a number; and a sort whose comparator is
   * inconsistent (a score that is not a number among two numbers that differ),
   * whose order JavaScript leaves to the engine.
   */
  datatype IngestError = NoCompetition | NoCompetitors | MissingWinner | MissingLoser | NonNumericScore
                       | UnorderedScores

  // ---------------------------------------------------------------------------
  // matchesKeywords
  // ---------------------------------------------------------------------------

  function LowerAll(ss: seq<string>): (r: seq<string>)
    ensures |r| == |ss|
    ensures forall i :: 0 <= i < |ss| ==> r[i] == ToLower(ss[i])
  {
    if |ss| == 0 then [] else [ToLower(ss[0])] + LowerAll(ss[1..])
  }

  /** The lowercased name, a space, and the lowercased note headlines joined by spaces. */
  function CombinedText(e: Event): string {
    ToLower(e.name) + " " + Join(LowerAll(e.notes.GetOr([])), " ")
  }

  function AnyIncluded(text: string, keywords: seq<string>): (b: bool)
    ensures b <==> exists k :: 0 <= k < |keywords| && Includes(text, ToLower(keywords[k]))
  {
    if |keywords| == 0 then false
    else if Includes(text, ToLower(keywords[0])) then true
    else
      assert forall k :: 1 <= k < |keywords| ==> keywords[k] == keywords[1..][k - 1];
      AnyIncluded(text, keywords[1..])
  }

  /** `matchesKeywords`: some lowercased keyword occurs in the combined lowercased text. */
  function MatchesKeywords(e: Event, keywords: seq<string>): (b: bool)
    ensures b <==> exists k :: 0 <= k < |keywords| && Includes(CombinedText(e), ToLower(keywords[k]))
  {
    AnyIncluded(CombinedText(e), keywords)
  }

  /** A keyword found in the name, in any letter case, matches whatever the notes say. */
  lemma NameKeywordMatches(e: Event, keywords: seq<string>, k: int)
    requires 0 <= k < |keywords| && Includes(ToLower(e.name), ToLower(keywords[k]))
    ensures MatchesKeywords(e, keywords)
  {
    var at :| OccursAt(ToLower(e.name), ToLower(keywords[k]), at);
    OccursInLeft(ToLower(e.name), " " + Join(LowerAll(e.notes.GetOr([])), " "), ToLower(keywords[k]), at);
    assert CombinedText(e) == ToLower(e.name) + (" " + Join(LowerAll(e.notes.GetOr([])), " "));
  }

  // ---------------------------------------------------------------------------
  // parseSeriesSummary
  // ---------------------------------------------------------------------------

  /** `/(\d+)-(\d+)/` matches `s[i..k]`, its first group being `s[i..j]` and its second `s[j+1..k]`. */
  ghost predicate PairAt(s: string, i: int, j: int, k: int) {
    0 <= i < j && j + 1 < k <= |s| && AllDigits(s[i..j]) && s[j] == '-' && AllDigits(s[j + 1..k])
  }

  predicate StartsPair(s: string, i: nat)
    requires i <= |s|
  {
    i < |s| && IsDigit(s[i]) &&
    var j := DigitRunEnd(s, i);
    j + 1 < |s| && s[j] == '-' && IsDigit(s[j + 1])
  }

  lemma StartsPairIffPair(s: string, i: nat)
    requires i <= |s|
    ensures StartsPair(s, i) <==> exists j, k :: PairAt(s, i, j, k)
  {
    if StartsPair(s, i) {
      var j := DigitRunEnd(s, i);
      assert PairAt(s, i, j, j + 2);
    }
    if exists j, k :: PairAt(s, i, j, k) {
      var j, k :| PairAt(s, i, j, k);
      DigitRunEndIs(s, i, j);
      assert IsDigit(s[j + 1..k][0]);
      assert IsDigit(s[i..j][0]);
    }
  }

  /** The leftmost position from `from` on where the pattern matches. */
  function FindPair(s: string, from: nat): (r: Option<nat>)
    requires from <= |s|
    ensures r.Some? ==> from <= r.value <= |s| && StartsPair(s, r.value)
    ensures r.Some? ==> forall i :: from <= i < r.value ==> !StartsPair(s, i)
    ensures r.None? ==> forall i :: from <= i <= |s| ==> !StartsPair(s, i)
    decreases |s| - from
  {
    if from == |s| then None
    else if StartsPair(s, from) then Some(from)
    else FindPair(s, from + 1)
  }

  function Max(a: int, b: int): int {
    if a >= b then a else b
  }

  function Min(a: int, b: int): int {
    if a <= b then a else b
  }

  /**
   * `parseSeriesSummary`: the games won by each side, read from the leftmost
   * `digits-digits` pair, larger count first.
   */
  function ParseSeriesSummary(s: string): (r: Option<(int, int)>)
    ensures r.None? <==> forall i, j, k :: !PairAt(s, i, j, k)
    ensures r.Some? ==> 0 <= r.value.1 <= r.value.0
    ensures r.Some? ==>
      exists i, j, k :: PairAt(s, i, j, k) && (k == |s| || !IsDigit(s[k]))
        && (forall i', j', k' :: PairAt(s, i', j', k') ==> i <= i')
        && r.value == (Max(DigitsValue(s[i..j]), DigitsValue(s[j + 1..k])),
                       Min(DigitsValue(s[i..j]), DigitsValue(s[j + 1..k])))
  {
    match FindPair(s, 0)
    case None =>
      FindPairNone(s);
      None
    case Some(i) =>
      var j := DigitRunEnd(s, i);
      var k := DigitRunEnd(s, j + 1);
      var a := DigitsValue(s[i..j]);
      var b := DigitsValue(s[j + 1..k]);
      assert PairAt(s, i, j, k) by {
        assert IsDigit(s[j + 1]);
      }
      FindPairLeftmost(s, i);
      Some((Max(a, b), Min(a, b)))
  }

  lemma FindPairNone(s: string)
    requires FindPair(s, 0).None?
    ensures forall i, j, k :: !PairAt(s, i, j, k)
  {
    forall i, j, k | PairAt(s, i, j, k) ensures false {
      StartsPairIffPair(s, i);
    }
  }

  lemma FindPairLeftmost(s: string, i: nat)
    requires FindPair(s, 0) == Some(i)
    ensures forall i', j', k' :: PairAt(s, i', j', k') ==> i <= i'
  {
    forall i', j', k' | PairAt(s, i', j', k') ensures i <= i' {
      StartsPairIffPair(s, i');
    }
  }

  /** "4-2" gives four games to two. */
  lemma SeriesSummaryPlain()
    ensures ParseSeriesSummary("4-2") == Some((4, 2))
  {
    var t := "4-2";
    assert DigitRunEnd(t, 1) == 1;
    assert DigitRunEnd(t, 0) == 1;
    assert DigitRunEnd(t, 3) == 3;
    assert DigitRunEnd(t, 2) == 3;
    assert StartsPair(t, 0);
    assert t[0..1] == "4" && t[2..3] == "2";
    assert DigitsValue("4") == 4 && DigitsValue("2") == 2;
  }

  /** The larger count comes first whatever order the summary gives them in. */
  lemma SeriesSummaryReversed()
    ensures ParseSeriesSummary("2-4") == Some((4, 2))
  {
    var t := "2-4";
    assert DigitRunEnd(t, 1) == 1;
    assert DigitRunEnd(t, 0) == 1;
    assert DigitRunEnd(t, 3) == 3;
    assert DigitRunEnd(t, 2) == 3;
    assert StartsPair(t, 0);
    assert t[0..1] == "2" && t[2..3] == "4";
    assert DigitsValue("4") == 4 && DigitsValue("2") == 2;
  }

  /** "Series tied 3-3" reads as three games each. */
  lemma SeriesSummaryTied()
    ensures ParseSeriesSummary("Series tied 3-3") == Some((3, 3))
  {
    var t := "Series tied 3-3";
    SeriesTiedWords(t);
    SeriesTiedScore(t);
    FindPairSkips(t, 0, 12);
    assert t[12..13] == "3" && t[14..15] == "3";
    assert DigitsValue("3") == 3;
  }

  lemma SeriesTiedWords(t: string)
    requires t == "Series tied 3-3"
    ensures forall i :: 0 <= i < 12 ==> !StartsPair(t, i)
  {
    forall i | 0 <= i < 12 ensures !StartsPair(t, i) {
      assert !IsDigit(t[i]);
    }
  }

  lemma SeriesTiedScore(t: string)
    requires t == "Series tied 3-3"
    ensures DigitRunEnd(t, 12) == 13 && DigitRunEnd(t, 14) == 15
    ensures FindPair(t, 12) == Some(12)
  {
    assert DigitRunEnd(t, 13) == 13;
    assert DigitRunEnd(t, 15) == 15;
    assert StartsPair(t, 12);
  }

  lemma {:induction false} FindPairSkips(s: string, lo: nat, hi: nat)
    requires lo <= hi <= |s|
    requires forall i :: lo <= i < hi ==> !StartsPair(s, i)
    ensures FindPair(s, lo) == FindPair(s, hi)
    decreases hi - lo
  {
    if lo < hi {
      FindPairSkips(s, lo + 1, hi);
    }
  }

  /** A summary with no score pair gives nothing. */
  lemma SeriesSummaryNone()
    ensures ParseSeriesSummary("Series tied") == None
  {
    var t := "Series tied";
    forall i | 0 <= i <= |t| ensures !StartsPair(t, i) {
      if i < |t| {
        assert !IsDigit(t[i]);
      }
    }
    FindPairSkips(t, 0, |t|);
  }

  // ---------------------------------------------------------------------------
  // Scores and the winner/loser decision
  // ---------------------------------------------------------------------------

  predicate Truthy(flag: Option<bool>) {
    flag == Some(true)
  }

  /** The index of the first competitor whose flag is truthy (`want`) or falsy (`!want`), from `from` on. */
  function FlaggedFrom(cs: seq<Competitor>, want: bool, from: nat): (r: Option<nat>)
    ensures r.Some? ==> from <= r.value < |cs| && Truthy(cs[r.value].winner) == want
    ensures r.Some? ==> forall j :: from <= j < r.value ==> Truthy(cs[j].winner) != want
    ensures r.None? ==> forall j :: from <= j < |cs| ==> Truthy(cs[j].winner) != want
    decreases |cs| - from
  {
    if from >= |cs| then None
    else if Truthy(cs[from].winner) == want then Some(from)
    else FlaggedFrom(cs, want, from + 1)
  }

  /** `competitors.find(c => c.winner)` when `want`, `competitors.find(c => !c.winner)` otherwise. */
  function FindByFlag(cs: seq<Competitor>, want: bool): (r: Option<Competitor>)
    ensures r.Some? ==> exists i :: 0 <= i < |cs| && cs[i] == r.value && Truthy(cs[i].winner) == want
                          && forall j :: 0 <= j < i ==> Truthy(cs[j].winner) != want
    ensures r.None? <==> forall i :: 0 <= i < |cs| ==> Truthy(cs[i].winner) != want
  {
    match FlaggedFrom(cs, want, 0)
    case Some(i) => Some(cs[i])
    case None => None
  }

  /** The sort key `parseInt(score)`; only used once every score reads as a number. */
  function ScoreOf(c: Competitor): int {
    ParseInt(c.score).GetOr(0)
  }

  predicate ScoresNumeric(cs: seq<Competitor>) {
    forall i :: 0 <= i < |cs| ==> ParseInt(cs[i].score).Some?
  }

  /**
   * The scores that read as numbers are all the same number. A comparison with a
   * score that does not read as a number yields `NaN`, which the sort takes as a
   * tie, so then every comparison ties and the comparator is consistent.
   */
  predicate NumericScoresAgree(cs: seq<Competitor>) {
    forall i, j :: 0 <= i < |cs| && 0 <= j < |cs| && ParseInt(cs[i].score).Some? && ParseInt(cs[j].score).Some? ==>
      ParseInt(cs[i].score) == ParseInt(cs[j].score)
  }

  /** The winner and the loser the event yields; either may be missing. */
  datatype Sides = Sides(winner: Option<Competitor>, loser: Option<Competitor>)

  /**
   * The decision of lines 206-213 and 273-282: by the flags when the first
   * competitor carries one, otherwise the first two of the stable descending
   * sort on score. When some score does not read as a number, that comparison is
   * a tie: if the numeric scores agree every comparison ties and the list order
   * stays; if two of them differ the comparator is inconsistent and the order is
   * the engine's choice.
   */
  function SelectSides(cs: seq<Competitor>): (r: Result<Sides, IngestError>)
    ensures |cs| == 0 <==> r == Err(NoCompetitors)
    ensures |cs| > 0 && cs[0].winner.Some? ==> r == Ok(Sides(FindByFlag(cs, true), FindByFlag(cs, false)))
    ensures r.Err? ==> r == Err(NoCompetitors) || r == Err(UnorderedScores)
    ensures r.Ok? && r.value.winner.Some? ==> r.value.winner.value in cs
    ensures r.Ok? && r.value.loser.Some? ==> r.value.loser.value in cs
  {
    if |cs| == 0 then Err(NoCompetitors)
    else if cs[0].winner.Some? then
      var w := FindByFlag(cs, true);
      var l := FindByFlag(cs, false);
      Ok(Sides(w, l))
    else if ScoresNumeric(cs) then
      var sorted := SortDesc(cs, ScoreOf);
      assert sorted[0] in multiset(cs);
      assert |sorted| > 1 ==> sorted[1] in multiset(cs);
      Ok(Sides(Some(sorted[0]), if |sorted| > 1 then Some(sorted[1]) else None))
    else if NumericScoresAgree(cs) then Ok(Sides(Some(cs[0]), if |cs| > 1 then Some(cs[1]) else None))
    else Err(UnorderedScores)
  }

  /**
   * When the scores that read as numbers agree, every comparison ties, the
   * stable sort keeps the list order, and the first two listed are the sides.
   */
  lemma SidesTied(cs: seq<Competitor>)
    requires |cs| > 0 && cs[0].winner.None?
    ensures NumericScoresAgree(cs) ==>
              SelectSides(cs) == Ok(Sides(Some(cs[0]), if |cs| > 1 then Some(cs[1]) else None))
  {
    if NumericScoresAgree(cs) && ScoresNumeric(cs) {
      forall i | 0 <= i < |cs| ensures ScoreOf(cs[i]) == ScoreOf(cs[0]) {
      }
      SortDescConstant(cs, ScoreOf, ScoreOf(cs[0]));
    }
  }

  /**
   * The order is left to the engine exactly when, without flags, some score does
   * not read as a number and two scores that do read as numbers differ.
   */
  lemma SidesUnordered(cs: seq<Competitor>)
    ensures SelectSides(cs) == Err(UnorderedScores) <==>
              |cs| > 1 && cs[0].winner.None? && !ScoresNumeric(cs) && !NumericScoresAgree(cs)
  {
    if !NumericScoresAgree(cs) {
      var i, j :| && 0 <= i < |cs| && 0 <= j < |cs|
                  && ParseInt(cs[i].score).Some? && ParseInt(cs[j].score).Some?
                  && ParseInt(cs[i].score) != ParseInt(cs[j].score);
      assert i != j;
    }
  }

  /**
   * Without flags, the sides are the first two of the stable sort on score: the
   * winner, at `i`, has the top score and is the first-listed competitor with it;
   * the loser, at `j`, is another competitor, whose score is the top among the rest.
   */
  lemma SidesByScore(cs: seq<Competitor>) returns (i: int, j: int)
    requires |cs| >= 2 && cs[0].winner.None?
    ensures ScoresNumeric(cs) ==>
              SelectSides(cs) == Ok(Sides(Some(SortDesc(cs, ScoreOf)[0]), Some(SortDesc(cs, ScoreOf)[1])))
    ensures ScoresNumeric(cs) ==>
              && 0 <= i < |cs| && 0 <= j < |cs| && i != j
              && SelectSides(cs) == Ok(Sides(Some(cs[i]), Some(cs[j])))
    ensures ScoresNumeric(cs) ==> forall k :: 0 <= k < |cs| ==> ScoreOf(cs[k]) <= ScoreOf(cs[i])
    ensures ScoresNumeric(cs) ==> forall k :: 0 <= k < i ==> ScoreOf(cs[k]) < ScoreOf(cs[i])
    ensures ScoresNumeric(cs) ==> forall k :: 0 <= k < |cs| && k != i ==> ScoreOf(cs[k]) <= ScoreOf(cs[j])
  {
    i, j := 0, 1;
    if ScoresNumeric(cs) {
      var sorted := SortDesc(cs, ScoreOf);
      SelectSidesByScore(cs);
      i := SortDescHead(cs, ScoreOf);
      j := SecondOfSorted(cs, sorted, ScoreOf, i);
    }
  }

  /** Without flags and with numeric scores, the sides are the first two of the descending sort. */
  lemma SelectSidesByScore(cs: seq<Competitor>)
    requires |cs| >= 2 && cs[0].winner.None?
    ensures ScoresNumeric(cs) ==>
              SelectSides(cs) == Ok(Sides(Some(SortDesc(cs, ScoreOf)[0]), Some(SortDesc(cs, ScoreOf)[1])))
  {
  }

  // ---------------------------------------------------------------------------
  // The NFL title and the date
  // ---------------------------------------------------------------------------

  predicate MentionsSuperBowl(s: string) {
    Includes(ToLower(s), "super bowl")
  }

  function SuperBowlNoteFrom(notes: seq<string>, from: nat): (r: Option<nat>)
    ensures r.Some? ==> from <= r.value < |notes| && MentionsSuperBowl(notes[r.value])
    ensures r.Some? ==> forall j :: from <= j < r.value ==> !MentionsSuperBowl(notes[j])
    ensures r.None? ==> forall j :: from <= j < |notes| ==> !MentionsSuperBowl(notes[j])
    decreases |notes| - from
  {
    if from >= |notes| then None
    else if MentionsSuperBowl(notes[from]) then Some(from)
    else SuperBowlNoteFrom(notes, from + 1)
  }

  /** The first note headline that mentions the Super Bowl, in any case. */
  function SuperBowlNote(notes: seq<string>): (r: Option<string>)
    ensures r.Some? ==> exists i :: 0 <= i < |notes| && notes[i] == r.value && MentionsSuperBowl(notes[i])
                          && forall j :: 0 <= j < i ==> !MentionsSuperBowl(notes[j])
    ensures r.None? <==> forall i :: 0 <= i < |notes| ==> !MentionsSuperBowl(notes[i])
  {
    match SuperBowlNoteFrom(notes, 0)
    case Some(i) => Some(notes[i])
    case None => None
  }

  /** A character of the class `[LXVI0-9]` under the `i` flag. */
  predicate IsNumeral(c: char) {
    LowerChar(c) in "lxvi0123456789"
  }

  /** The end of the run of numeral characters that starts at `i`. */
  function NumeralRunEnd(s: string, i: nat): (e: nat)
    requires i <= |s|
    ensures i <= e <= |s|
    ensures forall p :: i <= p < e ==> IsNumeral(s[p])
    ensures e == |s| || !IsNumeral(s[e])
    decreases |s| - i
  {
    if i < |s| && IsNumeral(s[i]) then NumeralRunEnd(s, i + 1) else i
  }

  /** `/Super Bowl [LXVI0-9]+/i` can match starting at `i`. */
  predicate TitleAt(s: string, i: nat) {
    i + 12 <= |s| && ToLower(s[i..i + 11]) == "super bowl " && IsNumeral(s[i + 11])
  }

  function FindTitle(s: string, from: nat): (r: Option<nat>)
    ensures r.Some? ==> from <= r.value && TitleAt(s, r.value)
    ensures r.Some? ==> forall i :: from <= i < r.value ==> !TitleAt(s, i)
    ensures r.None? ==> forall i :: from <= i ==> !TitleAt(s, i)
    decreases |s| - from
  {
    if from + 12 > |s| then None
    else if TitleAt(s, from) then Some(from)
    else FindTitle(s, from + 1)
  }

  /**
   * The leftmost match of `/Super Bowl [LXVI0-9]+/i` in the name: text that
   * reads "super bowl " in any case followed by the longest run of numerals.
   */
  function SuperBowlMatch(name: string): (r: Option<string>)
    ensures r.None? <==> forall i :: 0 <= i ==> !TitleAt(name, i)
    ensures r.Some? ==> exists i, e :: 0 <= i < e <= |name| && TitleAt(name, i) && r.value == name[i..e]
                          && (forall p :: 0 <= p < i ==> !TitleAt(name, p))
                          && (forall p :: i + 11 <= p < e ==> IsNumeral(name[p]))
                          && (e == |name| || !IsNumeral(name[e]))
  {
    match FindTitle(name, 0)
    case None => None
    case Some(i) =>
      var e := NumeralRunEnd(name, i + 11);
      Some(name[i..e])
  }

  /** The game title of lines 219-231. */
  function GameTitle(config: LeagueConfig, e: Event): (t: string)
    ensures config.league != "NFL" ==> t == config.gameTitle
    ensures config.league == "NFL" && SuperBowlNote(e.notes.GetOr([])).Some? ==>
              t == SuperBowlNote(e.notes.GetOr([])).value
    ensures config.league == "NFL" && SuperBowlNote(e.notes.GetOr([])).None? && !MentionsSuperBowl(e.name) ==>
              t == config.gameTitle
    ensures config.league == "NFL" && SuperBowlNote(e.notes.GetOr([])).None? && MentionsSuperBowl(e.name) ==>
              t == if SuperBowlMatch(e.name).Some? then SuperBowlMatch(e.name).value else e.name
  {
    if config.league != "NFL" then config.gameTitle
    else match SuperBowlNote(e.notes.GetOr([]))
      case Some(note) => note
      case None =>
        if MentionsSuperBowl(e.name) then SuperBowlMatch(e.name).GetOr(e.name)
        else config.gameTitle
  }

  /** `date.split('T')[0]`: the date part of an ISO timestamp. */
  function DatePart(date: string): (d: string)
    ensures 'T' !in d && d <= date
    ensures |d| < |date| ==> date[|d|] == 'T'
    ensures 'T' !in date ==> d == date
  {
    Before(date, 'T')
  }

  /** The date part of `<day>T<time>` is `<day>`. */
  lemma DatePartOfTimestamp(day: string, time: string)
    requires 'T' !in day
    ensures DatePart(day + "T" + time) == day
  {
    FirstCharAfterFree(day, 'T', time);
    assert (day + "T" + time)[..|day|] == day;
  }

  // ---------------------------------------------------------------------------
  // What an event asks of the store
  // ---------------------------------------------------------------------------

  /** The decision taken for one event, before the store is consulted. */
  datatype Action =
    | Skip
    | Fail(error: IngestError)
    | Store(league: string, year: int, winner: Option<Competitor>, loser: Option<Competitor>,
            winningScore: int, losingScore: int, gameTitle: string, date: string)

  /** A completed game whose two sides are found and whose both scores read as numbers. */
  predicate GameReady(e: Event) {
    && e.completed && |e.competitions| > 0
    && var sides := SelectSides(e.competitions[0].competitors);
       && sides.Ok? && sides.value.winner.Some? && sides.value.loser.Some?
       && ParseInt(sides.value.winner.value.score).Some?
       && ParseInt(sides.value.loser.value.score).Some?
  }

  /** A series reported as completed, with a readable summary and sides that can be picked. */
  predicate SeriesReady(e: Event) {
    && |e.competitions| > 0
    && var comp := e.competitions[0];
       && comp.series.Some? && comp.series.value.completed
       && ParseSeriesSummary(comp.series.value.summary).Some?
       && SelectSides(comp.competitors).Ok?
  }

  /** `processSingleGameEvent` up to the insert. */
  function SingleGamePlan(config: LeagueConfig, e: Event): (a: Action)
    ensures !e.completed <==> a == Skip
    ensures e.completed && |e.competitions| == 0 ==> a == Fail(NoCompetition)
    ensures a.Store? ==>
              && |e.competitions| > 0
              && SelectSides(e.competitions[0].competitors).Ok?
              && var sides := SelectSides(e.competitions[0].competitors).value;
                 && a.winner == sides.winner && a.loser == sides.loser
                 && a.winner.Some? && a.loser.Some?
                 && Some(a.winningScore) == ParseInt(a.winner.value.score)
                 && Some(a.losingScore) == ParseInt(a.loser.value.score)
                 && a.league == config.league && a.year == e.seasonYear
                 && a.gameTitle == GameTitle(config, e)
                 && a.date == DatePart(e.competitions[0].date)
  {
    if !e.completed then Skip
    else if |e.competitions| == 0 then Fail(NoCompetition)
    else
      var comp := e.competitions[0];
      match SelectSides(comp.competitors)
      case Err(x) => Fail(x)
      case Ok(sides) =>
        if sides.winner.None? then Fail(MissingWinner)
        else if sides.loser.None? then Fail(MissingLoser)
        else
          var ws := ParseInt(sides.winner.value.score);
          var ls := ParseInt(sides.loser.value.score);
          if ws.None? || ls.None? then Fail(NonNumericScore)
          else Store(config.league, e.seasonYear, sides.winner, sides.loser, ws.value, ls.value,
                     GameTitle(config, e), DatePart(comp.date))
  }

  /** `processSeriesEvent` up to the insert. */
  function SeriesPlan(config: LeagueConfig, e: Event): (a: Action)
    ensures |e.competitions| == 0 <==> a == Fail(NoCompetition)
    ensures |e.competitions| > 0 ==>
              var series := e.competitions[0].series;
              (series.None? || !series.value.completed || ParseSeriesSummary(series.value.summary).None?)
              <==> a == Skip
    ensures a.Store? ==>
              && |e.competitions| > 0
              && var comp := e.competitions[0];
                 && comp.series.Some? && comp.series.value.completed
                 && ParseSeriesSummary(comp.series.value.summary)
                    == Some((a.winningScore, a.losingScore))
                 && SelectSides(comp.competitors) == Ok(Sides(a.winner, a.loser))
                 && a.league == config.league && a.year == e.seasonYear
                 && a.gameTitle == config.gameTitle
                 && a.date == DatePart(comp.date)
  {
    if |e.competitions| == 0 then Fail(NoCompetition)
    else
      var comp := e.competitions[0];
      if comp.series.None? || !comp.series.value.completed then Skip
      else match ParseSeriesSummary(comp.series.value.summary)
        case None => Skip
        case Some(games) =>
          match SelectSides(comp.competitors)
          case Err(x) => Fail(x)
          case Ok(sides) =>
            Store(config.league, e.seasonYear, sides.winner, sides.loser, games.0, games.1,
                  config.gameTitle, DatePart(comp.date))
  }

  /** What `processLeague`'s loop body decides for one event. */
  function Plan(config: LeagueConfig, e: Event): (a: Action)
    ensures !MatchesKeywords(e, config.keywords) ==> a == Skip
    ensures MatchesKeywords(e, config.keywords) && !config.isSeries && e.completed && |e.competitions| == 0 ==>
              a == Fail(NoCompetition)
    ensures MatchesKeywords(e, config.keywords) && config.isSeries && |e.competitions| == 0 ==>
              a == Fail(NoCompetition)
    ensures a.Store? ==> a.league == config.league && a.year == e.seasonYear
  {
    if !MatchesKeywords(e, config.keywords) then Skip
    else if config.isSeries then SeriesPlan(config, e)
    else SingleGamePlan(config, e)
  }

  /**
   * When a single game is stored and how it fails: it is stored exactly when it
   * is ready, a failed side selection is reported as it is, and the missing
   * winner and loser errors arise exactly when that side is absent.
   */
  lemma SingleGameDecides(config: LeagueConfig, e: Event)
    ensures SingleGamePlan(config, e).Store? <==> GameReady(e)
    ensures e.completed && |e.competitions| > 0 && SelectSides(e.competitions[0].competitors).Err? ==>
              SingleGamePlan(config, e) == Fail(SelectSides(e.competitions[0].competitors).error)
    ensures SingleGamePlan(config, e) == Fail(MissingWinner) <==>
              && e.completed && |e.competitions| > 0
              && SelectSides(e.competitions[0].competitors).Ok?
              && SelectSides(e.competitions[0].competitors).value.winner.None?
    ensures SingleGamePlan(config, e) == Fail(MissingLoser) <==>
              && e.completed && |e.competitions| > 0
              && SelectSides(e.competitions[0].competitors).Ok?
              && SelectSides(e.competitions[0].competitors).value.winner.Some?
              && SelectSides(e.competitions[0].competitors).value.loser.None?
  {
  }

  /**
   * A series is stored exactly when it is ready; any failure other than a
   * missing competition is the side selection's own error.
   */
  lemma SeriesDecides(config: LeagueConfig, e: Event)
    ensures SeriesPlan(config, e).Store? <==> SeriesReady(e)
    ensures SeriesPlan(config, e).Fail? && SeriesPlan(config, e) != Fail(NoCompetition) ==>
              && |e.competitions| > 0
              && SeriesPlan(config, e) == Fail(SelectSides(e.competitions[0].competitors).error)
  {
  }

  /**
   * A completed "4-2" series whose scores read "3" and "" is stored: the only
   * comparison ties, so the first-listed competitor is the winner.
   */
  lemma SeriesWithUnreadScore(config: LeagueConfig, w: Competitor, l: Competitor, date: string)
    requires w.winner.None? && w.score == "3" && l.score == ""
    ensures var e := Event("Finals", 2024, true, [Competition([w, l], Some(Series(true, "4-2")), date)], None);
            SeriesPlan(config, e) == Store(config.league, 2024, Some(w), Some(l), 4, 2, config.gameTitle, DatePart(date))
  {
    var cs := [w, l];
    assert ParseInt(l.score).None? by {
      assert TrimStart(l.score) == "";
    }
    assert ParseInt(cs[1].score).None?;
    forall i, j | 0 <= i < |cs| && 0 <= j < |cs| && ParseInt(cs[i].score).Some? && ParseInt(cs[j].score).Some?
      ensures ParseInt(cs[i].score) == ParseInt(cs[j].score)
    {
      assert i == 0 && j == 0;
    }
    SidesTied(cs);
    assert SelectSides(cs) == Ok(Sides(Some(w), Some(l)));
    SeriesSummaryPlain();
    var e := Event("Finals", 2024, true, [Competition(cs, Some(Series(true, "4-2")), date)], None);
    assert e.competitions[0].competitors == cs;
  }

  /** An event is stored exactly when it matches the keywords and is ready for its league's kind. */
  lemma PlanDecides(config: LeagueConfig, e: Event)
    ensures Plan(config, e).Store? <==>
              MatchesKeywords(e, config.keywords) && (if config.isSeries then SeriesReady(e) else GameReady(e))
  {
    SingleGameDecides(config, e);
    SeriesDecides(config, e);
  }

  // ---------------------------------------------------------------------------
  // The store
  // ---------------------------------------------------------------------------

  /** `championshipExists`. */
  predicate ChampionshipExists(rows: seq<ChampionshipRow>, league: string, year: int, gameTitle: string) {
    exists i :: 0 <= i < |rows| && rows[i].league == league && rows[i].year == year && rows[i].gameTitle == gameTitle
  }

  /** `lookupTeam`: the first registered team with that provider id in that league. */
  function LookupTeam(teams: seq<Team>, espnId: string, league: string): (r: Option<Team>)
    ensures r.Some? ==> r.value in teams && r.value.espnId == espnId && r.value.league == league
    ensures r.None? ==> forall t :: t in teams ==> !(t.espnId == espnId && t.league == league)
  {
    if |teams| == 0 then None
    else if teams[0].espnId == espnId && teams[0].league == league then Some(teams[0])
    else LookupTeam(teams[1..], espnId, league)
  }

  /** The stored display name: the registry's "city name", else the provider's name. */
  function DisplayName(teams: seq<Team>, c: Competitor, league: string): string {
    match LookupTeam(teams, c.teamId, league)
    case Some(t) => t.city + " " + t.name
    case None => c.displayName
  }

  /** The registry id, or null on a miss. */
  function TeamId(teams: seq<Team>, c: Competitor, league: string): Option<int> {
    match LookupTeam(teams, c.teamId, league)
    case Some(t) => Some(t.id)
    case None => None
  }

  /**
   * `insertChampionship`: nothing when the (league, year, title) row exists;
   * otherwise one new row, whose team ids and names come from the registry when
   * the team is registered and from the provider otherwise. The new row gets
   * the next row id.
   */
  function Insert(rows: seq<ChampionshipRow>, teams: seq<Team>, league: string, year: int,
                  winner: Option<Competitor>, loser: Option<Competitor>,
                  winningScore: int, losingScore: int, gameTitle: string, date: string)
    : (r: Result<seq<ChampionshipRow>, IngestError>)
    ensures ChampionshipExists(rows, league, year, gameTitle) ==> r == Ok(rows)
    ensures !ChampionshipExists(rows, league, year, gameTitle) ==>
              && (winner.None? <==> r == Err(MissingWinner))
              && (winner.Some? && loser.None? <==> r == Err(MissingLoser))
              && (winner.Some? && loser.Some? ==> r.Ok? && |r.value| == |rows| + 1)
    ensures r.Ok? ==> ChampionshipExists(r.value, league, year, gameTitle)
    ensures r.Ok? && r.value != rows ==>
              && |r.value| == |rows| + 1 && r.value[..|rows|] == rows
              && var row := r.value[|rows|];
                 && row.league == league && row.year == year && row.gameTitle == gameTitle
                 && row.winningScore == Some(winningScore) && row.losingScore == Some(losingScore)
                 && row.championshipDate == Some(date)
                 && (LookupTeam(teams, winner.value.teamId, league).Some? ==>
                       var t := LookupTeam(teams, winner.value.teamId, league).value;
                       row.winningTeamId == Some(t.id) && row.winningDisplayName == t.city + " " + t.name)
                 && (LookupTeam(teams, loser.value.teamId, league).Some? ==>
                       var t := LookupTeam(teams, loser.value.teamId, league).value;
                       row.losingTeamId == Some(t.id) && row.losingDisplayName == Some(t.city + " " + t.name))
                 && (LookupTeam(teams, winner.value.teamId, league).None? ==>
                       row.winningTeamId.None? && row.winningDisplayName == winner.value.displayName)
                 && (LookupTeam(teams, loser.value.teamId, league).None? ==>
                       row.losingTeamId.None? && row.losingDisplayName == Some(loser.value.displayName))
  {
    if ChampionshipExists(rows, league, year, gameTitle) then Ok(rows)
    else if winner.None? then Err(MissingWinner)
    else if loser.None? then Err(MissingLoser)
    else
      var w := winner.value;
      var l := loser.value;
      var row := ChampionshipRow(
        |rows| + 1, year, league,
        TeamId(teams, w, league), DisplayName(teams, w, league),
        TeamId(teams, l, league), Some(DisplayName(teams, l, league)),
        Some(winningScore), Some(losingScore), gameTitle, Some(date));
      assert (rows + [row])[|rows|] == row;
      Ok(rows + [row])
  }

  /** Carrying out an action on the store. */
  function Apply(rows: seq<ChampionshipRow>, teams: seq<Team>, a: Action): Result<seq<ChampionshipRow>, IngestError> {
    match a
    case Skip => Ok(rows)
    case Fail(x) => Err(x)
    case Store(league, year, w, l, ws, ls, title, date) => Insert(rows, teams, league, year, w, l, ws, ls, title, date)
  }

  /** Inserting the same championship a second time changes nothing. */
  lemma InsertIdempotent(rows: seq<ChampionshipRow>, teams: seq<Team>, league: string, year: int,
                         winner: Option<Competitor>, loser: Option<Competitor>,
                         ws: int, ls: int, title: string, date: string)
    requires Insert(rows, teams, league, year, winner, loser, ws, ls, title, date).Ok?
    ensures var r := Insert(rows, teams, league, year, winner, loser, ws, ls, title, date).value;
            Insert(r, teams, league, year, winner, loser, ws, ls, title, date) == Ok(r)
  {
  }

  /** The store only ever grows by one row of the action's own league, at the end. */
  lemma ApplyFrame(rows: seq<ChampionshipRow>, teams: seq<Team>, a: Action)
    requires Apply(rows, teams, a).Ok?
    ensures var r := Apply(rows, teams, a).value;
            r == rows || (a.Store? && |r| == |rows| + 1 && r[..|rows|] == rows && r[|rows|].league == a.league)
  {
  }

  /** An action whose outcome is already in the store stays settled as the store grows. */
  lemma SettledGrows(rows: seq<ChampionshipRow>, more: seq<ChampionshipRow>, teams: seq<Team>, a: Action)
    requires Apply(rows, teams, a) == Ok(rows)
    ensures Apply(rows + more, teams, a) == Ok(rows + more)
  {
    if a.Store? {
      var i :| 0 <= i < |rows| && rows[i].league == a.league && rows[i].year == a.year && rows[i].gameTitle == a.gameTitle;
      assert (rows + more)[i] == rows[i];
    }
  }

  /** A failure does not change when rows of other leagues are added. */
  lemma FailureStays(rows: seq<ChampionshipRow>, more: seq<ChampionshipRow>, teams: seq<Team>, a: Action)
    requires Apply(rows, teams, a).Err?
    requires a.Store? ==> forall k :: 0 <= k < |more| ==> more[k].league != a.league
    ensures Apply(rows + more, teams, a) == Apply(rows, teams, a)
  {
    if a.Store? {
      var all := rows + more;
      forall i | 0 <= i < |all|
        ensures !(all[i].league == a.league && all[i].year == a.year && all[i].gameTitle == a.gameTitle)
      {
        if i < |rows| {
          assert all[i] == rows[i];
        } else {
          assert all[i] == more[i - |rows|];
        }
      }
    }
  }

  /** Applying an action that succeeded once again is a no-op. */
  lemma ApplySettles(rows: seq<ChampionshipRow>, teams: seq<Team>, a: Action)
    requires Apply(rows, teams, a).Ok?
    ensures Apply(Apply(rows, teams, a).value, teams, a) == Apply(rows, teams, a)
  {
    if a.Store? {
      InsertIdempotent(rows, teams, a.league, a.year, a.winner, a.loser, a.winningScore, a.losingScore, a.gameTitle, a.date);
    }
  }

  // ---------------------------------------------------------------------------
  // processLeague and the scheduled run
  // ---------------------------------------------------------------------------

  /** The store after a league's run, and the error that ended it early, if any. */
  datatype LeagueRun = LeagueRun(rows: seq<ChampionshipRow>, error: Option<IngestError>)

  /** The loop of `processLeague`: events in order, stopping at the first thrown error. */
  function ProcessEvents(rows: seq<ChampionshipRow>, teams: seq<Team>, config: LeagueConfig, evs: seq<Event>): LeagueRun
    decreases |evs|
  {
    if |evs| == 0 then LeagueRun(rows, None)
    else match Apply(rows, teams, Plan(config, evs[0]))
      case Err(x) => LeagueRun(rows, Some(x))
      case Ok(rows') => ProcessEvents(rows', teams, config, evs[1..])
  }

  /** `processLeague`: a failed request changes nothing; a missing `events` list is empty. */
  function ProcessLeague(rows: seq<ChampionshipRow>, teams: seq<Team>, config: LeagueConfig, feed: Feed): (run: LeagueRun)
    ensures feed.HttpError? ==> run == LeagueRun(rows, None)
    ensures feed == Body(None) ==> run == LeagueRun(rows, None)
  {
    match feed
    case HttpError(_) => LeagueRun(rows, None)
    case Body(events) => ProcessEvents(rows, teams, config, events.GetOr([]))
  }

  /** A run only appends, and everything it appends belongs to the league being run. */
  lemma {:induction false} ProcessEventsAppends(rows: seq<ChampionshipRow>, teams: seq<Team>, config: LeagueConfig, evs: seq<Event>)
    ensures var r := ProcessEvents(rows, teams, config, evs).rows;
            |rows| <= |r| && r[..|rows|] == rows
            && forall k :: |rows| <= k < |r| ==> r[k].league == config.league
    decreases |evs|
  {
    if |evs| > 0 {
      var a := Plan(config, evs[0]);
      var step := Apply(rows, teams, a);
      if step.Ok? {
        assert a.Store? ==> a.league == config.league;
        ApplyAppends(rows, teams, a, config.league);
        ProcessEventsAppends(step.value, teams, config, evs[1..]);
        var r := ProcessEvents(step.value, teams, config, evs[1..]).rows;
        assert ProcessEvents(rows, teams, config, evs).rows == r;
        AppendChain(rows, step.value, r, config.league);
      }
    }
  }

  lemma ApplyAppends(rows: seq<ChampionshipRow>, teams: seq<Team>, a: Action, league: string)
    requires Apply(rows, teams, a).Ok? && (a.Store? ==> a.league == league)
    ensures var r := Apply(rows, teams, a).value;
            |rows| <= |r| && r[..|rows|] == rows && forall k :: |rows| <= k < |r| ==> r[k].league == league
  {
    ApplyFrame(rows, teams, a);
  }

  lemma AppendChain(a: seq<ChampionshipRow>, b: seq<ChampionshipRow>, c: seq<ChampionshipRow>, league: string)
    requires |a| <= |b| && b[..|a|] == a && forall k :: |a| <= k < |b| ==> b[k].league == league
    requires |b| <= |c| && c[..|b|] == b && forall k :: |b| <= k < |c| ==> c[k].league == league
    ensures |a| <= |c| && c[..|a|] == a && forall k :: |a| <= k < |c| ==> c[k].league == league
  {
    assert c[..|a|] == c[..|b|][..|a|];
    forall k | |a| <= k < |b| ensures c[k].league == league {
      assert c[k] == c[..|b|][k];
    }
  }

  /** A failure recurs on a store that extends the failing one with rows of other leagues only. */
  lemma FailureRecurs(rows: seq<ChampionshipRow>, s: seq<ChampionshipRow>, teams: seq<Team>, a: Action, league: string)
    requires Apply(rows, teams, a).Err? && (a.Store? ==> a.league == league)
    requires |rows| <= |s| && s[..|rows|] == rows
    requires forall k :: |rows| <= k < |s| ==> s[k].league != league
    ensures Apply(s, teams, a) == Apply(rows, teams, a)
  {
    var more := s[|rows|..];
    assert s == rows + more;
    forall k | 0 <= k < |more| ensures more[k].league != league {
      assert more[k] == s[|rows| + k];
    }
    FailureStays(rows, more, teams, a);
  }

  /** A success is a no-op on any store that extends its result. */
  lemma SuccessSettles(rows: seq<ChampionshipRow>, s: seq<ChampionshipRow>, teams: seq<Team>, a: Action)
    requires Apply(rows, teams, a).Ok?
    requires |Apply(rows, teams, a).value| <= |s| && s[..|Apply(rows, teams, a).value|] == Apply(rows, teams, a).value
    ensures Apply(s, teams, a) == Ok(s)
  {
    var r1 := Apply(rows, teams, a).value;
    ApplySettles(rows, teams, a);
    assert s == r1 + s[|r1|..];
    SettledGrows(r1, s[|r1|..], teams, a);
  }

  /**
   * Re-running a league's events against a store that already holds the first
   * run's result, plus rows of other leagues only, reports the same outcome
   * and adds nothing.
   */
  lemma {:induction false} ProcessEventsRerun(rows: seq<ChampionshipRow>, teams: seq<Team>, config: LeagueConfig,
                                             evs: seq<Event>, s: seq<ChampionshipRow>)
    requires var run := ProcessEvents(rows, teams, config, evs);
             |run.rows| <= |s| && s[..|run.rows|] == run.rows
             && forall k :: |run.rows| <= k < |s| ==> s[k].league != config.league
    ensures ProcessEvents(s, teams, config, evs) == LeagueRun(s, ProcessEvents(rows, teams, config, evs).error)
    decreases |evs|
  {
    if |evs| > 0 {
      var a := Plan(config, evs[0]);
      var step := Apply(rows, teams, a);
      var run := ProcessEvents(rows, teams, config, evs);
      if step.Err? {
        assert run == LeagueRun(rows, Some(step.error));
        FailureRecurs(rows, s, teams, a, config.league);
      } else {
        var r1 := step.value;
        assert run == ProcessEvents(r1, teams, config, evs[1..]);
        ProcessEventsAppends(r1, teams, config, evs[1..]);
        assert s[..|r1|] == r1 by {
          assert s[..|r1|] == s[..|run.rows|][..|r1|];
        }
        SuccessSettles(rows, s, teams, a);
        ProcessEventsRerun(r1, teams, config, evs[1..], s);
      }
    }
  }

  /**
   * A run that ends without an error has recorded every event it was asked to
   * store: the store then holds a row of that league, season and title.
   */
  lemma EventStored(rows: seq<ChampionshipRow>, teams: seq<Team>, config: LeagueConfig, evs: seq<Event>, k: int)
    requires 0 <= k < |evs|
    ensures var run := ProcessEvents(rows, teams, config, evs);
            var a := Plan(config, evs[k]);
            run.error.None? && a.Store? ==>
            ChampionshipExists(run.rows, config.league, evs[k].seasonYear, a.gameTitle)
  {
    RunSplit(rows, teams, config, evs, k);
    var mid := ProcessEvents(rows, teams, config, evs[..k]);
    if mid.error.None? {
      assert evs[k..][0] == evs[k];
      FirstEventStored(mid.rows, teams, config, evs[k..]);
    }
  }

  /**
   * A run is the run of its first `k` events, followed, when that one ends
   * without an error, by the run of the rest from the store it left.
   */
  lemma {:induction false} RunSplit(rows: seq<ChampionshipRow>, teams: seq<Team>, config: LeagueConfig,
                                    evs: seq<Event>, k: int)
    requires 0 <= k <= |evs|
    ensures var mid := ProcessEvents(rows, teams, config, evs[..k]);
            ProcessEvents(rows, teams, config, evs)
            == if mid.error.Some? then mid else ProcessEvents(mid.rows, teams, config, evs[k..])
    decreases k
  {
    if k > 0 {
      var step := Apply(rows, teams, Plan(config, evs[0]));
      assert evs[..k][0] == evs[0];
      if step.Ok? {
        var tail := evs[1..];
        RunSplit(step.value, teams, config, tail, k - 1);
        assert evs[..k][1..] == tail[..k - 1];
        assert tail[k - 1..] == evs[k..];
      }
    } else {
      assert evs[..0] == [] && evs[0..] == evs;
    }
  }

  /** The first event of an error-free run is on record at its end, when it was to be stored. */
  lemma FirstEventStored(rows: seq<ChampionshipRow>, teams: seq<Team>, config: LeagueConfig, evs: seq<Event>)
    requires |evs| > 0
    ensures var run := ProcessEvents(rows, teams, config, evs);
            var a := Plan(config, evs[0]);
            run.error.None? && a.Store? ==>
            ChampionshipExists(run.rows, config.league, evs[0].seasonYear, a.gameTitle)
  {
    var a := Plan(config, evs[0]);
    var step := Apply(rows, teams, a);
    if a.Store? && step.Ok? {
      var next := step.value;
      StoreRecords(rows, teams, a);
      ProcessEventsAppends(next, teams, config, evs[1..]);
      ExistsInPrefix(next, ProcessEvents(next, teams, config, evs[1..]).rows, a.league, a.year, a.gameTitle);
    }
  }

  /** A stored action leaves its championship on record. */
  lemma StoreRecords(rows: seq<ChampionshipRow>, teams: seq<Team>, a: Action)
    requires a.Store? && Apply(rows, teams, a).Ok?
    ensures ChampionshipExists(Apply(rows, teams, a).value, a.league, a.year, a.gameTitle)
  {
  }

  /** A championship on record stays on record in any extension of the store. */
  lemma ExistsInPrefix(rows: seq<ChampionshipRow>, s: seq<ChampionshipRow>, league: string, year: int, title: string)
    requires ChampionshipExists(rows, league, year, title)
    requires |rows| <= |s| && s[..|rows|] == rows
    ensures ChampionshipExists(s, league, year, title)
  {
    var i :| 0 <= i < |rows| && rows[i].league == league && rows[i].year == year && rows[i].gameTitle == title;
    assert s[i] == s[..|rows|][i];
  }

  /** Processing the same response twice adds nothing the first pass did not. */
  lemma ProcessLeagueIdempotent(rows: seq<ChampionshipRow>, teams: seq<Team>, config: LeagueConfig, feed: Feed)
    ensures var run := ProcessLeague(rows, teams, config, feed);
            ProcessLeague(run.rows, teams, config, feed) == run
  {
    if feed.Body? {
      var run := ProcessLeague(rows, teams, config, feed);
      ProcessEventsRerun(rows, teams, config, feed.events.GetOr([]), run.rows);
    }
  }

  /** The store after every league has run, and each league's reported error. */
  function RunLeagues(rows: seq<ChampionshipRow>, teams: seq<Team>, configs: seq<LeagueConfig>, feeds: seq<Feed>)
    : (r: (seq<ChampionshipRow>, seq<Option<IngestError>>))
    requires |configs| == |feeds|
    ensures |r.1| == |configs|
    decreases |configs|
  {
    if |configs| == 0 then (rows, [])
    else
      var run := ProcessLeague(rows, teams, configs[0], feeds[0]);
      var rest := RunLeagues(run.rows, teams, configs[1..], feeds[1..]);
      (rest.0, [run.error] + rest.1)
  }

  /** `scheduled`: every configured league runs; a league that throws does not stop the others. */
  function Scheduled(rows: seq<ChampionshipRow>, teams: seq<Team>, feeds: seq<Feed>)
    : (r: (seq<ChampionshipRow>, seq<Option<IngestError>>))
    requires |feeds| == |Leagues|
    ensures |r.1| == |Leagues|
  {
    RunLeagues(rows, teams, Leagues, feeds)
  }

  ghost predicate DistinctLeagues(configs: seq<LeagueConfig>) {
    forall i, j :: 0 <= i < j < |configs| ==> configs[i].league != configs[j].league
  }

  ghost predicate LeagueOfSome(l: string, configs: seq<LeagueConfig>) {
    exists i :: 0 <= i < |configs| && configs[i].league == l
  }

  lemma {:induction false} RunLeaguesAppends(rows: seq<ChampionshipRow>, teams: seq<Team>, configs: seq<LeagueConfig>, feeds: seq<Feed>)
    requires |configs| == |feeds|
    ensures var r := RunLeagues(rows, teams, configs, feeds).0;
            |rows| <= |r| && r[..|rows|] == rows
            && forall k :: |rows| <= k < |r| ==> LeagueOfSome(r[k].league, configs)
    decreases |configs|
  {
    if |configs| > 0 {
      var run := ProcessLeague(rows, teams, configs[0], feeds[0]);
      if feeds[0].Body? {
        ProcessEventsAppends(rows, teams, configs[0], feeds[0].events.GetOr([]));
      }
      RunLeaguesAppends(run.rows, teams, configs[1..], feeds[1..]);
      var r := RunLeagues(run.rows, teams, configs[1..], feeds[1..]).0;
      assert r[..|rows|] == r[..|run.rows|][..|rows|];
      forall k | |rows| <= k < |r| ensures LeagueOfSome(r[k].league, configs) {
        if k < |run.rows| {
          assert r[k] == run.rows[k];
          assert configs[0].league == r[k].league;
        } else {
          var i :| 0 <= i < |configs[1..]| && configs[1..][i].league == r[k].league;
          assert configs[i + 1].league == r[k].league;
        }
      }
    }
  }

  lemma {:induction false} RunLeaguesRerun(rows: seq<ChampionshipRow>, teams: seq<Team>, configs: seq<LeagueConfig>,
                                          feeds: seq<Feed>, s: seq<ChampionshipRow>)
    requires |configs| == |feeds| && DistinctLeagues(configs)
    requires var r := RunLeagues(rows, teams, configs, feeds).0;
             |r| <= |s| && s[..|r|] == r
             && forall k :: |r| <= k < |s| ==> !LeagueOfSome(s[k].league, configs)
    ensures RunLeagues(s, teams, configs, feeds) == (s, RunLeagues(rows, teams, configs, feeds).1)
    decreases |configs|
  {
    if |configs| > 0 {
      var c := configs[0];
      var run := ProcessLeague(rows, teams, c, feeds[0]);
      var r := RunLeagues(run.rows, teams, configs[1..], feeds[1..]).0;
      RunLeaguesAppends(run.rows, teams, configs[1..], feeds[1..]);
      assert s[..|run.rows|] == run.rows by {
        assert s[..|run.rows|] == s[..|r|][..|run.rows|];
      }
      forall k | |run.rows| <= k < |s| ensures s[k].league != c.league {
        if k < |r| {
          assert s[k] == r[k];
          var i :| 0 <= i < |configs[1..]| && configs[1..][i].league == s[k].league;
          assert configs[i + 1].league == s[k].league;
        } else {
          assert !LeagueOfSome(s[k].league, configs);
        }
      }
      if feeds[0].Body? {
        ProcessEventsRerun(rows, teams, c, feeds[0].events.GetOr([]), s);
      }
      assert DistinctLeagues(configs[1..]) by {
        forall i, j | 0 <= i < j < |configs[1..]| ensures configs[1..][i].league != configs[1..][j].league {
          assert configs[1..][i] == configs[i + 1] && configs[1..][j] == configs[j + 1];
        }
      }
      forall k | |r| <= k < |s| ensures !LeagueOfSome(s[k].league, configs[1..]) {
        assert !LeagueOfSome(s[k].league, configs);
        forall i | 0 <= i < |configs[1..]| ensures configs[1..][i].league != s[k].league {
          assert configs[1..][i] == configs[i + 1];
        }
      }
      RunLeaguesRerun(run.rows, teams, configs[1..], feeds[1..], s);
    }
  }

  /** Running the whole job twice on the same responses leaves the store as one run left it. */
  lemma ScheduledIdempotent(rows: seq<ChampionshipRow>, teams: seq<Team>, feeds: seq<Feed>)
    requires |feeds| == |Leagues|
    ensures var first := Scheduled(rows, teams, feeds);
            Scheduled(first.0, teams, feeds) == first
  {
    LeaguesDistinct();
    RunLeaguesIdempotent(rows, teams, Leagues, feeds);
  }

  lemma LeaguesDistinct()
    ensures DistinctLeagues(Leagues)
  {
    forall i, j | 0 <= i < j < |Leagues| ensures Leagues[i].league != Leagues[j].league {
      assert Leagues[i].league[0] != Leagues[j].league[0] || Leagues[i].league[1] != Leagues[j].league[1];
    }
  }

  lemma RunLeaguesIdempotent(rows: seq<ChampionshipRow>, teams: seq<Team>, configs: seq<LeagueConfig>, feeds: seq<Feed>)
    requires |configs| == |feeds| && DistinctLeagues(configs)
    ensures var first := RunLeagues(rows, teams, configs, feeds);
            RunLeagues(first.0, teams, configs, feeds) == first
  {
    var s := RunLeagues(rows, teams, configs, feeds).0;
    assert s[..|s|] == s;
    RunLeaguesRerun(rows, teams, configs, feeds, s);
  }

  // ---------------------------------------------------------------------------
  // One row per (league, year, title)
  // ---------------------------------------------------------------------------

  ghost predicate UniqueKeys(rows: seq<ChampionshipRow>) {
    forall i, j :: 0 <= i < j < |rows| ==>
      (rows[i].league, rows[i].year, rows[i].gameTitle) != (rows[j].league, rows[j].year, rows[j].gameTitle)
  }

  lemma ApplyKeepsUnique(rows: seq<ChampionshipRow>, teams: seq<Team>, a: Action)
    requires UniqueKeys(rows) && Apply(rows, teams, a).Ok?
    ensures UniqueKeys(Apply(rows, teams, a).value)
  {
    var r := Apply(rows, teams, a).value;
    if r != rows {
      forall i, j | 0 <= i < j < |r|
        ensures (r[i].league, r[i].year, r[i].gameTitle) != (r[j].league, r[j].year, r[j].gameTitle)
      {
        if j == |rows| {
          assert r[i] == rows[i];
        } else {
          assert r[i] == rows[i] && r[j] == rows[j];
        }
      }
    }
  }

  /** No run ever stores two rows for the same league, year and title. */
  lemma {:induction false} ProcessEventsKeepsUnique(rows: seq<ChampionshipRow>, teams: seq<Team>, config: LeagueConfig, evs: seq<Event>)
    requires UniqueKeys(rows)
    ensures UniqueKeys(ProcessEvents(rows, teams, config, evs).rows)
    decreases |evs|
  {
    if |evs| > 0 && Apply(rows, teams, Plan(config, evs[0])).Ok? {
      ApplyKeepsUnique(rows, teams, Plan(config, evs[0]));
      ProcessEventsKeepsUnique(Apply(rows, teams, Plan(config, evs[0])).value, teams, config, evs[1..]);
    }
  }
}
