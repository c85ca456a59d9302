/**
 * The pure helpers of the game-detail drawer (`src/lib/game-detail.tsx`): the
 * boxscore fence parser, the prompt the drawer sends, the inline and block
 * markdown scanners, and the box-score table arithmetic.
 */
module GameDetail {
  import opened Wrappers
  import opened Strings
  import opened Db

  // ---------------------------------------------------------------------------
  // Box score data
  // ---------------------------------------------------------------------------

  datatype BoxScoreTeam = BoxScoreTeam(name: string, abbreviation: string, score: int, periods: seq<int>)

  datatype BoxScorePlayer = BoxScorePlayer(name: string, team: string, stats: string)

  datatype BoxScore = BoxScore(
    winner: BoxScoreTeam,
    loser: BoxScoreTeam,
    periodLabel: string,
    mvp: BoxScorePlayer,
    keyPlayers: seq<BoxScorePlayer>,
    venue: Option<string>,
    attendance: Option<string>)

  // ---------------------------------------------------------------------------
  // parseBoxScore
  // ---------------------------------------------------------------------------

  const OpenFence: string := "```boxscore\n"
  const CloseFence: string := "\n```"

  /** What `parseBoxScore` returns. */
  datatype Parsed = Parsed(boxScore: Option<BoxScore>, narrative: string)

  /**
   * `parseBoxScore`, with `JSON.parse` as the oracle `json` (none for malformed
   * JSON). The JSON is the text between the first opening fence and the first
   * closing fence after it; the narrative is what follows, with leading
   * whitespace trimmed.
   */
  function ParseBoxScore(text: string, json: string -> Option<BoxScore>): (r: Parsed)
    ensures r.boxScore.None? ==> r.narrative == text || r.narrative == ""
    ensures r.boxScore.Some? ==> |r.narrative| + |OpenFence| + |CloseFence| <= |text|
  {
    match IndexOf(text, OpenFence, 0)
    case None => Parsed(None, text)
    case Some(o) => AfterOpen(text, o + |OpenFence|, json)
  }

  /** The rest of `parseBoxScore` once the JSON is known to start at `start`. */
  function AfterOpen(text: string, start: nat, json: string -> Option<BoxScore>): (r: Parsed)
    requires |OpenFence| <= start
    ensures r.boxScore.None? ==> r.narrative == text || r.narrative == ""
    ensures r.boxScore.Some? ==> |r.narrative| + |OpenFence| + |CloseFence| <= |text|
  {
    match IndexOf(text, CloseFence, start)
    case None => Parsed(None, "")
    case Some(c) => Decode(text, start, c, json)
  }

  /** The JSON is `text[start..c]`; the closing fence starts at `c`. */
  function Decode(text: string, start: nat, c: nat, json: string -> Option<BoxScore>): (r: Parsed)
    requires |OpenFence| <= start <= c && c + |CloseFence| <= |text|
    ensures r.boxScore.None? ==> r.narrative == text
    ensures r.boxScore.Some? ==> |r.narrative| + |OpenFence| + |CloseFence| <= |text|
  {
    var j := text[start..c];
    if json(j).Some? then Parsed(json(j), TrimStart(text[c + |CloseFence|..])) else Parsed(None, text)
  }

  /** Without an opening fence, the whole text is the narrative. */
  lemma ParseBoxScoreNoFence(text: string, json: string -> Option<BoxScore>)
    requires forall k :: !OccursAt(text, OpenFence, k)
    ensures ParseBoxScore(text, json) == Parsed(None, text)
  {
  }

  /** The first opening fence is at `o`. */
  ghost predicate FirstOpen(text: string, o: int) {
    OccursAt(text, OpenFence, o) && forall k :: 0 <= k < o ==> !OccursAt(text, OpenFence, k)
  }

  /** An opening fence with no closing fence after it: the block is still arriving. */
  lemma ParseBoxScoreOpen(text: string, json: string -> Option<BoxScore>, o: int)
    requires FirstOpen(text, o)
    requires forall k :: o + |OpenFence| <= k ==> !OccursAt(text, CloseFence, k)
    ensures ParseBoxScore(text, json) == Parsed(None, "")
  {
    assert IndexOf(text, OpenFence, 0) == Some(o);
  }

  /**
   * Both fences: the JSON is exactly the text between the first opening fence and
   * the first closing fence after it; the narrative is what follows, trimmed at
   * the start; malformed JSON gives the whole text.
   */
  lemma ParseBoxScoreFenced(text: string, json: string -> Option<BoxScore>, o: int, c: int)
    requires FirstOpen(text, o)
    requires o + |OpenFence| <= c && OccursAt(text, CloseFence, c)
    requires forall k :: o + |OpenFence| <= k < c ==> !OccursAt(text, CloseFence, k)
    ensures var j := text[o + |OpenFence|..c];
            ParseBoxScore(text, json)
            == if json(j).Some? then Parsed(json(j), TrimStart(text[c + |CloseFence|..])) else Parsed(None, text)
  {
    IndexOfAt(text, OpenFence, 0, o);
    IndexOfAt(text, CloseFence, o + |OpenFence|, c);
    assert ParseBoxScore(text, json) == AfterOpen(text, o + |OpenFence|, json);
    assert AfterOpen(text, o + |OpenFence|, json) == Decode(text, o + |OpenFence|, c, json);
  }

  /** The closing fence cannot begin inside `j` when `j` has none and is followed by a line break. */
  lemma CloseFenceNotBefore(j: string, t: string)
    requires forall k :: !OccursAt(j, CloseFence, k)
    requires |t| > 0 ==> t[0] == '\n'
    ensures forall k :: 0 <= k < |j| ==> !OccursAt(j + t, CloseFence, k)
  {
    forall k | 0 <= k < |j| ensures !OccursAt(j + t, CloseFence, k) {
      if k + |CloseFence| <= |j| {
        assert !OccursAt(j, CloseFence, k);
        assert (j + t)[k..k + |CloseFence|] == j[k..k + |CloseFence|];
      } else if k + |CloseFence| <= |j + t| {
        assert 1 <= |j| - k <= 3;
        assert CloseFence[1] == CloseFence[2] == CloseFence[3] == '`';
        assert (j + t)[k..k + |CloseFence|][|j| - k] == t[0] == '\n';
      }
    }
  }

  /** Occurrences in `p + s` at or after `|p|` are the occurrences in `s`, shifted. */
  lemma OccursShift(p: string, s: string, t: string, k: int)
    requires k >= 0
    ensures OccursAt(p + s, t, |p| + k) <==> OccursAt(s, t, k)
  {
    if k + |t| <= |s| {
      assert (p + s)[|p| + k..|p| + k + |t|] == s[k..k + |t|];
    }
  }

  /**
   * A complete block: the JSON between the fences is handed to the parser, and the
   * narrative is the rest with its leading whitespace trimmed; malformed JSON shows
   * the whole text.
   */
  lemma ParseBoxScoreComplete(j: string, rest: string, json: string -> Option<BoxScore>)
    requires forall k :: !OccursAt(j, CloseFence, k)
    ensures var text := OpenFence + j + CloseFence + rest;
            ParseBoxScore(text, json)
            == if json(j).Some? then Parsed(json(j), TrimStart(rest)) else Parsed(None, text)
  {
    var text := OpenFence + j + CloseFence + rest;
    var n := |OpenFence|;
    var c := n + |j|;
    assert text == OpenFence + (j + (CloseFence + rest));
    assert OccursAt(text, OpenFence, 0);
    CloseFenceNotBefore(j, CloseFence + rest);
    forall k | n <= k < c ensures !OccursAt(text, CloseFence, k) {
      OccursShift(OpenFence, j + (CloseFence + rest), CloseFence, k - n);
    }
    assert text[c..c + |CloseFence|] == CloseFence;
    assert text[n..c] == j;
    assert text[c + |CloseFence|..] == rest;
    ParseBoxScoreFenced(text, json, 0, c);
  }

  /**
   * While the block is still arriving (an opening fence, fence-free JSON, and at
   * most a partial closing fence), there is nothing to show.
   */
  lemma ParseBoxScoreStreaming(j: string, t: string, json: string -> Option<BoxScore>)
    requires forall k :: !OccursAt(j, CloseFence, k)
    requires t <= CloseFence && |t| < |CloseFence|
    ensures ParseBoxScore(OpenFence + j + t, json) == Parsed(None, "")
  {
    var text := OpenFence + j + t;
    var n := |OpenFence|;
    assert text == OpenFence + (j + t);
    assert OccursAt(text, OpenFence, 0);
    CloseFenceNotBefore(j, t);
    forall k | n <= k ensures !OccursAt(text, CloseFence, k) {
      OccursShift(OpenFence, j + t, CloseFence, k - n);
    }
  }

  // ---------------------------------------------------------------------------
  // buildUserPrompt
  // ---------------------------------------------------------------------------

  const XliiTitle: string := "Super Bowl XLII"
  const NoCacheTag: string := "[no_cache]"
  const EasterEggTag: string := "[18-1]"
  const IdTagPrefix: string := "[championship_id:"

  /** `[championship_id:${id}]`. */
  function IdTag(id: int): string {
    IdTagPrefix + IntToString(id) + "]"
  }

  /** A nullable string that JavaScript treats as true: present and non-empty. */
  predicate Truthy(s: Option<string>) {
    s.Some? && s.value != ""
  }

  /** The tags that precede the id: `[no_cache]` on a refresh, `[18-1]` for Super Bowl XLII. */
  function PromptTags(c: ChampionshipRow, noCache: bool): seq<string> {
    (if noCache then [NoCacheTag] else []) + (if c.gameTitle == XliiTitle then [EasterEggTag] else [])
  }

  /** The five lines every prompt has, in order. */
  function FixedLines(c: ChampionshipRow): (ls: seq<string>)
    ensures |ls| == 5
  {
    [IdTag(c.id), "Game: " + c.gameTitle, "Year: " + IntToString(c.year),
     "League: " + LeagueLabel(c.league), "Winner: " + c.winningDisplayName]
  }

  function LoserLine(c: ChampionshipRow): seq<string> {
    if Truthy(c.losingDisplayName) then ["Loser: " + c.losingDisplayName.value] else []
  }

  /** `Score: ${winning_score}–${losing_score}`, with an en dash. */
  function ScoreLine(c: ChampionshipRow): seq<string> {
    if c.winningScore.Some? && c.losingScore.Some?
    then ["Score: " + IntToString(c.winningScore.value) + "\U{2013}" + IntToString(c.losingScore.value)]
    else []
  }

  function DateLine(c: ChampionshipRow): seq<string> {
    if Truthy(c.championshipDate) then ["Date: " + c.championshipDate.value] else []
  }

  /** The lines of `buildUserPrompt`; the empty tags are dropped by `.filter(Boolean)`. */
  function PromptLines(c: ChampionshipRow, noCache: bool): seq<string> {
    PromptTags(c, noCache) + FixedLines(c) + LoserLine(c) + ScoreLine(c) + DateLine(c)
  }

  /** The prompt's lines regrouped: the tags, then the body, or the tags, the fixed lines and the rest. */
  lemma PromptParts(c: ChampionshipRow, noCache: bool)
    ensures PromptLines(c, noCache) == PromptTags(c, noCache) + (FixedLines(c) + LoserLine(c) + ScoreLine(c) + DateLine(c))
    ensures PromptLines(c, noCache) == PromptTags(c, noCache) + FixedLines(c) + (LoserLine(c) + ScoreLine(c) + DateLine(c))
  {
    Regroup(PromptTags(c, noCache), FixedLines(c), LoserLine(c), ScoreLine(c), DateLine(c));
  }

  lemma Regroup<T>(a: seq<T>, b: seq<T>, c: seq<T>, d: seq<T>, e: seq<T>)
    ensures a + b + c + d + e == a + (b + c + d + e)
    ensures a + b + c + d + e == a + b + (c + d + e)
  {
  }

  /** `buildUserPrompt`: the lines joined with line breaks. */
  function BuildUserPrompt(c: ChampionshipRow, noCache: bool): string {
    Join(PromptLines(c, noCache), "\n")
  }

  predicate IsTag(l: string) {
    l == NoCacheTag || l == EasterEggTag
  }

  /** A line whose fixed head does not start with '[' is not a tag. */
  lemma LabelNotTag(head: string, x: string)
    requires |head| > 0 && head[0] != '['
    ensures !IsTag(head + x)
  {
    assert (head + x)[0] == head[0];
    assert NoCacheTag[0] == '[' && EasterEggTag[0] == '[';
  }

  lemma IdTagNotTag(id: int)
    ensures !IsTag(IdTag(id))
  {
    assert IdTag(id)[1] == 'c';
    assert NoCacheTag[1] == 'n' && EasterEggTag[1] == '1';
  }

  lemma FixedLinesNotTags(c: ChampionshipRow)
    ensures forall l :: l in FixedLines(c) ==> !IsTag(l)
  {
    IdTagNotTag(c.id);
    LabelNotTag("Game: ", c.gameTitle);
    LabelNotTag("Year: ", IntToString(c.year));
    LabelNotTag("League: ", LeagueLabel(c.league));
    LabelNotTag("Winner: ", c.winningDisplayName);
  }

  lemma OptionalLinesNotTags(c: ChampionshipRow)
    ensures forall l :: l in LoserLine(c) ==> !IsTag(l)
    ensures forall l :: l in ScoreLine(c) ==> !IsTag(l)
    ensures forall l :: l in DateLine(c) ==> !IsTag(l)
  {
    if Truthy(c.losingDisplayName) {
      LabelNotTag("Loser: ", c.losingDisplayName.value);
    }
    if c.winningScore.Some? && c.losingScore.Some? {
      var a, b := IntToString(c.winningScore.value), IntToString(c.losingScore.value);
      assert "Score: " + a + "\U{2013}" + b == "Score: " + (a + "\U{2013}" + b);
      LabelNotTag("Score: ", a + "\U{2013}" + b);
    }
    if Truthy(c.championshipDate) {
      LabelNotTag("Date: ", c.championshipDate.value);
    }
  }

  /** No line after the tags is a tag. */
  lemma BodyLinesNotTags(c: ChampionshipRow)
    ensures forall l :: l in FixedLines(c) + LoserLine(c) + ScoreLine(c) + DateLine(c) ==> !IsTag(l)
  {
    FixedLinesNotTags(c);
    OptionalLinesNotTags(c);
  }

  /** `[no_cache]` is a line exactly on a refresh, and `[18-1]` exactly for Super Bowl XLII. */
  lemma PromptTagLines(c: ChampionshipRow, noCache: bool)
    ensures NoCacheTag in PromptLines(c, noCache) <==> noCache
    ensures EasterEggTag in PromptLines(c, noCache) <==> c.gameTitle == XliiTitle
  {
    var tags := PromptTags(c, noCache);
    var body := FixedLines(c) + LoserLine(c) + ScoreLine(c) + DateLine(c);
    PromptParts(c, noCache);
    TagsNotInBody(c, body);
    TagsInTags(c, noCache);
    InConcat(NoCacheTag, tags, body);
    InConcat(EasterEggTag, tags, body);
  }

  lemma TagsNotInBody(c: ChampionshipRow, body: seq<string>)
    requires body == FixedLines(c) + LoserLine(c) + ScoreLine(c) + DateLine(c)
    ensures NoCacheTag !in body && EasterEggTag !in body
  {
    BodyLinesNotTags(c);
    assert IsTag(NoCacheTag) && IsTag(EasterEggTag);
  }

  lemma TagsInTags(c: ChampionshipRow, noCache: bool)
    ensures NoCacheTag in PromptTags(c, noCache) <==> noCache
    ensures EasterEggTag in PromptTags(c, noCache) <==> c.gameTitle == XliiTitle
  {
    assert NoCacheTag != EasterEggTag by {
      assert |NoCacheTag| != |EasterEggTag|;
    }
  }

  lemma InConcat<T>(x: T, a: seq<T>, b: seq<T>)
    ensures x in a + b <==> x in a || x in b
  {
  }

  /** The id, game, year, league and winner lines always appear, consecutively and in that order. */
  lemma PromptFixedLines(c: ChampionshipRow, noCache: bool)
    ensures var t := |PromptTags(c, noCache)|;
            && t == (if noCache then 1 else 0) + (if c.gameTitle == XliiTitle then 1 else 0)
            && t + 5 <= |PromptLines(c, noCache)|
            && PromptLines(c, noCache)[t..t + 5]
               == [IdTag(c.id), "Game: " + c.gameTitle, "Year: " + IntToString(c.year),
                   "League: " + LeagueLabel(c.league), "Winner: " + c.winningDisplayName]
  {
    var tags, f := PromptTags(c, noCache), FixedLines(c);
    var rest := LoserLine(c) + ScoreLine(c) + DateLine(c);
    PromptParts(c, noCache);
    MiddleSlice(tags, f, rest);
  }

  lemma MiddleSlice<T>(a: seq<T>, b: seq<T>, c: seq<T>)
    ensures |a| + |b| <= |a + b + c| && (a + b + c)[|a|..|a| + |b|] == b
  {
  }

  /** A line starting with `head` starts with none of the optional lines' labels. */
  lemma NotOptional(head: string, x: string, i: nat)
    requires i < |head|
    requires i < 6 && head[i] != "Loser: "[i] && head[i] != "Score: "[i] && head[i] != "Date: "[i]
    ensures !("Loser: " <= head + x) && !("Score: " <= head + x) && !("Date: " <= head + x)
  {
    PrefixMismatch(head, x, "Loser: ", i);
    PrefixMismatch(head, x, "Score: ", i);
    PrefixMismatch(head, x, "Date: ", i);
  }

  /** None of the tags and fixed lines starts like an optional line. */
  lemma LeadingLineKind(c: ChampionshipRow, noCache: bool, l: string)
    requires l in PromptTags(c, noCache) || l in FixedLines(c)
    ensures !("Loser: " <= l) && !("Score: " <= l) && !("Date: " <= l)
  {
    var f := FixedLines(c);
    if l in PromptTags(c, noCache) {
      assert l == NoCacheTag || l == EasterEggTag;
      NotOptional(l, "", 0);
      assert l + "" == l;
    } else if l == f[0] {
      NotOptional(IdTagPrefix, IntToString(c.id) + "]", 0);
      assert l == IdTagPrefix + (IntToString(c.id) + "]");
    } else if l == f[1] {
      NotOptional("Game: ", c.gameTitle, 0);
    } else if l == f[2] {
      NotOptional("Year: ", IntToString(c.year), 0);
    } else if l == f[3] {
      NotOptional("League: ", LeagueLabel(c.league), 1);
    } else {
      assert l == f[4];
      NotOptional("Winner: ", c.winningDisplayName, 0);
    }
  }

  lemma LoserLineKind(c: ChampionshipRow)
    ensures forall l :: l in LoserLine(c) ==> !("Score: " <= l) && !("Date: " <= l)
  {
    if Truthy(c.losingDisplayName) {
      PrefixMismatch("Loser: ", c.losingDisplayName.value, "Score: ", 0);
      PrefixMismatch("Loser: ", c.losingDisplayName.value, "Date: ", 0);
    }
  }

  lemma ScoreLineKind(c: ChampionshipRow)
    ensures forall l :: l in ScoreLine(c) ==> !("Loser: " <= l) && !("Date: " <= l)
  {
    if c.winningScore.Some? && c.losingScore.Some? {
      var a, b := IntToString(c.winningScore.value), IntToString(c.losingScore.value);
      assert "Score: " + a + "\U{2013}" + b == "Score: " + (a + "\U{2013}" + b);
      PrefixMismatch("Score: ", a + "\U{2013}" + b, "Loser: ", 0);
      PrefixMismatch("Score: ", a + "\U{2013}" + b, "Date: ", 0);
    }
  }

  lemma DateLineKind(c: ChampionshipRow)
    ensures forall l :: l in DateLine(c) ==> !("Loser: " <= l) && !("Score: " <= l)
  {
    if Truthy(c.championshipDate) {
      PrefixMismatch("Date: ", c.championshipDate.value, "Loser: ", 0);
      PrefixMismatch("Date: ", c.championshipDate.value, "Score: ", 0);
    }
  }

  /** Which part of the prompt a line comes from, by how it starts. */
  lemma LineKind(c: ChampionshipRow, noCache: bool, l: string)
    requires l in PromptLines(c, noCache)
    ensures "Loser: " <= l ==> l in LoserLine(c)
    ensures "Score: " <= l ==> l in ScoreLine(c)
    ensures "Date: " <= l ==> l in DateLine(c)
  {
    var tags, f := PromptTags(c, noCache), FixedLines(c);
    var lo, sc, da := LoserLine(c), ScoreLine(c), DateLine(c);
    assert PromptLines(c, noCache) == tags + f + lo + sc + da;
    if l in tags || l in f {
      LeadingLineKind(c, noCache, l);
    } else if l in lo {
      LoserLineKind(c);
    } else if l in sc {
      ScoreLineKind(c);
    } else {
      DateLineKind(c);
    }
  }

  /**
   * The loser line appears exactly when the losing name is truthy, the score line
   * exactly when both scores are present, and the date line exactly when the date
   * is truthy.
   */
  lemma PromptOptionalLines(c: ChampionshipRow, noCache: bool)
    ensures (exists l :: l in PromptLines(c, noCache) && "Loser: " <= l) <==> Truthy(c.losingDisplayName)
    ensures (exists l :: l in PromptLines(c, noCache) && "Score: " <= l) <==> c.winningScore.Some? && c.losingScore.Some?
    ensures (exists l :: l in PromptLines(c, noCache) && "Date: " <= l) <==> Truthy(c.championshipDate)
  {
    LabelledLine(c, noCache, "Loser: ", LoserLine(c));
    LabelledLine(c, noCache, "Score: ", ScoreLine(c));
    LabelledLine(c, noCache, "Date: ", DateLine(c));
  }

  /** A label starts a prompt line exactly when its optional line is present. */
  lemma LabelledLine(c: ChampionshipRow, noCache: bool, prefix: string, opt: seq<string>)
    requires || (prefix == "Loser: " && opt == LoserLine(c))
             || (prefix == "Score: " && opt == ScoreLine(c))
             || (prefix == "Date: " && opt == DateLine(c))
    ensures (exists l :: l in PromptLines(c, noCache) && prefix <= l) <==> |opt| > 0
  {
    if |opt| > 0 {
      var l := PrefixedLine(c, noCache, prefix, opt);
    } else {
      NoPrefixedLine(c, noCache, prefix, opt);
    }
  }

  lemma PrefixedLine(c: ChampionshipRow, noCache: bool, prefix: string, opt: seq<string>) returns (l: string)
    requires || (prefix == "Loser: " && opt == LoserLine(c))
             || (prefix == "Score: " && opt == ScoreLine(c))
             || (prefix == "Date: " && opt == DateLine(c))
    requires |opt| > 0
    ensures l in PromptLines(c, noCache) && prefix <= l
  {
    l := opt[0];
    OptionalInPrompt(c, noCache, l);
  }

  lemma NoPrefixedLine(c: ChampionshipRow, noCache: bool, prefix: string, opt: seq<string>)
    requires || (prefix == "Loser: " && opt == LoserLine(c))
             || (prefix == "Score: " && opt == ScoreLine(c))
             || (prefix == "Date: " && opt == DateLine(c))
    requires |opt| == 0
    ensures forall l :: l in PromptLines(c, noCache) ==> !(prefix <= l)
  {
    forall l | l in PromptLines(c, noCache) ensures !(prefix <= l) {
      LineKind(c, noCache, l);
    }
  }

  /** Every optional line is a line of the prompt. */
  lemma OptionalInPrompt(c: ChampionshipRow, noCache: bool, l: string)
    requires l in LoserLine(c) || l in ScoreLine(c) || l in DateLine(c)
    ensures l in PromptLines(c, noCache)
  {
    var t := LoserLine(c) + ScoreLine(c) + DateLine(c);
    InConcat(l, LoserLine(c) + ScoreLine(c), DateLine(c));
    InConcat(l, LoserLine(c), ScoreLine(c));
    PromptParts(c, noCache);
    InConcat(l, PromptTags(c, noCache) + FixedLines(c), t);
  }

  // ---------------------------------------------------------------------------
  // renderInline: the `**bold**` and `*italic*` scanner
  // ---------------------------------------------------------------------------

  /** The characters JavaScript's `.` does not match. */
  predicate IsLineTerminator(ch: char) {
    ch == '\n' || ch == '\r' || ch == '\U{2028}' || ch == '\U{2029}'
  }

  predicate NoTerminator(s: string) {
    forall i :: 0 <= i < |s| ==> !IsLineTerminator(s[i])
  }

  /**
   * The pattern `d(.+?)d` (with `d` the escaped `**` or `*`) can match from `i`
   * with its capture ending at `e`: a delimiter at both ends and a non-empty
   * capture with no line terminator.
   */
  predicate Delimited(s: string, d: string, i: int, e: int) {
    OccursAt(s, d, i) && i + |d| < e && OccursAt(s, d, e) && NoTerminator(s[i + |d|..e])
  }

  /** A match: where it starts, and where its capture ends (the closing delimiter's position). */
  datatype Match = Match(index: nat, close: nat)

  /** The lazy capture: the first `e` from `e0` on where `d` occurs, if no line terminator comes first. */
  function CloseFrom(s: string, d: string, start: nat, e0: nat): (r: Option<nat>)
    requires start < e0 <= |s| && NoTerminator(s[start..e0])
    ensures r.Some? ==> e0 <= r.value && OccursAt(s, d, r.value) && NoTerminator(s[start..r.value])
    ensures r.Some? ==> forall k :: e0 <= k < r.value ==> !OccursAt(s, d, k)
    ensures r.None? ==> forall k :: e0 <= k <= |s| && NoTerminator(s[start..k]) ==> !OccursAt(s, d, k)
    decreases |s| - e0
  {
    if OccursAt(s, d, e0) then Some(e0)
    else if e0 < |s| && !IsLineTerminator(s[e0]) then
      assert s[start..e0 + 1] == s[start..e0] + [s[e0]];
      CloseFrom(s, d, start, e0 + 1)
    else
      assert forall k :: e0 < k <= |s| ==> s[start..k][e0 - start] == s[e0];
      None
  }

  /** The shortest match of `d(.+?)d` starting at `i`. */
  function MatchAt(s: string, d: string, i: nat): (r: Option<nat>)
    requires |d| > 0
    ensures r.Some? ==> Delimited(s, d, i, r.value)
  {
    var start := i + |d|;
    if OccursAt(s, d, i) && start < |s| && !IsLineTerminator(s[start]) then
      assert s[start..start + 1] == [s[start]];
      CloseFrom(s, d, start, start + 1)
    else None
  }

  /** `MatchAt` finds the shortest match at `i`, and finds none only when there is none. */
  lemma MatchAtCorrect(s: string, d: string, i: nat)
    requires |d| > 0
    ensures var r := MatchAt(s, d, i);
            && (r.Some? ==> forall e :: e < r.value ==> !Delimited(s, d, i, e))
            && (r.None? ==> forall e :: !Delimited(s, d, i, e))
  {
    var start := i + |d|;
    if OccursAt(s, d, i) && start < |s| && !IsLineTerminator(s[start]) {
      assert s[start..start + 1] == [s[start]];
      assert forall e :: Delimited(s, d, i, e) ==> start + 1 <= e && s[start..e][0] == s[start];
    } else {
      assert forall e :: Delimited(s, d, i, e) ==> s[start..e][0] == s[start];
    }
  }

  /** `s.match(re)` from position `i` on: the leftmost position with a match, and its shortest match. */
  function FindFrom(s: string, d: string, i: nat): (r: Option<Match>)
    requires |d| > 0
    ensures r.Some? ==> i <= r.value.index && Delimited(s, d, r.value.index, r.value.close)
    decreases |s| - i
  {
    if i > |s| then None
    else
      match MatchAt(s, d, i)
      case Some(e) => Some(Match(i, e))
      case None => FindFrom(s, d, i + 1)
  }

  /**
   * The match `FindFrom` reports is the leftmost one and, at its position, the
   * shortest; it reports none only when no match exists from `i` on.
   */
  lemma {:induction false} FindFromCorrect(s: string, d: string, i: nat)
    requires |d| > 0
    ensures var r := FindFrom(s, d, i);
            && (r.Some? ==> forall e :: e < r.value.close ==> !Delimited(s, d, r.value.index, e))
            && (r.Some? ==> forall k, e :: i <= k < r.value.index ==> !Delimited(s, d, k, e))
            && (r.None? ==> forall k, e :: i <= k ==> !Delimited(s, d, k, e))
    decreases |s| - i
  {
    if i > |s| {
      forall k, e | i <= k ensures !Delimited(s, d, k, e) {
        assert !OccursAt(s, d, k);
      }
    } else {
      MatchAtCorrect(s, d, i);
      if MatchAt(s, d, i).None? {
        FindFromCorrect(s, d, i + 1);
        assert FindFrom(s, d, i) == FindFrom(s, d, i + 1);
        assert forall e :: !Delimited(s, d, i, e);
      }
    }
  }

  /** One piece of rendered inline text; a strong piece remembers which pattern found it. */
  datatype Inline = Plain(text: string) | Strong(inner: string, delim: string) | Em(inner: string)

  /** The markdown a piece came from. */
  function Source(p: Inline): string {
    match p
    case Plain(t) => t
    case Strong(x, d) => d + x + d
    case Em(x) => "*" + x + "*"
  }

  function Flatten(ps: seq<Inline>): string {
    if |ps| == 0 then "" else Source(ps[0]) + Flatten(ps[1..])
  }

  /** The match `renderInline` acts on: bold when it starts no later than italic. */
  function PickMatch(text: string): (r: Option<(Match, string)>)
    ensures r.Some? ==> (r.value.1 == "**" || r.value.1 == "*") && Delimited(text, r.value.1, r.value.0.index, r.value.0.close)
  {
    var b := FindFrom(text, "**", 0);
    var it := FindFrom(text, "*", 0);
    FindFromCorrect(text, "**", 0);
    FindFromCorrect(text, "*", 0);
    if b.Some? && (it.None? || b.value.index <= it.value.index) then Some((b.value, "**"))
    else if it.Some? then Some((it.value, "*"))
    else None
  }

  /** The pieces one round of the scan emits: the plain text before the match, then the match. */
  function Round(text: string, m: Match, d: string): seq<Inline>
    requires m.index + |d| <= m.close <= |text|
  {
    (if m.index > 0 then [Plain(text[..m.index])] else []) + [MatchNode(text, m, d)]
  }

  /** The piece for a match: strong when the text at the match starts with `**`, emphasised otherwise. */
  function MatchNode(text: string, m: Match, d: string): Inline
    requires m.index + |d| <= m.close <= |text|
  {
    var inner := text[m.index + |d|..m.close];
    if OccursAt(text, "**", m.index) then Strong(inner, d) else Em(inner)
  }

  /**
   * `renderInline`: plain text up to the chosen match, the match as a strong piece
   * when its text starts with `**` (otherwise emphasised), then the rest. Each
   * round consumes the whole match, so the scan ends.
   */
  function RenderInline(text: string): seq<Inline>
    decreases |text|, 1
  {
    if |text| == 0 then []
    else
      match PickMatch(text)
      case None => [Plain(text)]
      case Some((m, d)) => RenderMatch(text, m, d)
  }

  /** A round that found match `m` of delimiter `d`, followed by the rendering of the rest. */
  function RenderMatch(text: string, m: Match, d: string): seq<Inline>
    requires |d| > 0 && m.index + |d| <= m.close && m.close + |d| <= |text|
    decreases |text|, 0
  {
    Round(text, m, d) + RenderInline(text[m.close + |d|..])
  }

  lemma {:induction false} FlattenAppend(a: seq<Inline>, b: seq<Inline>)
    ensures Flatten(a + b) == Flatten(a) + Flatten(b)
    decreases |a|
  {
    if |a| > 0 {
      FlattenAppend(a[1..], b);
      FlattenStepHead(a, b);
      ConcatShift(Source(a[0]), Flatten(a[1..]), Flatten(b), Flatten(a[1..] + b), Flatten(a + b), Flatten(a));
    } else {
      assert a + b == b;
    }
  }

  lemma FlattenStepHead(a: seq<Inline>, b: seq<Inline>)
    requires |a| > 0
    ensures Flatten(a + b) == Source(a[0]) + Flatten(a[1..] + b)
    ensures Flatten(a) == Source(a[0]) + Flatten(a[1..])
  {
    var ab := a + b;
    assert ab[0] == a[0] && ab[1..] == a[1..] + b;
  }

  /** The piece a match renders to, written back, is the matched text. */
  lemma MatchSource(text: string, m: Match, d: string)
    requires (d == "**" || d == "*") && Delimited(text, d, m.index, m.close)
    ensures m.index + |d| < m.close && m.close + |d| <= |text|
    ensures Source(MatchNode(text, m, d)) == text[m.index..m.close + |d|]
  {
    DelimitedSpan(text, d, m.index, m.close);
    MatchNodeSource(text, m, d);
  }

  lemma MatchNodeSource(text: string, m: Match, d: string)
    requires (d == "**" || d == "*") && Delimited(text, d, m.index, m.close)
    ensures Source(MatchNode(text, m, d)) == d + text[m.index + |d|..m.close] + d
  {
    assert d == "**" ==> OccursAt(text, "**", m.index);
  }

  /** A delimited span is the delimiter, the capture, and the delimiter again. */
  lemma DelimitedSpan(text: string, d: string, i: int, e: int)
    requires Delimited(text, d, i, e)
    ensures e + |d| <= |text| && text[i..e + |d|] == d + text[i + |d|..e] + d
  {
    SpanSlices(text, i, i + |d|, e, e + |d|);
  }

  lemma SpanSlices(s: string, a: nat, b: nat, c: nat, e: nat)
    requires a <= b <= c <= e <= |s|
    ensures s[a..e] == s[a..b] + s[b..c] + s[c..e]
  {
  }

  lemma RoundSource(text: string, m: Match, d: string)
    requires (d == "**" || d == "*") && Delimited(text, d, m.index, m.close)
    ensures m.close + |d| <= |text|
    ensures Flatten(Round(text, m, d)) == text[..m.close + |d|]
  {
    MatchSource(text, m, d);
    FlattenRound(text, m.index, m.close + |d|, MatchNode(text, m, d));
  }

  /** Plain text up to `i`, then a piece whose source runs from `i` to `j`, write back the text up to `j`. */
  lemma FlattenRound(text: string, i: nat, j: nat, node: Inline)
    requires i <= j <= |text| && Source(node) == text[i..j]
    ensures Flatten((if i > 0 then [Plain(text[..i])] else []) + [node]) == text[..j]
  {
    var pre: seq<Inline> := if i > 0 then [Plain(text[..i])] else [];
    FlattenAppend(pre, [node]);
    assert Flatten([node]) == Source(node) + Flatten([]);
    assert text[..j] == text[..i] + text[i..j];
  }

  /** Rendering loses no text: the pieces, written back as markdown, give the input. */
  lemma {:induction false} RenderInlineRoundTrip(text: string)
    ensures Flatten(RenderInline(text)) == text
    decreases |text|
  {
    if |text| > 0 && PickMatch(text).Some? {
      var p := PickMatch(text).value;
      var m, d := p.0, p.1;
      RoundSource(text, m, d);
      RenderInlineUnfold(text, m, d);
      var n := m.close + |d|;
      var head, tail := Round(text, m, d), RenderInline(text[n..]);
      RenderInlineRoundTrip(text[n..]);
      FlattenStep(text, n, head, tail);
      assert RenderMatch(text, m, d) == head + tail;
    }
  }

  /** One round of the scan: its pieces, then the rendering of the rest. */
  lemma RenderInlineUnfold(text: string, m: Match, d: string)
    requires |text| > 0 && PickMatch(text) == Some((m, d))
    ensures |d| > 0 && m.index + |d| <= m.close && m.close + |d| <= |text|
    ensures RenderInline(text) == RenderMatch(text, m, d)
  {
  }

  lemma FlattenStep(text: string, n: nat, head: seq<Inline>, tail: seq<Inline>)
    requires n <= |text| && Flatten(head) == text[..n] && Flatten(tail) == text[n..]
    ensures Flatten(head + tail) == text
  {
    FlattenAppend(head, tail);
    SplitAt(text, n);
  }

  lemma SplitAt(s: string, n: nat)
    requires n <= |s|
    ensures s == s[..n] + s[n..]
  {
  }

  lemma ThreeSlices(s: string, a: nat, b: nat)
    requires a <= b <= |s|
    ensures s == s[..a] + s[a..b] + s[b..]
  {
  }

  /** A `**` match is also a `*` match at the same place, so bold never starts after italic. */
  lemma BoldIsItalic(s: string, i: int, e: int)
    requires Delimited(s, "**", i, e)
    ensures Delimited(s, "*", i, e + 1)
  {
    assert s[i] == s[i..i + 2][0] == '*' && s[i + 1] == s[i..i + 2][1] == '*';
    assert s[e] == s[e..e + 2][0] == '*' && s[e + 1] == s[e..e + 2][1] == '*';
    assert s[i..i + 1] == [s[i]] && s[e + 1..e + 2] == [s[e + 1]];
    var x := s[i + 1..e + 1];
    forall k | 0 <= k < |x| ensures !IsLineTerminator(x[k]) {
      if 0 < k < e - i - 1 {
        assert x[k] == s[i + 2..e][k - 1];
      }
    }
  }

  /**
   * When the leftmost `**...**` match starts no later than any `*...*` match,
   * `renderInline` emits the text before it and then its shortest capture, strong.
   */
  lemma RenderInlineBold(text: string, i: nat, e: nat)
    requires Delimited(text, "**", i, e)
    requires forall k, e' :: 0 <= k < i ==> !Delimited(text, "*", k, e')
    requires forall e' :: e' < e ==> !Delimited(text, "**", i, e')
    ensures var r := RenderInline(text);
            var n := if i > 0 then 1 else 0;
            && |r| > n
            && (i > 0 ==> r[0] == Plain(text[..i]))
            && r[n] == Strong(text[i + 2..e], "**")
  {
    PickBold(text, i, e);
    RenderPicked(text, Match(i, e), "**");
  }

  lemma PickBold(text: string, i: nat, e: nat)
    requires Delimited(text, "**", i, e)
    requires forall k, e' :: 0 <= k < i ==> !Delimited(text, "*", k, e')
    requires forall e' :: e' < e ==> !Delimited(text, "**", i, e')
    ensures |text| > 0 && PickMatch(text) == Some((Match(i, e), "**"))
  {
    var b := FindFrom(text, "**", 0);
    var it := FindFrom(text, "*", 0);
    FindFromCorrect(text, "**", 0);
    FindFromCorrect(text, "*", 0);
    BoldIsItalic(text, i, e);
    assert it.Some?;
    if b.value.index < i {
      BoldIsItalic(text, b.value.index, b.value.close);
    }
    assert b.value == Match(i, e);
  }

  /** What `renderInline` emits first for the match it picks: the text before it, then the match. */
  lemma RenderPicked(text: string, m: Match, d: string)
    requires |text| > 0 && PickMatch(text) == Some((m, d))
    ensures var r := RenderInline(text);
            var n := if m.index > 0 then 1 else 0;
            && m.index + |d| <= m.close <= |text|
            && |r| > n
            && (m.index > 0 ==> r[0] == Plain(text[..m.index]))
            && r[n] == MatchNode(text, m, d)
  {
    RenderInlineUnfold(text, m, d);
    var head := Round(text, m, d);
    var tail := RenderInline(text[m.close + |d|..]);
    assert RenderInline(text) == head + tail;
    RoundShape(text, m, d);
  }

  lemma RoundShape(text: string, m: Match, d: string)
    requires m.index + |d| <= m.close <= |text|
    ensures var h := Round(text, m, d);
            var n := if m.index > 0 then 1 else 0;
            && |h| == n + 1
            && (m.index > 0 ==> h[0] == Plain(text[..m.index]))
            && h[n] == MatchNode(text, m, d)
  {
  }

  /**
   * When a `*...*` match starts strictly before any `**...**` match, `renderInline`
   * emits the text before it and then the capture: strong if the match starts with
   * `**`, emphasised otherwise.
   */
  lemma RenderInlineItalic(text: string, i: nat, e: nat)
    requires Delimited(text, "*", i, e)
    requires forall k, e' :: 0 <= k <= i ==> !Delimited(text, "**", k, e')
    requires forall k, e' :: 0 <= k < i ==> !Delimited(text, "*", k, e')
    requires forall e' :: e' < e ==> !Delimited(text, "*", i, e')
    ensures var r := RenderInline(text);
            var n := if i > 0 then 1 else 0;
            var x := text[i + 1..e];
            && |r| > n
            && (i > 0 ==> r[0] == Plain(text[..i]))
            && r[n] == (if x != "" && x[0] == '*' then Strong(x, "*") else Em(x))
  {
    PickItalic(text, i, e);
    RenderPicked(text, Match(i, e), "*");
    var x := text[i + 1..e];
    assert OccursAt(text, "**", i) <==> x[0] == '*' by {
      assert text[i..i + 2] == [text[i], text[i + 1]];
    }
  }

  lemma PickItalic(text: string, i: nat, e: nat)
    requires Delimited(text, "*", i, e)
    requires forall k, e' :: 0 <= k <= i ==> !Delimited(text, "**", k, e')
    requires forall k, e' :: 0 <= k < i ==> !Delimited(text, "*", k, e')
    requires forall e' :: e' < e ==> !Delimited(text, "*", i, e')
    ensures |text| > 0 && PickMatch(text) == Some((Match(i, e), "*"))
  {
    var b := FindFrom(text, "**", 0);
    var it := FindFrom(text, "*", 0);
    FindFromCorrect(text, "**", 0);
    FindFromCorrect(text, "*", 0);
    assert it.value == Match(i, e);
    assert b.None? || b.value.index > i;
  }

  /** Text with no `*` renders as itself, unstyled. */
  lemma RenderInlinePlain(text: string)
    requires text != "" && '*' !in text
    ensures RenderInline(text) == [Plain(text)]
  {
    forall k, e ensures !Delimited(text, "*", k, e) {
      if Delimited(text, "*", k, e) {
        WindowChar(text, "*", k, 0);
        assert false;
      }
    }
    forall k, e ensures !Delimited(text, "**", k, e) {
      if Delimited(text, "**", k, e) {
        WindowChar(text, "**", k, 0);
        assert false;
      }
    }
  }

  // ---------------------------------------------------------------------------
  // renderMarkdown: one block per non-blank line
  // ---------------------------------------------------------------------------

  datatype Block =
    | Heading2(text: string)
    | Heading3(text: string)
    | Bullet(content: seq<Inline>)
    | Paragraph(content: seq<Inline>)

  /** The block a line renders to, if any: the first matching rule wins. */
  function RenderLine(line: string): (r: Option<Block>)
    ensures r.None? <==> IsBlank(line)
  {
    if "## " <= line then
      assert !IsWhitespace(line[0]);
      Some(Heading2(line[3..]))
    else if "### " <= line then
      assert !IsWhitespace(line[0]);
      Some(Heading3(line[4..]))
    else if "- " <= line || "* " <= line then
      assert !IsWhitespace(line[0]);
      Some(Bullet(RenderInline(line[2..])))
    else if IsBlank(line) then None
    else Some(Paragraph(RenderInline(line)))
  }

  function RenderLines(lines: seq<string>): seq<Block> {
    if |lines| == 0 then []
    else
      var head := RenderLine(lines[0]);
      (if head.Some? then [head.value] else []) + RenderLines(lines[1..])
  }

  /** `renderMarkdown`: the text's lines (split on `\n`), rendered in order. */
  function RenderMarkdown(text: string): seq<Block> {
    RenderLines(Split(text, '\n'))
  }

  /** The lines that are not blank, in order. */
  function NonBlank(lines: seq<string>): (r: seq<string>)
    ensures forall l :: l in r <==> l in lines && !IsBlank(l)
  {
    if |lines| == 0 then []
    else (if IsBlank(lines[0]) then [] else [lines[0]]) + NonBlank(lines[1..])
  }

  /**
   * Blank lines (whitespace only) vanish and every other line gives exactly one
   * block, in order: the k-th block is the rendering of the k-th non-blank line.
   */
  lemma {:induction false} RenderLinesCorrect(lines: seq<string>)
    ensures |RenderLines(lines)| == |NonBlank(lines)|
    ensures forall k :: 0 <= k < |NonBlank(lines)| ==> Some(RenderLines(lines)[k]) == RenderLine(NonBlank(lines)[k])
    decreases |lines|
  {
    if |lines| > 0 {
      RenderLinesCorrect(lines[1..]);
    }
  }

  /**
   * A heading, bullet or paragraph block, written back with its marker, is the
   * line it came from; headings are checked before bullets, and `### ` lines
   * are third-level headings.
   */
  lemma RenderLineSource(line: string)
    ensures "## " <= line ==> RenderLine(line) == Some(Heading2(line[3..]))
    ensures "### " <= line ==> RenderLine(line) == Some(Heading3(line[4..]))
    ensures ("- " <= line || "* " <= line) ==> RenderLine(line) == Some(Bullet(RenderInline(line[2..])))
    ensures RenderLine(line).Some? && RenderLine(line).value.Heading2? ==> "## " <= line
    ensures RenderLine(line).Some? && RenderLine(line).value.Heading3? ==> "### " <= line
    ensures RenderLine(line).Some? && RenderLine(line).value.Bullet? ==> "- " <= line || "* " <= line
    ensures RenderLine(line).Some? && RenderLine(line).value.Paragraph? ==>
              !IsBlank(line) && RenderLine(line).value.content == RenderInline(line)
  {
    if "### " <= line {
      assert line[2] == '#';
    }
    if "- " <= line || "* " <= line {
      assert line[0] != '#';
    }
  }

  // ---------------------------------------------------------------------------
  // BoxScore: the score table
  // ---------------------------------------------------------------------------

  function Max(a: nat, b: nat): nat {
    if a >= b then a else b
  }

  /** `maxPeriods`: the number of period columns. */
  function MaxPeriods(b: BoxScore): nat {
    Max(|b.winner.periods|, |b.loser.periods|)
  }

  /** A row's period cells: its own values, then `-` padding (as `None`) up to `width`. */
  function PeriodCells(t: BoxScoreTeam, width: nat): (cells: seq<Option<int>>)
    requires |t.periods| <= width
  {
    seq(width, i requires 0 <= i < width => if i < |t.periods| then Some(t.periods[i]) else None)
  }

  /** The period column headers: the label followed by the 1-based column number. */
  function PeriodHeaders(b: BoxScore): seq<string> {
    seq(MaxPeriods(b), i requires 0 <= i => b.periodLabel + NatToString(i + 1))
  }

  predicate IsSeries(b: BoxScore) {
    b.periodLabel == "Gm"
  }

  /** The header of the last column. */
  function FinalHeader(b: BoxScore): string {
    if IsSeries(b) then "Series" else "Final"
  }

  /**
   * The table is rectangular: both rows have exactly as many period cells as
   * there are headers, which is the longer period list; each row shows its own
   * values first and pads only the columns it lacks.
   */
  lemma BoxScoreTable(b: BoxScore)
    ensures var m := MaxPeriods(b);
            && |b.winner.periods| <= m && |b.loser.periods| <= m
            && (m == |b.winner.periods| || m == |b.loser.periods|)
            && |PeriodHeaders(b)| == m
            && |PeriodCells(b.winner, m)| == m && |PeriodCells(b.loser, m)| == m
    ensures var m := MaxPeriods(b);
            forall i :: 0 <= i < m ==>
              && (PeriodCells(b.winner, m)[i].Some? <==> i < |b.winner.periods|)
              && (PeriodCells(b.loser, m)[i].Some? <==> i < |b.loser.periods|)
              && (i < |b.winner.periods| ==> PeriodCells(b.winner, m)[i] == Some(b.winner.periods[i]))
              && (i < |b.loser.periods| ==> PeriodCells(b.loser, m)[i] == Some(b.loser.periods[i]))
  {
  }

  /**
   * The headers, used as element keys, are distinct: each one's number reads back
   * as its 1-based column.
   */
  lemma PeriodHeadersDistinct(b: BoxScore)
    ensures forall i, j :: 0 <= i < j < |PeriodHeaders(b)| ==> PeriodHeaders(b)[i] != PeriodHeaders(b)[j]
    ensures forall i :: 0 <= i < |PeriodHeaders(b)| ==>
              b.periodLabel <= PeriodHeaders(b)[i]
              && DigitsValue(PeriodHeaders(b)[i][|b.periodLabel|..]) == i + 1
  {
    var h := PeriodHeaders(b);
    forall i | 0 <= i < |h|
      ensures b.periodLabel <= h[i] && DigitsValue(h[i][|b.periodLabel|..]) == i + 1
    {
      assert h[i][|b.periodLabel|..] == NatToString(i + 1);
      NatToStringRoundTrip(i + 1);
    }
    forall i, j | 0 <= i < j < |h| ensures h[i] != h[j] {
      assert h[i][|b.periodLabel|..] == NatToString(i + 1);
      assert h[j][|b.periodLabel|..] == NatToString(j + 1);
      NatToStringRoundTrip(i + 1);
      NatToStringRoundTrip(j + 1);
    }
  }

  /** The venue / attendance line: shown when either is set, with ` · ` between them only when both are. */
  function VenueLine(b: BoxScore): (r: Option<string>)
    ensures r.Some? <==> Truthy(b.venue) || Truthy(b.attendance)
    ensures Truthy(b.venue) && Truthy(b.attendance) ==> r == Some(b.venue.value + " \U{00B7} " + b.attendance.value)
    ensures Truthy(b.venue) && !Truthy(b.attendance) ==> r == Some(b.venue.value)
    ensures !Truthy(b.venue) && Truthy(b.attendance) ==> r == Some(b.attendance.value)
  {
    if !Truthy(b.venue) && !Truthy(b.attendance) then None
    else
      var v := if Truthy(b.venue) then b.venue.value else "";
      var a := if Truthy(b.attendance) then b.attendance.value else "";
      var sep := if Truthy(b.venue) && Truthy(b.attendance) then " \U{00B7} " else "";
      assert v + "" + "" == v && "" + "" + a == a;
      Some(v + sep + a)
  }
}
