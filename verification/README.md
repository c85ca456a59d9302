# Ring Count, modelled in Dafny

Ring Count shows a person every championship their favourite teams won in their
lifetime. There are three parts:

- **Ingest.** A scheduled job reads each league's postseason scoreboard from
  ESPN and stores new championships in a D1 (SQLite) table.
- **Pages.** The landing page asks for a birthday, the selection page picks
  teams, and the timeline page shows titles (and optionally losses) year by
  year, with a bar of statistics.
- **Routes.** A game-detail route streams an AI write-up of one championship
  and caches it. Two small routes proxy team logos and draw the share card.

This project models that core as pure Dafny functions over immutable
datatypes. Each source file has one module:

| module | source |
|---|---|
| `Ingest` | `cron/src/index.ts` |
| `Db` | `src/lib/db.ts` |
| `TimelineUtils` | `src/lib/timeline/utils.ts` |
| `Stats` | `src/lib/timeline/stats-bar.tsx` |
| `GameDetail` | `src/lib/game-detail.tsx` |
| `GameDetailApi` | `src/routes/api/game-detail.ts` |
| `Logo` | `src/routes/api/logo.ts` |
| `Og` | `src/routes/api/og.ts` |
| `Timeline` | `src/routes/timeline.tsx` |
| `Select` | `src/routes/select.tsx` |
| `Landing` | `src/routes/index.tsx` |

The shared modules are:

- `Wrappers` (`Option`, `Result`);
- `Strings` (JavaScript string operations: `split`, `join`, `includes`,
  `indexOf`, `padStart`, `trim`, `parseInt`, ASCII case mapping);
- `Sorting` (a stable descending sort, key filters and sums);
- `Grouping` (a `Map` in insertion order, as a sequence of key/items groups);
- `Dates` (proleptic Gregorian dates, day steps, ISO and compact formats).

The outside world enters as parameters:

- the database is a sequence of rows;
- an ESPN response is a `Feed` value;
- the model's SSE stream is a sequence of chunks;
- `JSON.parse` of a box score is an oracle function;
- the clock is a `CalendarDate` or a year;
- a logo fetch's outcome is an `Upstream` value.

## Model

| member | source | states |
|---|---|---|
| Ingest.MatchesKeywords | cron/src/index.ts:99-104 | An event matches exactly when some lowercased keyword occurs in the lowercased name joined by a space to the lowercased note headlines |
| Ingest.NameKeywordMatches | cron/src/index.ts:99-104 | A keyword found in the event name, in any letter case, is enough whatever the notes say |
| Ingest.ParseSeriesSummary | cron/src/index.ts:119-130 | No result exactly when the summary has no `digits-digits` pair. Otherwise the leftmost pair, each side its longest digit run, gives (larger, smaller) |
| Ingest.SeriesSummaryPlain | cron/src/index.ts:123-129 | "4-2" reads as four games to two |
| Ingest.SeriesSummaryReversed | cron/src/index.ts:123-129 | "2-4" also reads as four games to two: the larger count comes first |
| Ingest.SeriesSummaryTied | cron/src/index.ts:123-129 | "Series tied 3-3" reads as three games each |
| Ingest.SeriesSummaryNone | cron/src/index.ts:125-126 | A summary with no score pair gives nothing |
| Ingest.SelectSides | cron/src/index.ts:206-213 | No competitors is an error, and the only other error is an order the engine chooses (see Ingest.SidesUnordered). When the first competitor carries a winner flag, the sides are the first flagged winner and the first flagged loser. Any side found is one of the competitors |
| Ingest.SidesTied | cron/src/index.ts:209-213 | Without flags, when the scores that read as numbers are all the same number (or none does), every comparison ties, so the sides are the first two competitors in list order |
| Ingest.SidesUnordered | cron/src/index.ts:209-213 | Side selection reports an engine-chosen order exactly when there are no flags, some score does not read as a number, and two scores that do read as numbers differ: only then is the comparator inconsistent |
| Ingest.SidesByScore | cron/src/index.ts:209-213 | Without flags and with numeric scores, the sides are the first two of the stable descending sort. The winner has the top score and is the first-listed competitor with it; the loser is another competitor, with the top score among the rest |
| Ingest.SuperBowlNote | cron/src/index.ts:223-226 | The first note headline mentioning the Super Bowl in any case, and none exactly when no headline does |
| Ingest.SuperBowlMatch | cron/src/index.ts:228-229 | The leftmost case-insensitive "super bowl " followed by the longest run of the numerals L, X, V, I and 0-9; none exactly when the text never appears |
| Ingest.GameTitle | cron/src/index.ts:218-231 | Other leagues use their configured title. The NFL uses a Super Bowl headline first; then, for a name mentioning the Super Bowl, the matched Super Bowl part or else the whole name; then the configured title |
| Ingest.DatePart | cron/src/index.ts:233 | The date part is everything before the first 'T': a prefix free of 'T' that ends where the first 'T' stands, and the whole string when there is none |
| Ingest.DatePartOfTimestamp | cron/src/index.ts:233 | The date part of `<day>T<time>` is `<day>` |
| Ingest.SingleGamePlan | cron/src/index.ts:188-246 | An incomplete game is skipped and a game with no competition fails. A stored game has the selected sides, their parsed scores, the league, the season year, the game title and the date part |
| Ingest.SeriesPlan | cron/src/index.ts:248-297 | No competition fails, and a missing, unfinished or unparsable series is skipped. A stored series has the summary's win counts as scores, the selected sides, the configured title and the date part |
| Ingest.Plan | cron/src/index.ts:172-185 | An event that matches no keyword is skipped, and a matching one without a competition fails. Anything stored is filed under the configured league and the event's season year |
| Ingest.LookupTeam | cron/src/index.ts:132-142 | A team found is registered under that provider id and league. None is found only when no registered team has both |
| Ingest.Insert | cron/src/index.ts:299-351 | Nothing changes when the (league, year, title) row exists. Otherwise exactly one row is appended with the given fields; a registered team gives its id and "city name", and an unregistered one its provider display name and no id |
| Ingest.InsertIdempotent | cron/src/index.ts:310-315 | Inserting the same championship a second time changes nothing |
| Ingest.ApplyFrame | cron/src/index.ts:299-351 | One event leaves the table as it was or appends one row of the event's league at the end |
| Ingest.ProcessLeague | cron/src/index.ts:157-170 | A failed request, or a response without `events`, changes nothing |
| Ingest.ProcessEventsAppends | cron/src/index.ts:172-185 | A league run only appends, and every appended row belongs to that league |
| Ingest.SingleGameDecides | cron/src/index.ts:188-246 | A game is stored exactly when it is completed and both sides are found with numeric scores. A failed side selection fails with its own error, and the missing-winner and missing-loser errors arise exactly when that side is absent |
| Ingest.SeriesWithUnreadScore | cron/src/index.ts:273-296 | A completed "4-2" series whose scores read "3" and "" is stored with four games to two, the first-listed competitor as winner |
| Ingest.SeriesDecides | cron/src/index.ts:248-297 | A series is stored exactly when it is completed, its summary parses and its sides can be selected; any failure other than a missing competition is the side selection's error |
| Ingest.PlanDecides | cron/src/index.ts:172-185 | An event is stored exactly when it matches a keyword and is ready as a series or as a single game, as the league is configured |
| Ingest.EventStored | cron/src/index.ts:172-185 | In a run that ends without an error, every event planned for storing is on record afterwards under the league, its season year and its title |
| Ingest.RunSplit | cron/src/index.ts:172-185 | A run is the run of its first events when that one stops at an error, and otherwise continues with the run of the remaining events from the store it left |
| Ingest.ProcessLeagueIdempotent | cron/src/index.ts:157-186 | Processing the same response again adds nothing |
| Ingest.RunLeaguesAppends | cron/src/index.ts:361 | The whole job only appends, and every appended row belongs to one of the configured leagues |
| Ingest.RunLeaguesIdempotent | cron/src/index.ts:361-368 | For distinct leagues, running all leagues again on the same responses leaves the table and the outcomes as they were |
| Ingest.ScheduledIdempotent | cron/src/index.ts:353-371 | Running the scheduled job twice on the same responses leaves the table as one run left it |
| Ingest.ProcessEventsKeepsUnique | cron/src/index.ts:310-348 | A league run never stores two rows with the same league, year and title |
| Ingest.ApplyKeepsUnique | cron/src/index.ts:310-348 | One insert keeps (league, year, title) unique |
| Ingest.LeaguesDistinct | cron/src/index.ts:14-63 | The six configured leagues have distinct league names |
| Dates.DateRangeWindow | cron/src/index.ts:106-117 | The window runs from the date seven day steps back to today: the first eight digits are the start's compact date, then '-', then today's |
| Dates.CompactRoundTrip | cron/src/index.ts:111-114 | A four-digit-year date formats as eight digits that read back as its year, month and day |
| Dates.DaysAfterBefore | cron/src/index.ts:107-109 | Stepping n days back and n days forward returns the same date |
| Dates.IsoRoundTrip | src/lib/timeline/utils.ts:17 | A valid date with a year of at most four digits, written as YYYY-MM-DD, parses back to itself |
| Db.GroupByLeagueCorrect | src/lib/db.ts:50-61 | The six leagues come first, in order, even when empty, and keys are distinct. Each team's league is a key, each group holds exactly that league's teams in input order, and no team is lost |
| Db.LeagueOrderDistinct | src/lib/db.ts:36 | The fixed league order has no repeats |
| Db.LeagueLabel | src/lib/db.ts:152-159 | CFB is shown as College Football and CBB as College Basketball; every other league, an empty one included, under its own name |
| Db.LeagueLabelsDistinct | src/lib/db.ts:152-159 | The six leagues are shown under six different names |
| Db.LeagueLabelInjective | src/lib/db.ts:152-159 | Two leagues share a label only when one of them is the other's written-out college label |
| Db.JoinOnSound | src/lib/db.ts:74-89 | Every joined result is a table row whose (winning or losing) team id is one asked for, joined with the team of that id, and on or after the birth date |
| Db.JoinOnComplete | src/lib/db.ts:74-89 | Every row that passes the filters and whose team is on file is returned |
| Db.GetChampionships | src/lib/db.ts:64-97 | No ids give no titles. Every title returned was won by one of the ids, joined with the winning team, and lies on or after the birth date. A birth date that is not an ISO date, such as the empty one, gives no titles |
| Db.GetChampionshipLosses | src/lib/db.ts:99-132 | The same for losses, joined with the losing team, and no losses for a birth date that is not an ISO date |
| Db.GetTeamsByIds | src/lib/db.ts:134-146 | The teams returned are exactly the teams whose id was asked for |
| Logo.TeamLogoUrlRoundTrip | src/lib/db.ts:148-150 | The logo link reads back its league and id through the query string, so the route fetches that team's image |
| TimelineUtils.ChampYear | src/lib/timeline/utils.ts:15-20 | The season year when the date is missing or empty; otherwise the date's calendar year, so a date rendered from a calendar day reads back as that day's year |
| TimelineUtils.ChampYearOfDate | src/lib/timeline/utils.ts:15-20 | A championship dated d counts in d's calendar year, whatever its season year says |
| TimelineUtils.ChampYearIgnoresMonthDay | src/lib/timeline/utils.ts:17 | Two dates with the same first four characters give the same year |
| TimelineUtils.ChampYearFields | src/lib/timeline/utils.ts:15-20 | Only the stored date and the season year matter |
| Logo.CdnUrlCaseInsensitive | src/routes/api/logo.ts:15-32 | The league is matched without regard to case, and the two college leagues share the ncaa team folder |
| Logo.HandleLogo | src/routes/api/logo.ts:6-46 | 400 exactly when the league is missing or empty, and 404 exactly when the fetch fails. An image response carries the chosen URL, the one-week cache header, and the upstream content type with `image/png` as fallback |
| Logo.TwoParams | src/routes/api/logo.ts:7-9 | A two-parameter query string reads back both values |
| Og.LogoMatchesOg | src/routes/api/og.ts:9-15 | The card's logo URL is the one the logo route proxies for the same league and id, in any case |
| Og.OrDefault | src/routes/api/og.ts:22-25 | A present non-empty parameter is used as is; otherwise the default is used |
| Og.BirthYearOf | src/routes/api/og.ts:26 | The birth year is the part of `dob` before its first '-' |
| Og.SubtitleCorrect | src/routes/api/og.ts:33-35 | The noun is plural unless the count is exactly "1". "in your lifetime" closes the line exactly when a birth year is known |
| Og.LogoEntries | src/routes/api/og.ts:38-43 | No entries exactly for an empty parameter |
| Og.LogoEntriesRoundTrip | src/routes/api/og.ts:38-43 | Comma-joined `league:id` pairs read back as those pairs, in order, each with its proxied image URL |
| Og.NamesLineCorrect | src/routes/api/og.ts:104 | Every comma becomes a spaced middle dot, none is left, and a single name is shown as is |
| Og.OgCardCorrect | src/routes/api/og.ts:22-107 | A missing count shows 0. The logo row appears exactly when `logos` is given, with one image per entry. The names line appears exactly when `names` is given, closer to the logos when there are any |
| Og.BirthYearFromDob | src/routes/api/og.ts:26 | A birthday picked on the landing page gives the card its four-digit year, which reads back as that year |
| Timeline.StringOrEmpty | src/routes/timeline.tsx:30-31 | A truthy value of any type is kept as it is, since the cast converts nothing; a falsy one becomes the empty string |
| Timeline.LossesParam | src/routes/timeline.tsx:32 | `losses` is false exactly for the boolean false or the string "false", and never true |
| Timeline.ValidateSearchIdempotent | src/routes/timeline.tsx:29-33 | Validating an already validated search changes nothing |
| Timeline.HideLossesRoundTrip | src/routes/timeline.tsx:92-96 | Hiding losses survives the trip through the URL, as a boolean or its string form, and any other value shows losses |
| Timeline.PositiveMembers | src/routes/timeline.tsx:36-39 | The ids kept are exactly the positive numbers among the comma-separated tokens |
| Timeline.TeamIdsRoundTrip | src/routes/timeline.tsx:36-39 | Positive ids joined with commas read back as the same ids, in order |
| Timeline.NoIdsInEmpty | src/routes/timeline.tsx:36-39 | An empty `teams` parameter names no team |
| Timeline.LoaderTeamIds | src/routes/timeline.tsx:36-39 | The loader reads ids only from a string and throws on any other value; every id read is positive |
| Timeline.LoaderTeamIdsCorrect | src/routes/timeline.tsx:29-39 | After validation the loader throws exactly for a truthy `teams` that is not a string, reads no ids for a falsy one, and reads the string's ids otherwise |
| Timeline.AllItems | src/routes/timeline.tsx:113-116 | The wins come first, tagged as wins, then the losses tagged as losses when they are shown; with losses hidden nothing is a loss |
| Timeline.WinsThenLosses | src/routes/timeline.tsx:127-129 | Sorting with the wins-first comparator gives the wins, then the losses, each in original order |
| Timeline.ByYearCorrect | src/routes/timeline.tsx:118-129 | One bucket per distinct year in first-seen order, holding exactly that year's items with wins before losses. No item is lost |
| Timeline.AllYears | src/routes/timeline.tsx:134 | The i-th year drawn is the current year minus i |
| Timeline.AllYearsCorrect | src/routes/timeline.tsx:134 | The years run strictly downward from the current year to the birth year, each year once, and none for a birth year in the future |
| Select.Remove | src/routes/select.tsx:186 | Deleting leaves exactly the other members |
| Select.RemoveDistinct | src/routes/select.tsx:184-186 | Deleting keeps the selection free of repeats |
| Select.ToggleCorrect | src/routes/select.tsx:181-191 | A click flips whether the team is selected and leaves every other team alone. Two clicks give back the same set, and the same order when the team was not selected |
| Select.FilterTeamsCorrect | src/routes/select.tsx:156-172 | An empty filter keeps every league. Otherwise a league is kept with just its matching teams when one of them matches, and every matching team is listed |
| Select.MatchingMembers | src/routes/select.tsx:162-167 | A team is kept exactly when its lowercased name, city or abbreviation contains the lowercased filter |
| Select.MatchingAppend | src/routes/select.tsx:162-167 | The filter keeps the original order: filtering a concatenation filters each part |
| Select.MatchingGroups | src/routes/select.tsx:158-171 | Exactly the leagues with a matching team are kept, each with its matching teams |
| Select.LeagueOfId | src/routes/select.tsx:174-179 | The league found lists a team with that id, and none is found only when no league does |
| Select.KeyIndex | src/routes/select.tsx:197 | The first position of the league among the shown leagues, and -1 exactly when it is not shown |
| Select.ScrollTargetCorrect | src/routes/select.tsx:193-199 | Picking a team scrolls to the league after its own, and to nothing when its league is last. An unselect never scrolls, and an unshown league scrolls to the first shown league |
| Select.ViewTimeline | src/routes/select.tsx:212-220 | Nothing happens for an empty selection |
| Select.Restore | src/routes/select.tsx:142-153 | The initial selection is the saved ids, without repeats, or nothing |
| Select.ViewTimelineRoundTrip | src/routes/select.tsx:212-220 | The timeline reads back exactly the selected ids, in order, and a later visit reading storage restores exactly the selection |
| Select.SaveHandoff | src/routes/select.tsx:212-216 | The record of birthday and ids goes under the page's key, and no other key changes |
| Select.ClearSelections | src/routes/select.tsx:223-228 | The page's key is removed, and no other key changes |
| Select.ClearedStartsEmpty | src/routes/select.tsx:142-153 | After clearing, the next visit starts with no selection |
| Landing.Clamp | src/routes/index.tsx:129 | The result lies in the picker's range, and a value in range is kept |
| Landing.ChevronsCorrect | src/routes/index.tsx:196-241 | From nothing, up picks the maximum and down the minimum. In range, each moves one step and stops at the ends, and each undoes the other away from the ends |
| Landing.WheelSteps | src/routes/index.tsx:137 | Whole thresholds in the scroll, rounded toward zero: the rest is smaller than one threshold and has the scroll's sign |
| Landing.Wheel | src/routes/index.tsx:131-146 | The scroll kept back is under one threshold, and a value is picked exactly when the accumulated scroll reaches it |
| Landing.WheelCorrect | src/routes/index.tsx:134-143 | A pick moves by exactly the whole thresholds scrolled, within the range. From nothing, scrolling down picks the minimum and up the maximum |
| Landing.RoundDiv | src/routes/index.tsx:166 | The quotient rounded to nearest, halves up |
| Landing.TouchCorrect | src/routes/index.tsx:155-172 | A drag picks nothing until it covers half an item (12 pixels) either way. Then it moves from the start in the drag's direction and stays in range |
| Landing.Dob | src/routes/index.tsx:287-290 | The birthday string is empty exactly until month, day and a year from 1920 are all picked |
| Landing.Submit | src/routes/index.tsx:302-317 | Submitting proceeds exactly for a complete birthday not after now, with a non-empty birthday; an incomplete one is its own error |
| Landing.DobRoundTrip | src/routes/index.tsx:258-271 | A complete birthday restores to the pickers that built it, and a real date is an ISO date whose year the timeline reads back |
| Landing.RestoreFromStorageAsWritten | src/routes/index.tsx:6 | As written the page reads its own key, so a store without that key restores nothing |
| Landing.RestoreFromStorage | src/routes/index.tsx:258-271 | Reading the selection page's key, the pickers are restored only from a stored record |
| Landing.SavedBirthdayLostAsWritten | src/routes/index.tsx:6 | After the selection page saves a complete birthday, the page as written restores nothing, while reading the selection page's key restores it |
| Landing.SavedBirthdayRestores | src/routes/index.tsx:258-271 | Reading the selection page's key, a later visit restores exactly the pickers that built the saved birthday |
| Stats.UniqueYearsMembers | src/lib/timeline/stats-bar.tsx:151 | The distinct years are exactly the championships' years, each once |
| Stats.YearsWithWin | src/lib/timeline/stats-bar.tsx:152 | The count is the number of distinct years with a title |
| Stats.BestYearCorrect | src/lib/timeline/stats-bar.tsx:155-174 | Year 0 with no teams when there are no titles. Otherwise a win year holding that year's titles; no year has more, and every earlier-seen year has strictly fewer |
| Stats.BestFromPicks | src/lib/timeline/stats-bar.tsx:170-174 | The scan replaces the best only on a strictly larger group, so it keeps the first largest |
| Stats.MaxWinsInYear | src/lib/timeline/stats-bar.tsx:289-294 | At least 1 and at least every year's count, and attained by some year (or 1); exactly 1 with no titles |
| Stats.SortedYears | src/lib/timeline/stats-bar.tsx:191 | The win years, each once, strictly ascending |
| Stats.SortedByDate | src/lib/timeline/stats-bar.tsx:194-196 | Exactly the dated championships, earliest first |
| Stats.EarliestDateInMin | src/lib/timeline/stats-bar.tsx:199-205 | A year's earliest date is "" exactly when none of its titles is dated. Otherwise it is one of their dates and none is earlier |
| Stats.LatestDateInMax | src/lib/timeline/stats-bar.tsx:199-205 | A year's latest date is "" exactly when none of its titles is dated. Otherwise it is one of their dates and none is later |
| Stats.DateDiffYearsMonths | src/lib/timeline/stats-bar.tsx:209-220 | The whole months between two dates, not counting a month whose day is not yet reached, as years and 0-11 months |
| Stats.DateDiffNonNegative | src/lib/timeline/stats-bar.tsx:209-220 | From a date to one not before it, the years are never negative |
| Stats.DroughtSeveral | src/lib/timeline/stats-bar.tsx:222-240 | With several win years the drought is the first strictly widest gap between adjacent years |
| Stats.WidestGapPicks | src/lib/timeline/stats-bar.tsx:224-239 | The gap scan keeps the first strictly largest gap, and none of the scanned gaps is larger |
| Stats.DroughtSingle | src/lib/timeline/stats-bar.tsx:241-262 | With one win year the drought is the longer of the span before it and the span after it, before winning ties. The win's end carries the win year's date and the open end no date |
| Stats.LongestStreak | src/lib/timeline/stats-bar.tsx:266-286 | The longest run of consecutive win years, maximal at both ends and the earliest on ties; zero with no years |
| Stats.StreakYearsWon | src/lib/timeline/stats-bar.tsx:266-286 | Every year inside the streak won a title |
| Stats.TeamWinsCorrect | src/lib/timeline/stats-bar.tsx:297-315 | One entry per distinct team key in first-seen order. Each counts exactly that team's titles and shows the team of its first title, and the counts add up to the total |
| Stats.TopTeamsCorrect | src/lib/timeline/stats-bar.tsx:316-318 | The top count is the largest count, 0 with no titles. The top teams are exactly the teams holding it, in first-seen order |
| Stats.YearsSinceLastWin | src/lib/timeline/stats-bar.tsx:322-323 | Shown exactly when the latest win year exists and is non-zero. It is the years since that latest win: the least number of years since any win |
| Stats.StreakMeansRecent | src/lib/timeline/stats-bar.tsx:322-353 | A running streak means the last title came this year or last year |
| Stats.SinceLastTitleOfCorrect | src/lib/timeline/stats-bar.tsx:326-328 | Measured from the latest-dated championship. There is none only when no championship carries a date |
| Stats.SinceLastTitleAsWritten | src/lib/timeline/stats-bar.tsx:328-345 | As written: 0-11 months, and days borrowed from the month before today's |
| Stats.SinceLastTitleNegativeDays | src/lib/timeline/stats-bar.tsx:336-339 | As written, a title on 31 January 2024 seen on 1 March 2025 shows a negative day count |
| Stats.SinceLastTitle | src/lib/timeline/stats-bar.tsx:328-345 | Corrected: 0-11 months and 0-30 days, and the years and months count the whole months elapsed |
| Stats.SinceLastTitleAgrees | src/lib/timeline/stats-bar.tsx:336-339 | The correction changes the result exactly when today's day is earlier and the last title's day does not exist in the month before today's, which covers every negative count |
| Stats.SinceLastTitleMonths | src/lib/timeline/stats-bar.tsx:328-345 | Its years and months equal the drought's date difference for the same two dates |
| Stats.StreakLength | src/lib/timeline/stats-bar.tsx:347-353 | Zero unless the latest win year is non-zero and at least last year. Otherwise the maximal run of win years counting down from it, stopping at the birth year |
| Stats.LeagueCountsCorrect | src/lib/timeline/stats-bar.tsx:356-359 | Each league with a title is listed once with its number of titles, nothing else is listed, and the counts add up to the total |
| Stats.LeagueBreakdownCorrect | src/lib/timeline/stats-bar.tsx:368-375 | The same league counts, largest first, with ties in first-seen order |
| Stats.StreakTitlesCount | src/lib/timeline/stats-bar.tsx:613-622 | One streak title per championship in a streak year |
| Stats.StreakTitlesSound | src/lib/timeline/stats-bar.tsx:613-622 | Each streak title is the team of a title won in a streak year |
| Stats.StreakTitlesAtLeast | src/lib/timeline/stats-bar.tsx:613-622 | When every streak year won, there are at least as many titles as years |
| Stats.YearHasTitles | src/lib/timeline/stats-bar.tsx:155-162 | Every win year holds at least one title in the per-year map |
| GameDetail.ParseBoxScore | src/lib/game-detail.tsx:41-64 | Without a box score the narrative is the whole text or empty. With one, the narrative is shorter than the text by at least both fences |
| GameDetail.ParseBoxScoreNoFence | src/lib/game-detail.tsx:41-45 | Without an opening fence the whole text is the narrative |
| GameDetail.ParseBoxScoreOpen | src/lib/game-detail.tsx:47-53 | An opening fence with no closing fence after it shows nothing |
| GameDetail.ParseBoxScoreStreaming | src/lib/game-detail.tsx:47-53 | While the block is arriving, even with part of the closing fence, nothing is shown |
| GameDetail.ParseBoxScoreFenced | src/lib/game-detail.tsx:55-64 | The JSON is exactly the text between the first opening fence and the first closing fence after it. The narrative is the rest, trimmed at the start, and malformed JSON shows the whole text |
| GameDetail.ParseBoxScoreComplete | src/lib/game-detail.tsx:55-64 | A complete block hands the JSON between the fences to the parser, and the narrative is the trimmed rest |
| GameDetail.PromptTagLines | src/lib/game-detail.tsx:184-193 | `[no_cache]` is a line exactly on a refresh, and `[18-1]` exactly for Super Bowl XLII |
| GameDetail.PromptFixedLines | src/lib/game-detail.tsx:188-193 | The id, game, year, league and winner lines always appear, together and in that order, after the tags |
| GameDetail.PromptOptionalLines | src/lib/game-detail.tsx:194-203 | The loser line appears exactly for a truthy losing name, the score line exactly when both scores are present, and the date line exactly for a truthy date |
| GameDetail.MatchAtCorrect | src/lib/game-detail.tsx:268-270 | The lazy match at a position is the shortest, and none means there is none |
| GameDetail.FindFromCorrect | src/lib/game-detail.tsx:268-270 | The match found is the leftmost and, there, the shortest, and none is found only when none exists |
| GameDetail.PickMatch | src/lib/game-detail.tsx:272-275 | The match acted on is a `**` or `*` match |
| GameDetail.BoldIsItalic | src/lib/game-detail.tsx:272-275 | A bold match is also an italic match at the same place, so italic never starts later |
| GameDetail.RenderInlineRoundTrip | src/lib/game-detail.tsx:266-297 | No text is lost: the pieces, written back as markdown, give the input |
| GameDetail.RenderInlineBold | src/lib/game-detail.tsx:272-291 | When the bold match starts no later than any italic one, the text before it is emitted plain, then its shortest capture in bold |
| GameDetail.RenderInlineItalic | src/lib/game-detail.tsx:272-293 | When an italic match starts before any bold one, the text before it is emitted plain, then the capture: bold if the match starts with `**`, emphasised otherwise |
| GameDetail.RenderInlinePlain | src/lib/game-detail.tsx:277-279 | Text without `*` renders as itself |
| GameDetail.RenderLine | src/lib/game-detail.tsx:213-253 | A line gives no block exactly when it is blank |
| GameDetail.RenderLineSource | src/lib/game-detail.tsx:213-253 | Headings are checked before bullets, `### ` lines are third-level headings, and each block comes from a line with its marker |
| GameDetail.RenderLinesCorrect | src/lib/game-detail.tsx:212-254 | Blank lines vanish and the k-th block renders the k-th non-blank line |
| GameDetail.BoxScoreTable | src/lib/game-detail.tsx:70-128 | Both rows have one cell per header, the longer period count. Each row shows its own values first and pads only the columns it lacks |
| GameDetail.PeriodHeadersDistinct | src/lib/game-detail.tsx:72-74 | The headers are distinct, each being the period label followed by its 1-based column |
| GameDetail.VenueLine | src/lib/game-detail.tsx:149-155 | The venue line appears exactly when the venue or the attendance is set, with ` · ` between them only when both are |
| GameDetailApi.FirstUser | src/routes/api/game-detail.ts:79 | The first user message, none exactly when there is no user message |
| GameDetailApi.UserContent | src/routes/api/game-detail.ts:79-86 | The first user message's flat content when present, else its text parts joined, else "" |
| GameDetailApi.TextOfAppend | src/routes/api/game-detail.ts:82-85 | The text of joined parts is the text of each part list, one after the other |
| GameDetailApi.TextOfNoText | src/routes/api/game-detail.ts:83 | Parts of any other kind contribute nothing |
| GameDetailApi.IdTagAtIff | src/routes/api/game-detail.ts:90 | The id pattern matches at a position exactly when a non-empty digit run after the prefix is followed by `]` |
| GameDetailApi.FindIdTag | src/routes/api/game-detail.ts:90-93 | The leftmost id tag, none exactly when there is none |
| GameDetailApi.ReadTags | src/routes/api/game-detail.ts:88-95 | The refresh and easter-egg flags are set exactly when their tags occur, and an id is read exactly when the pattern matches |
| GameDetailApi.Handle | src/routes/api/game-detail.ts:98-160 | The cache answers exactly for a truthy id, no refresh, no easter egg and a stored row |
| GameDetailApi.HandleCorrect | src/routes/api/game-detail.ts:98-211 | A cached answer replays the stored text. Otherwise the stream passes through and the easter egg gets its own prompt. A row is written exactly for a truthy id, some text and no easter egg |
| GameDetailApi.CollectedAppend | src/routes/api/game-detail.ts:185-192 | The text collected from a stream split anywhere is the two parts' text joined |
| GameDetailApi.CachedEventsRoundTrip | src/routes/api/game-detail.ts:107-141 | A client reading the cached event stream collects exactly the cached text |
| GameDetailApi.WriteThenRead | src/routes/api/game-detail.ts:198-207 | A row written is what a later plain request for the same championship is answered with |
| GameDetailApi.ChampionshipIdRoundTrip | src/routes/api/game-detail.ts:88-93 | For a non-negative id, the server reads back the id the client's prompt was built with |
| GameDetailApi.TagInPrompt | src/routes/api/game-detail.ts:94-95 | With bracket-free fields, a tag occurs in the prompt exactly when it is one of its lines |
| GameDetailApi.PromptProtocol | src/routes/api/game-detail.ts:88-98 | With bracket-free fields, the server reads the id, the refresh flag and the easter egg the client meant. It consults the cache exactly for a non-zero id on a plain request for another game |

## Left out

- Case mapping covers ASCII letters only; JavaScript's `toLowerCase` and
  `toUpperCase` follow Unicode.
- Strings are sequences of characters, not UTF-16 code units, so lengths and
  positions differ for text outside the Basic Multilingual Plane.
- `parseInt` and `Number` are modelled for plain decimal digit strings (with
  `parseInt`'s leading-digit reading). Signs, hexadecimal, exponents and
  fractions are not modelled; other tokens read as not-a-number. Values are
  read as exact integers, so ids and scores are taken to be below 2^53, where
  JavaScript numbers are exact.
- Ingest.SelectSides: when some score does not read as a number and two scores
  that do read as numbers differ, the comparator is inconsistent (a `NaN`
  comparison ties with both of them) and the order is implementation-defined in
  JavaScript; the model reports `UnorderedScores` instead of picking an order.
- Db.SinceYear: any text that is not a `YYYY-MM-DD` date reads as a year that is
  not a number; engines that parse other date formats are not modelled.
- Ingest.SingleGamePlan: a non-numeric provider score is a modelled error
  (`NonNumericScore`); the source would store `NaN`.
- Ingest: a `TypeError` in the source is an error value that stops that league.
  This covers a missing competition, no competitors, or a missing winner or
  loser. Rows inserted earlier are kept, as in the source. Logging is left out.
- Ingest.RunLeagues: the leagues run one after another, in configuration order.
  `Promise.allSettled` runs them concurrently, and the interleaving of their
  inserts is not modelled. A league's failure is recorded and the others still
  run, as with `allSettled`.
- Clocks, `fetch`, D1 and `localStorage` are parameters. Table reads are not
  sorted by the queries' `ORDER BY` clauses; results come in table order.
- TimelineUtils.ChampYear requires a well-formed `YYYY-MM-DD` date (or none or
  ""); JavaScript gives `NaN` for other text. `formatDate` is locale formatting
  and is left out.
- URL query strings are read without percent-decoding; `URLSearchParams` and
  `encodeURIComponent` decode and encode `%xx` and `+`.
- Storage holds what each key's text parses to; the JSON text itself is not
  modelled. A stored `dob` that is not a string restores nothing, as the
  source's `try` swallows the error it raises.
- `JSON.parse` of the box score is an oracle function parameter. JSON syntax is
  not modelled, and neither are the stored `JSON.stringify` framing, the SSE
  encoding, the 15-second idle timer or the system prompt texts.
- Floating-point figures are left out: the per-year chart intensity, bar widths
  and percentages, frequency, animation and count-up effects.
- Pixel sizes are left out, apart from the picker's item height and the card's
  gap.
- React rendering is left out: elements are modelled as datatypes (blocks,
  inline pieces, table cells).
- The timeline page's `head` metadata for link previews
  (src/routes/timeline.tsx:49-72) is left out.
- The font fetches and image rendering of the share card are left out.
- Stats.SinceLastTitleOfCorrect: the "none" direction is stated for
  well-formed dates only.
- Stats.SinceLastTitleOf: the card is computed with the corrected day count of
  the finding below, not the day count as written.
- Timeline: a truthy `dob` that is not a string is kept by validation and sent
  to the queries as is; what the queries then do with it is not modelled.
- Db.LeagueLabel: lookups of inherited object keys (such as `constructor`)
  return a function in JavaScript; league codes are plain strings and this is
  not modelled.
- Stats.LongestStreak, Stats.StreakLength and Stats.YearsSinceLastWin take the
  sorted distinct win years as input, which is how the source uses them.

## Findings

| source | as written | input that shows it | evidently intended | confidence | as-written member | corrected member |
|---|---|---|---|---|---|---|
| src/lib/timeline/stats-bar.tsx:336-339 | a negative day count borrows the length of the month before today's, which is too little when the last title's day is past that month's end | last title 2024-01-31, today 2025-03-01: 1 year, 1 month, -2 days | a day count from 0 to 30 (here 1 year, 1 month, 1 day) | not executed | Stats.SinceLastTitleNegativeDays | Stats.SinceLastTitleAgrees |
| src/routes/index.tsx:6 | the landing page reads the saved selection under `ring-count-selections` | choose a birthday, pick a team and view the timeline: the selection page saves under `championship-tracker-selections`, and the next visit to the landing page shows empty pickers | the landing page reads the key the selection page writes and restores the saved birthday | not executed | Landing.SavedBirthdayLostAsWritten | Landing.SavedBirthdayRestores |
