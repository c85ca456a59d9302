/**
 * The read side of the store (`src/lib/db.ts`): the team and championship
 * records, the grouping of teams by league, the filters of the three
 * team-id queries, and the logo URL the pages ask for.
 */
module Db {
  import opened Wrappers
  import opened Strings
  import opened Dates
  import opened Grouping

  /** A row of the `teams` table. */
  datatype Team = Team(
    id: int,
    name: string,
    city: string,
    league: string,
    abbreviation: string,
    espnId: string,
    primaryColor: string,
    secondaryColor: string)

  /** A row of the `championships` table. */
  datatype ChampionshipRow = ChampionshipRow(
    id: int,
    year: int,
    league: string,
    winningTeamId: Option<int>,
    winningDisplayName: string,
    losingTeamId: Option<int>,
    losingDisplayName: Option<string>,
    winningScore: Option<int>,
    losingScore: Option<int>,
    gameTitle: string,
    championshipDate: Option<string>)

  /** A championship as the read API returns it: the row joined with one of its two teams. */
  datatype Championship = Championship(row: ChampionshipRow, team: Team)

  /** The leagues every grouping starts with, in display order. */
  const LeagueOrder: seq<string> := ["NFL", "MLB", "NBA", "NHL", "CFB", "CBB"]

  /** `LEAGUE_LABELS[league] || league`. */
  function LeagueLabel(league: string): (shown: string)
    ensures league == "CFB" ==> shown == "College Football"
    ensures league == "CBB" ==> shown == "College Basketball"
    ensures league != "CFB" && league != "CBB" ==> shown == league
  {
    if league == "CFB" then "College Football"
    else if league == "CBB" then "College Basketball"
    else league
  }

  /** The six leagues are shown under six different names. */
  lemma LeagueLabelsDistinct()
    ensures forall i, j :: 0 <= i < j < |LeagueOrder| ==> LeagueLabel(LeagueOrder[i]) != LeagueLabel(LeagueOrder[j])
  {
  }

  /** Two different leagues share a label only when one is the other's label written out. */
  lemma LeagueLabelInjective(a: string, b: string)
    requires a != b && LeagueLabel(a) == LeagueLabel(b)
    ensures (a == "CFB" && b == "College Football") || (a == "College Football" && b == "CFB")
            || (a == "CBB" && b == "College Basketball") || (a == "College Basketball" && b == "CBB")
  {
  }

  // ---------------------------------------------------------------------------
  // getTeamsByLeague
  // ---------------------------------------------------------------------------

  function TeamLeague(t: Team): string {
    t.league
  }

  /**
   * The `TeamsByLeague` record: seeded with every league of `LeagueOrder` (object
   * keys keep insertion order), then each team appended under its league.
   */
  function GroupByLeague(ts: seq<Team>): seq<Group<string, Team>> {
    GroupFrom(EmptyGroups(LeagueOrder), ts, TeamLeague)
  }

  /**
   * Grouping keeps every league of `LeagueOrder` as the first keys, in order, even
   * when empty; keys are distinct; every team's league is a key and every other key
   * comes from a team; each key's group holds exactly that league's teams, in
   * input order; and no team is lost or listed twice.
   */
  lemma GroupByLeagueCorrect(ts: seq<Team>)
    ensures var g := GroupByLeague(ts);
            && |g| >= |LeagueOrder| && Keys(g)[..|LeagueOrder|] == LeagueOrder
            && Distinct(Keys(g))
            && (forall t :: t in ts ==> t.league in Keys(g))
            && (forall k :: k in Keys(g) ==> k in LeagueOrder || exists t :: t in ts && t.league == k)
            && (forall i :: 0 <= i < |g| ==> g[i].items == Filter(ts, TeamLeague, g[i].key))
            && TotalSize(g) == |ts|
  {
    LeagueOrderDistinct();
    SeededGroupCorrect(LeagueOrder, ts, TeamLeague);
    var g := GroupByLeague(ts);
    forall t | t in ts ensures t.league in Keys(g) {
      KeyOfMember(ts, t);
    }
    forall k | k in Keys(g) ensures k in LeagueOrder || exists t :: t in ts && t.league == k {
      if k !in LeagueOrder {
        MemberOfKey(ts, k);
      }
    }
  }

  lemma LeagueOrderDistinct()
    ensures Distinct(LeagueOrder)
  {
    var l := LeagueOrder;
    forall i, j | 0 <= i < j < |l| ensures l[i] != l[j] {
      assert l[i][0] != l[j][0] || l[i][1] != l[j][1];
    }
  }

  lemma KeyOfMember(ts: seq<Team>, t: Team)
    requires t in ts
    ensures t.league in KeysOf(ts, TeamLeague)
  {
    var i :| 0 <= i < |ts| && ts[i] == t;
    assert KeysOf(ts, TeamLeague)[i] == t.league;
  }

  lemma MemberOfKey(ts: seq<Team>, k: string)
    requires k in KeysOf(ts, TeamLeague)
    ensures exists t :: t in ts && t.league == k
  {
    var ks := KeysOf(ts, TeamLeague);
    var i :| 0 <= i < |ks| && ks[i] == k;
    assert ts[i] in ts && ts[i].league == k;
  }

  // ---------------------------------------------------------------------------
  // The team-id queries
  // ---------------------------------------------------------------------------

  /** `JOIN teams t ON ... = t.id`: the first team with that id. */
  function TeamById(teams: seq<Team>, id: int): (r: Option<Team>)
    ensures r.Some? ==> r.value in teams && r.value.id == id
    ensures r.None? ==> forall t :: t in teams ==> t.id != id
  {
    if |teams| == 0 then None
    else if teams[0].id == id then Some(teams[0])
    else TeamById(teams[1..], id)
  }

  /**
   * `c.year >= ? AND (c.championship_date IS NULL OR c.championship_date >= ?)`;
   * a year that is not a number (`None`) compares false with every row.
   */
  predicate Since(row: ChampionshipRow, sinceYear: Option<int>, sinceDate: string) {
    && sinceYear.Some? && row.year >= sinceYear.value
    && (row.championshipDate.None? || LexLe(sinceDate, row.championshipDate.value))
  }

  /** The rows whose team column (winning or losing) is one of `ids`, joined with that team. */
  function JoinOn(table: seq<ChampionshipRow>, teams: seq<Team>, ids: seq<int>,
                  sinceYear: Option<int>, sinceDate: string, losing: bool): seq<Championship>
  {
    if |table| == 0 then []
    else
      var row := table[0];
      var col := if losing then row.losingTeamId else row.winningTeamId;
      var head :=
        if col.Some? && col.value in ids && Since(row, sinceYear, sinceDate) && TeamById(teams, col.value).Some?
        then [Championship(row, TeamById(teams, col.value).value)]
        else [];
      head + JoinOn(table[1..], teams, ids, sinceYear, sinceDate, losing)
  }

  lemma {:induction false} JoinOnSound(table: seq<ChampionshipRow>, teams: seq<Team>, ids: seq<int>,
                                       sinceYear: Option<int>, sinceDate: string, losing: bool)
    ensures forall c :: c in JoinOn(table, teams, ids, sinceYear, sinceDate, losing) ==>
              && c.row in table && c.team in teams
              && (if losing then c.row.losingTeamId else c.row.winningTeamId) == Some(c.team.id)
              && c.team.id in ids
              && Since(c.row, sinceYear, sinceDate)
    decreases |table|
  {
    if |table| > 0 {
      JoinOnSound(table[1..], teams, ids, sinceYear, sinceDate, losing);
    }
  }

  /** Every row that passes the filters and has its team on file is returned. */
  lemma {:induction false} JoinOnComplete(table: seq<ChampionshipRow>, teams: seq<Team>, ids: seq<int>,
                                          sinceYear: Option<int>, sinceDate: string, losing: bool, k: int)
    requires 0 <= k < |table|
    requires var col := if losing then table[k].losingTeamId else table[k].winningTeamId;
             col.Some? && col.value in ids && Since(table[k], sinceYear, sinceDate)
             && TeamById(teams, col.value).Some?
    ensures exists c :: c in JoinOn(table, teams, ids, sinceYear, sinceDate, losing) && c.row == table[k]
    decreases k
  {
    if k > 0 {
      JoinOnComplete(table[1..], teams, ids, sinceYear, sinceDate, losing, k - 1);
      var c :| c in JoinOn(table[1..], teams, ids, sinceYear, sinceDate, losing) && c.row == table[1..][k - 1];
      assert c in JoinOn(table, teams, ids, sinceYear, sinceDate, losing);
    } else {
      var col := if losing then table[0].losingTeamId else table[0].winningTeamId;
      var c := Championship(table[0], TeamById(teams, col.value).value);
      assert c in JoinOn(table, teams, ids, sinceYear, sinceDate, losing);
    }
  }

  /** The rows of no year are none of them joined. */
  lemma {:induction false} JoinOnUnreadYear(table: seq<ChampionshipRow>, teams: seq<Team>, ids: seq<int>,
                                            sinceDate: string, losing: bool)
    ensures JoinOn(table, teams, ids, None, sinceDate, losing) == []
    decreases |table|
  {
    if |table| > 0 {
      JoinOnUnreadYear(table[1..], teams, ids, sinceDate, losing);
    }
  }

  /**
   * `new Date(sinceDate + 'T00:00:00').getFullYear()`: the year of an ISO date,
   * and not a number (`None`) for any other text, such as the empty birth date.
   */
  function SinceYear(sinceDate: string): Option<int> {
    if IsIsoDate(sinceDate) then Some(ParseIso(sinceDate).year) else None
  }

  /** `getChampionships`: titles won by one of `teamIds`, joined with the winning team. */
  function GetChampionships(table: seq<ChampionshipRow>, teams: seq<Team>, teamIds: seq<int>,
                            sinceDate: string): (r: seq<Championship>)
    ensures |teamIds| == 0 ==> r == []
    ensures !IsIsoDate(sinceDate) ==> r == []
    ensures forall c :: c in r ==>
              && c.row in table && c.row.winningTeamId == Some(c.team.id) && c.team.id in teamIds
              && Since(c.row, SinceYear(sinceDate), sinceDate)
  {
    if |teamIds| == 0 then []
    else
      JoinOnSound(table, teams, teamIds, SinceYear(sinceDate), sinceDate, false);
      JoinOnUnreadYear(table, teams, teamIds, sinceDate, false);
      JoinOn(table, teams, teamIds, SinceYear(sinceDate), sinceDate, false)
  }

  /** `getChampionshipLosses`: titles lost by one of `teamIds`, joined with the losing team. */
  function GetChampionshipLosses(table: seq<ChampionshipRow>, teams: seq<Team>, teamIds: seq<int>,
                                 sinceDate: string): (r: seq<Championship>)
    ensures |teamIds| == 0 ==> r == []
    ensures !IsIsoDate(sinceDate) ==> r == []
    ensures forall c :: c in r ==>
              && c.row in table && c.row.losingTeamId == Some(c.team.id) && c.team.id in teamIds
              && Since(c.row, SinceYear(sinceDate), sinceDate)
  {
    if |teamIds| == 0 then []
    else
      JoinOnSound(table, teams, teamIds, SinceYear(sinceDate), sinceDate, true);
      JoinOnUnreadYear(table, teams, teamIds, sinceDate, true);
      JoinOn(table, teams, teamIds, SinceYear(sinceDate), sinceDate, true)
  }

  /** `getTeamsByIds`: the teams whose id was asked for. */
  function GetTeamsByIds(teams: seq<Team>, teamIds: seq<int>): (r: seq<Team>)
    ensures |teamIds| == 0 ==> r == []
    ensures forall t :: t in r <==> |teamIds| > 0 && t in teams && t.id in teamIds
  {
    if |teamIds| == 0 then [] else TeamsWithIds(teams, teamIds)
  }

  function TeamsWithIds(teams: seq<Team>, ids: seq<int>): (r: seq<Team>)
    ensures forall t :: t in r <==> t in teams && t.id in ids
  {
    if |teams| == 0 then []
    else (if teams[0].id in ids then [teams[0]] else []) + TeamsWithIds(teams[1..], ids)
  }

  /** `getTeamLogoUrl`. */
  function TeamLogoUrl(league: string, espnId: string): string {
    "/api/logo?league=" + league + "&id=" + espnId
  }
}
