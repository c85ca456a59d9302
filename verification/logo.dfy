/**
 * The logo proxy (`src/routes/api/logo.ts`): which CDN image a request for a
 * league or team logo fetches, and the response it gives. The fetch itself is
 * I/O; its outcome is a parameter. The request's query string is read the way
 * `URLSearchParams` reads it, for values that need no percent-decoding.
 */
module Logo {
  import opened Wrappers
  import opened Strings
  import opened Db

  const Cdn := "https://a.espncdn.com/i/"
  const CacheControl := "public, max-age=604800, s-maxage=2592000"

  predicate IsNcaa(league: string) {
    ToUpper(league) == "CFB" || ToUpper(league) == "CBB"
  }

  /** The CDN URL `GET` fetches; an empty `id` counts as none. */
  function CdnUrl(league: string, id: Option<string>): string {
    if id.None? || id.value == "" then
      if ToUpper(league) == "CFB" then Cdn + "espn/misc_logos/500/ncaa_football.png"
      else if ToUpper(league) == "CBB" then Cdn + "espn/misc_logos/500/ncaa.png"
      else Cdn + "teamlogos/leagues/500/" + ToLower(league) + ".png"
    else if IsNcaa(league) then Cdn + "teamlogos/ncaa/500/" + id.value + ".png"
    else Cdn + "teamlogos/" + ToLower(league) + "/500/" + id.value + ".png"
  }

  lemma UpperOfLower(s: string)
    ensures ToUpper(ToLower(s)) == ToUpper(s)
    ensures ToLower(ToLower(s)) == ToLower(s)
  {
    assert forall i :: 0 <= i < |s| ==> ToUpper(ToLower(s))[i] == ToUpper(s)[i];
    assert forall i :: 0 <= i < |s| ==> ToLower(ToLower(s))[i] == ToLower(s)[i];
  }

  /**
   * The league is matched without regard to case: any spelling of a league
   * fetches the same image as its lowercase spelling, and college leagues share
   * the `ncaa` team folder.
   */
  lemma CdnUrlCaseInsensitive(league: string, id: Option<string>)
    ensures CdnUrl(league, id) == CdnUrl(ToLower(league), id)
    ensures id.Some? && id.value != "" && IsNcaa(league) ==> CdnUrl(league, id) == CdnUrl("CFB", id)
  {
    UpperOfLower(league);
    CdnUrlByCase(league, ToLower(league), id);
    if id.Some? && id.value != "" && IsNcaa(league) {
      assert ToUpper("CFB") == "CFB" by {
        assert forall i :: 0 <= i < 3 ==> ToUpper("CFB")[i] == "CFB"[i];
      }
      assert IsNcaa("CFB");
    }
  }

  /** The URL depends on the league only through its upper- and lowercase spellings. */
  lemma CdnUrlByCase(a: string, b: string, id: Option<string>)
    requires ToUpper(a) == ToUpper(b) && ToLower(a) == ToLower(b)
    ensures CdnUrl(a, id) == CdnUrl(b, id)
  {
  }

  /** What the CDN answered: a failure, or an image with its content type, if any. */
  datatype Upstream = FetchFailed | Fetched(contentType: Option<string>)

  datatype LogoResponse =
    | MissingLeague
    | NotFound(url: string)
    | Image(url: string, contentType: string, cacheControl: string)

  function Status(r: LogoResponse): int {
    match r
    case MissingLeague => 400
    case NotFound(_) => 404
    case Image(_, _, _) => 200
  }

  /** `GET /api/logo`; `upstream` is what fetching the chosen URL returned. */
  function HandleLogo(league: Option<string>, id: Option<string>, upstream: Upstream): (r: LogoResponse)
    ensures Status(r) == 400 <==> league.None? || league.value == ""
    ensures r.NotFound? || r.Image? ==> r.url == CdnUrl(league.value, id)
    ensures Status(r) == 404 <==> league.Some? && league.value != "" && upstream.FetchFailed?
    ensures r.Image? ==> r.cacheControl == CacheControl && r.contentType != ""
    ensures r.Image? && upstream.contentType.Some? && upstream.contentType.value != "" ==>
              r.contentType == upstream.contentType.value
    ensures r.Image? && (upstream.contentType.None? || upstream.contentType.value == "") ==>
              r.contentType == "image/png"
  {
    if league.None? || league.value == "" then MissingLeague
    else
      var url := CdnUrl(league.value, id);
      match upstream
      case FetchFailed => NotFound(url)
      case Fetched(ct) =>
        Image(url, if ct.Some? && ct.value != "" then ct.value else "image/png", CacheControl)
  }

  // ---------------------------------------------------------------------------
  // Reading the query string
  // ---------------------------------------------------------------------------

  /** Everything after the first `c`, or nothing when there is none. */
  function After(s: string, c: char): (r: string)
    ensures c in s ==> s == Before(s, c) + [c] + r
  {
    match FirstIndexOfChar(s, c)
    case None => ""
    case Some(i) => s[i + 1..]
  }

  /** `new URL(u).search` without its '?': from the first '?' to the first '#'. */
  function QueryOf(url: string): string {
    Before(After(url, '?'), '#')
  }

  /** The value of the first `name=value` pair named `name`; a pair without '=' has value "". */
  function Lookup(pairs: seq<string>, name: string): Option<string> {
    if |pairs| == 0 then None
    else if pairs[0] != "" && Before(pairs[0], '=') == name then
      Some(if '=' in pairs[0] then After(pairs[0], '=') else "")
    else Lookup(pairs[1..], name)
  }

  /** `url.searchParams.get(name)` for parameters that need no decoding. */
  function SearchParam(url: string, name: string): Option<string> {
    Lookup(Split(QueryOf(url), '&'), name)
  }

  /** A value that reads back unchanged from a query string. */
  predicate Plain(s: string) {
    '&' !in s && '=' !in s && '#' !in s && '%' !in s && '+' !in s
  }

  lemma BeforeAfter(a: string, c: char, b: string)
    requires c !in a
    ensures Before(a + [c] + b, c) == a && After(a + [c] + b, c) == b
  {
    FirstCharAfterFree(a, c, b);
    assert (a + [c] + b)[..|a|] == a;
    assert (a + [c] + b)[|a| + 1..] == b;
  }

  lemma QueryOfUrl(path: string, q: string)
    requires '?' !in path && '#' !in q
    ensures QueryOf(path + "?" + q) == q
  {
    BeforeAfter(path, '?', q);
    assert Before(q, '#') == q;
  }

  lemma TwoPairs(x: string, y: string)
    requires '&' !in x && '&' !in y
    ensures Split(x + "&" + y, '&') == [x, y]
  {
    assert Join([x, y], "&") == x + "&" + y by {
      assert [x, y][1..] == [y];
    }
    SplitJoin([x, y], '&');
  }

  lemma LookupTwo(n1: string, v1: string, n2: string, v2: string)
    requires '=' !in n1 && '=' !in n2 && n1 != n2
    ensures Lookup([n1 + "=" + v1, n2 + "=" + v2], n1) == Some(v1)
    ensures Lookup([n1 + "=" + v1, n2 + "=" + v2], n2) == Some(v2)
  {
    var ps := [n1 + "=" + v1, n2 + "=" + v2];
    BeforeAfter(n1, '=', v1);
    BeforeAfter(n2, '=', v2);
    assert ps[0][|n1|] == '=' && ps[1][|n2|] == '=';
    assert ps[1..] == [ps[1]];
  }

  /** A two-parameter URL reads back both of its values. */
  lemma TwoParams(path: string, n1: string, v1: string, n2: string, v2: string)
    requires '?' !in path && n1 != n2
    requires Plain(n1) && Plain(v1) && Plain(n2) && Plain(v2)
    ensures var url := path + "?" + (n1 + "=" + v1) + "&" + (n2 + "=" + v2);
            SearchParam(url, n1) == Some(v1) && SearchParam(url, n2) == Some(v2)
  {
    var x := n1 + "=" + v1;
    var y := n2 + "=" + v2;
    var q := x + "&" + y;
    assert path + "?" + x + "&" + y == path + "?" + q;
    QueryOfUrl(path, q);
    TwoPairs(x, y);
    LookupTwo(n1, v1, n2, v2);
  }

  /**
   * `getTeamLogoUrl` and the logo route agree: the route reads back the league
   * and the id the link was built from, and so fetches that team's image.
   */
  lemma TeamLogoUrlRoundTrip(league: string, espnId: string, upstream: Upstream)
    requires Plain(league) && Plain(espnId)
    ensures SearchParam(TeamLogoUrl(league, espnId), "league") == Some(league)
    ensures SearchParam(TeamLogoUrl(league, espnId), "id") == Some(espnId)
    ensures league != "" && !upstream.FetchFailed? ==>
              HandleLogo(Some(league), Some(espnId), upstream).url == CdnUrl(league, Some(espnId))
  {
    TeamLogoUrlShape(league, espnId);
    TwoParams("/api/logo", "league", league, "id", espnId);
  }

  lemma TeamLogoUrlShape(league: string, espnId: string)
    ensures TeamLogoUrl(league, espnId) == "/api/logo" + "?" + ("league" + "=" + league) + "&" + ("id" + "=" + espnId)
  {
  }
}
