/**
 * The share-card image route (`src/routes/api/og.ts`): the text and the logo
 * list the card shows, computed from the query parameters. Fonts, the image
 * renderer and the card's layout styles are left to the renderer.
 */
module Og {
  import opened Wrappers
  import opened Strings
  import opened Logo
  import opened Landing

  /** `espnLogoUrl`: college leagues share the `ncaa` folder, others use their lowercase name. */
  function EspnLogoUrl(league: string, espnId: string): string {
    var l := ToUpper(league);
    if l == "CFB" || l == "CBB" then Cdn + "teamlogos/ncaa/500/" + espnId + ".png"
    else Cdn + "teamlogos/" + ToLower(league) + "/500/" + espnId + ".png"
  }

  /** The card shows the very image the logo route proxies for the same league and id. */
  lemma LogoMatchesOg(league: string, espnId: string)
    requires espnId != ""
    ensures EspnLogoUrl(league, espnId) == CdnUrl(league, Some(espnId))
    ensures EspnLogoUrl(league, espnId) == EspnLogoUrl(ToLower(league), espnId)
  {
    CdnUrlCaseInsensitive(league, Some(espnId));
  }

  /** `searchParams.get(name) || default`. */
  function OrDefault(p: Option<string>, default: string): (r: string)
    ensures p.Some? && p.value != "" ==> r == p.value
    ensures p.None? || p.value == "" ==> r == default
  {
    if p.Some? && p.value != "" then p.value else default
  }

  /** `dob ? dob.split('-')[0] : ''`. */
  function BirthYearOf(dob: string): (r: string)
    ensures '-' !in r && r <= dob
    ensures |r| < |dob| ==> dob[|r|] == '-'
    ensures dob == "" ==> r == ""
  {
    SplitHeadIsBefore(dob, '-');
    if dob == "" then "" else Split(dob, '-')[0]
  }

  /** The line under the count. */
  function Subtitle(count: string, birthYear: string): string {
    var noun := if count == "1" then "championship" else "championships";
    if birthYear != "" then noun + " in your lifetime" else noun
  }

  /**
   * The noun is plural unless the count is exactly "1", and the words "in your
   * lifetime" close the line exactly when a birth year is known.
   */
  lemma SubtitleCorrect(count: string, birthYear: string)
    ensures var r := Subtitle(count, birthYear);
            && (count != "1" <==> |r| >= 13 && r[..13] == "championships")
            && (birthYear != "" <==> |r| > 13 && r[|r| - 8..] == "lifetime")
  {
    var r := Subtitle(count, birthYear);
    if count == "1" && |r| >= 13 {
      assert r[12] == ' ';
    }
  }

  /** One entry of the `logos` parameter: `league:espnId`. */
  datatype LogoEntry = LogoEntry(league: string, espnId: Option<string>, url: string)

  /** How a template literal writes a missing id. */
  function IdText(id: Option<string>): string {
    if id.Some? then id.value else "undefined"
  }

  function Entry(tok: string): LogoEntry {
    var parts := Split(tok, ':');
    var id := if |parts| > 1 then Some(parts[1]) else None;
    LogoEntry(parts[0], id, EspnLogoUrl(parts[0], IdText(id)))
  }

  function Entries(toks: seq<string>): (r: seq<LogoEntry>)
    ensures |r| == |toks|
    ensures forall i :: 0 <= i < |r| ==> r[i] == Entry(toks[i])
  {
    if |toks| == 0 then [] else [Entry(toks[0])] + Entries(toks[1..])
  }

  /** `logoEntries`: one entry per comma-separated token, none for an empty parameter. */
  function LogoEntries(logos: string): (r: seq<LogoEntry>)
    ensures |r| == 0 <==> logos == ""
  {
    if logos == "" then [] else Entries(Split(logos, ','))
  }

  /** A league-and-team pair as the card's link writes it. */
  datatype LogoRef = LogoRef(league: string, espnId: string)

  function RefText(r: LogoRef): string {
    r.league + ":" + r.espnId
  }

  function RefTexts(rs: seq<LogoRef>): (r: seq<string>)
    ensures |r| == |rs|
    ensures forall i :: 0 <= i < |r| ==> r[i] == RefText(rs[i])
  {
    if |rs| == 0 then [] else [RefText(rs[0])] + RefTexts(rs[1..])
  }

  predicate CleanRef(r: LogoRef) {
    ',' !in r.league && ':' !in r.league && ',' !in r.espnId && ':' !in r.espnId && r.espnId != ""
  }

  lemma EntryOfRef(r: LogoRef)
    requires CleanRef(r)
    ensures Entry(RefText(r)) == LogoEntry(r.league, Some(r.espnId), CdnUrl(r.league, Some(r.espnId)))
  {
    assert Join([r.league, r.espnId], ":") == RefText(r) by {
      assert [r.league, r.espnId][1..] == [r.espnId];
    }
    SplitJoin([r.league, r.espnId], ':');
    LogoMatchesOg(r.league, r.espnId);
  }

  /**
   * A `logos` parameter written as comma-joined `league:id` pairs reads back as
   * those pairs, in order, each with the image the logo route would proxy.
   */
  lemma LogoEntriesRoundTrip(rs: seq<LogoRef>)
    requires |rs| > 0
    requires forall i :: 0 <= i < |rs| ==> CleanRef(rs[i])
    ensures var es := LogoEntries(Join(RefTexts(rs), ","));
            && |es| == |rs|
            && forall i :: 0 <= i < |rs| ==>
                 es[i] == LogoEntry(rs[i].league, Some(rs[i].espnId), CdnUrl(rs[i].league, Some(rs[i].espnId)))
  {
    var ts := RefTexts(rs);
    var logos := Join(ts, ",");
    forall i | 0 <= i < |ts| ensures ',' !in ts[i] {
      assert ts[i] == rs[i].league + ":" + rs[i].espnId;
    }
    SplitJoin(ts, ',');
    assert logos != "" by {
      assert |ts[0]| > 0;
      assert Split(logos, ',') == ts;
    }
    forall i | 0 <= i < |rs|
      ensures LogoEntries(logos)[i] == LogoEntry(rs[i].league, Some(rs[i].espnId), CdnUrl(rs[i].league, Some(rs[i].espnId)))
    {
      EntryOfRef(rs[i]);
    }
  }

  const Dot := " \U{00B7} "

  /** `names.split(',').join(' · ')`. */
  function NamesLine(names: string): string {
    Join(Split(names, ','), Dot)
  }

  /** Every comma becomes a spaced middle dot, no comma is left, and a single name is shown as is. */
  lemma NamesLineCorrect(names: string)
    ensures NamesLine(names) == ReplaceChar(names, ',', Dot)
    ensures ',' !in NamesLine(names)
    ensures ',' !in names ==> NamesLine(names) == names
  {
    SplitJoinIsReplace(names, ',', Dot);
    ReplaceNoSep(names, ',', Dot);
    if ',' !in names {
      ReplaceFree(names, ',', Dot);
    }
  }

  /** What the card shows, top to bottom, and the gap above the names line. */
  datatype Card = Card(count: string, subtitle: string, logoUrls: seq<string>, names: Option<string>, namesGap: int)

  function Urls(es: seq<LogoEntry>): (r: seq<string>)
    ensures |r| == |es|
    ensures forall i :: 0 <= i < |r| ==> r[i] == es[i].url
  {
    if |es| == 0 then [] else [es[0].url] + Urls(es[1..])
  }

  /** `GET /api/og` up to the renderer. */
  function OgCard(count: Option<string>, dob: Option<string>, names: Option<string>, logos: Option<string>): Card {
    var c := OrDefault(count, "0");
    var n := OrDefault(names, "");
    var es := LogoEntries(OrDefault(logos, ""));
    Card(c, Subtitle(c, BirthYearOf(OrDefault(dob, ""))), Urls(es),
         if n != "" then Some(NamesLine(n)) else None,
         if |es| > 0 then 12 else 28)
  }

  /**
   * The count shows "0" when missing; the logo row appears exactly when `logos`
   * is given and has one image per entry; the names line appears exactly when
   * `names` is given, closer to the logos when there are any.
   */
  lemma OgCardCorrect(count: Option<string>, dob: Option<string>, names: Option<string>, logos: Option<string>)
    ensures var card := OgCard(count, dob, names, logos);
            && (count.None? || count.value == "" ==> card.count == "0")
            && (|card.logoUrls| > 0 <==> logos.Some? && logos.value != "")
            && (logos.Some? && logos.value != "" ==> |card.logoUrls| == |Split(logos.value, ',')|)
            && (card.names.Some? <==> names.Some? && names.value != "")
            && (card.names.Some? ==> ',' !in card.names.value)
            && (card.namesGap == 12 <==> |card.logoUrls| > 0)
  {
    if names.Some? && names.value != "" {
      NamesLineCorrect(names.value);
    }
  }

  /**
   * A birthday picked on the landing page gives the card its four-digit year,
   * which reads back as that year.
   */
  lemma BirthYearFromDob(month: int, day: int, year: int)
    requires IsComplete(month, day, year)
    ensures BirthYearOf(Dob(month, day, year)) == PadStart(NatToString(year), 4, '0')
    ensures ParseInt(BirthYearOf(Dob(month, day, year))) == Some(year)
  {
    var a := PadStart(NatToString(year), 4, '0');
    var b := PadStart(NatToString(month), 2, '0');
    var c := PadStart(NatToString(day), 2, '0');
    PaddedField(year, 4);
    PaddedField(month, 2);
    PaddedField(day, 2);
    assert Dob(month, day, year) == a + "-" + b + "-" + c;
    SplitThree(a, b, c);
  }
}
