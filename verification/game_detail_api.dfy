/**
 * The `POST /api/game-detail` handler (`src/routes/api/game-detail.ts`): the
 * user content it reads, the tags it parses out of that content, whether it
 * answers from the cache or streams a fresh answer, which system prompt it
 * picks, and what it writes back to the cache. The language model's stream and
 * the cache table are parameters; the prompt texts are two constants.
 */
module GameDetailApi {
  import opened Wrappers
  import opened Strings
  import opened Db
  import opened GameDetail

  // ---------------------------------------------------------------------------
  // User content
  // ---------------------------------------------------------------------------

  datatype Part = Part(kind: string, content: string)

  /** A chat message; `content` and `parts` may each be absent. */
  datatype Message = Message(role: string, content: Option<string>, parts: Option<seq<Part>>)

  /** The index of the first user message from `from` on. */
  function UserFrom(ms: seq<Message>, from: nat): (r: Option<nat>)
    ensures r.Some? ==> from <= r.value < |ms| && ms[r.value].role == "user"
    ensures r.Some? ==> forall j :: from <= j < r.value ==> ms[j].role != "user"
    ensures r.None? ==> forall j :: from <= j < |ms| ==> ms[j].role != "user"
    decreases |ms| - from
  {
    if from >= |ms| then None
    else if ms[from].role == "user" then Some(from)
    else UserFrom(ms, from + 1)
  }

  /** `messages.find(m => m.role === 'user')`. */
  function FirstUser(ms: seq<Message>): (r: Option<Message>)
    ensures r.Some? ==> r.value in ms && r.value.role == "user"
    ensures r.Some? ==> exists i :: 0 <= i < |ms| && ms[i] == r.value
                          && forall j :: 0 <= j < i ==> ms[j].role != "user"
    ensures r.None? <==> forall m :: m in ms ==> m.role != "user"
  {
    match UserFrom(ms, 0)
    case Some(i) => Some(ms[i])
    case None => None
  }

  /** The `text` parts' contents, concatenated (`.filter(...).map(...).join('')`). */
  function TextOf(ps: seq<Part>): string {
    if |ps| == 0 then ""
    else PartText(ps[0]) + TextOf(ps[1..])
  }

  /** What one part contributes: its content when it is text. */
  function PartText(p: Part): string {
    if p.kind == "text" then p.content else ""
  }

  /** The text of parts split anywhere is the text of the pieces, one after the other. */
  lemma {:induction false} TextOfAppend(a: seq<Part>, b: seq<Part>)
    ensures TextOf(a + b) == TextOf(a) + TextOf(b)
    decreases |a|
  {
    if |a| == 0 {
      assert a + b == b;
    } else {
      TextOfAppend(a[1..], b);
      TextOfStep(a, b);
      ConcatShift(PartText(a[0]), TextOf(a[1..]), TextOf(b), TextOf(a[1..] + b), TextOf(a + b), TextOf(a));
    }
  }

  lemma TextOfStep(a: seq<Part>, b: seq<Part>)
    requires |a| > 0
    ensures TextOf(a + b) == PartText(a[0]) + TextOf(a[1..] + b)
    ensures TextOf(a) == PartText(a[0]) + TextOf(a[1..])
  {
    var ab := a + b;
    assert ab[0] == a[0] && ab[1..] == a[1..] + b;
  }

  /** Parts of any other kind contribute nothing. */
  lemma {:induction false} TextOfNoText(ps: seq<Part>)
    requires forall p :: p in ps ==> p.kind != "text"
    ensures TextOf(ps) == ""
    decreases |ps|
  {
    if |ps| > 0 {
      assert ps[0] in ps;
      assert forall p :: p in ps[1..] ==> p in ps;
      TextOfNoText(ps[1..]);
    }
  }

  /**
   * `userMessage?.content ?? userMessage?.parts?.filter(...).map(...).join('') ?? ''`:
   * the first user message's flat content when present (even if empty), else its
   * text parts, else the empty string.
   */
  function UserContent(messages: Option<seq<Message>>): (r: string)
    ensures messages.None? ==> r == ""
    ensures messages.Some? && FirstUser(messages.value).None? ==> r == ""
    ensures messages.Some? && FirstUser(messages.value).Some? ==>
              var m := FirstUser(messages.value).value;
              && (m.content.Some? ==> r == m.content.value)
              && (m.content.None? && m.parts.Some? ==> r == TextOf(m.parts.value))
              && (m.content.None? && m.parts.None? ==> r == "")
  {
    if messages.None? then ""
    else
      match FirstUser(messages.value)
      case None => ""
      case Some(m) =>
        if m.content.Some? then m.content.value
        else if m.parts.Some? then TextOf(m.parts.value)
        else ""
  }

  // ---------------------------------------------------------------------------
  // Tag parsing
  // ---------------------------------------------------------------------------

  /**
   * `/\[championship_id:(\d+)\]/` matches at `k`: the prefix, then the longest
   * digit run, non-empty and followed by `]`.
   */
  predicate IdTagAt(s: string, k: nat) {
    OccursAt(s, IdTagPrefix, k)
    && var i := k + |IdTagPrefix|;
       var e := DigitRunEnd(s, i);
       i < e < |s| && s[e] == ']'
  }

  /**
   * Taking the longest digit run loses no match: the pattern matches at `k` exactly
   * when some non-empty run of digits after the prefix is followed by `]`.
   */
  lemma IdTagAtIff(s: string, k: nat)
    ensures IdTagAt(s, k) <==>
              OccursAt(s, IdTagPrefix, k)
              && exists e :: k + |IdTagPrefix| < e < |s| && AllDigits(s[k + |IdTagPrefix|..e]) && s[e] == ']'
  {
    var i := k + |IdTagPrefix|;
    if OccursAt(s, IdTagPrefix, k) {
      if exists e :: i < e < |s| && AllDigits(s[i..e]) && s[e] == ']' {
        var e :| i < e < |s| && AllDigits(s[i..e]) && s[e] == ']';
        DigitRunEndIs(s, i, e);
      }
      if IdTagAt(s, k) {
        var e := DigitRunEnd(s, i);
        assert i < e < |s| && AllDigits(s[i..e]) && s[e] == ']';
      }
    }
  }

  /** The leftmost match at or after `from`. */
  function FindIdTag(s: string, from: nat): (r: Option<nat>)
    ensures r.Some? ==> from <= r.value && IdTagAt(s, r.value)
    ensures r.Some? ==> forall k :: from <= k < r.value ==> !IdTagAt(s, k)
    ensures r.None? ==> forall k :: from <= k ==> !IdTagAt(s, k)
    decreases |s| - from
  {
    if from >= |s| then None
    else if IdTagAt(s, from) then Some(from)
    else FindIdTag(s, from + 1)
  }

  /** `parseInt` of the digits of the first `[championship_id:<digits>]`, or null. */
  function ChampionshipId(s: string): Option<nat> {
    match FindIdTag(s, 0)
    case None => None
    case Some(k) =>
      var i := k + |IdTagPrefix|;
      Some(DigitsValue(s[i..DigitRunEnd(s, i)]))
  }

  /** What the handler reads from the user content. */
  datatype Tags = Tags(championshipId: Option<nat>, noCache: bool, easterEgg: bool)

  function ReadTags(content: string): (t: Tags)
    ensures t.noCache <==> exists k :: OccursAt(content, NoCacheTag, k)
    ensures t.easterEgg <==> exists k :: OccursAt(content, EasterEggTag, k)
    ensures t.championshipId.None? <==> forall k :: !IdTagAt(content, k)
  {
    Tags(ChampionshipId(content), Includes(content, NoCacheTag), Includes(content, EasterEggTag))
  }

  /** `championshipId` as a JavaScript condition: present and not 0. */
  predicate IdTruthy(t: Tags) {
    t.championshipId.Some? && t.championshipId.value != 0
  }

  /** The handler looks in the cache only for a truthy id, without `[no_cache]`, outside the easter egg. */
  predicate ReadsCache(t: Tags) {
    IdTruthy(t) && !t.noCache && !t.easterEgg
  }

  // ---------------------------------------------------------------------------
  // Cache read, stream, cache write
  // ---------------------------------------------------------------------------

  /** A server-sent event; `delta` is set only when it is a string. */
  datatype Chunk = Chunk(kind: string, delta: Option<string>)

  const ContentKind: string := "TEXT_MESSAGE_CONTENT"

  /** The five events of a cached answer: the whole text in one content event. */
  function CachedEvents(content: string): seq<Chunk> {
    [Chunk("RUN_STARTED", None), Chunk("TEXT_MESSAGE_START", None), Chunk(ContentKind, Some(content)),
     Chunk("TEXT_MESSAGE_END", None), Chunk("RUN_FINISHED", None)]
  }

  /** The text one event adds to `fullText`: its delta when it is a content event. */
  function Piece(e: Chunk): string {
    if e.kind == ContentKind && e.delta.Some? then e.delta.value else ""
  }

  /** `fullText`: the string deltas of the content events, in order. */
  function Collected(events: seq<Chunk>): string {
    if |events| == 0 then "" else Piece(events[0]) + Collected(events[1..])
  }

  lemma {:induction false} CollectedAppend(a: seq<Chunk>, b: seq<Chunk>)
    ensures Collected(a + b) == Collected(a) + Collected(b)
    decreases |a|
  {
    if |a| == 0 {
      assert a + b == b;
    } else {
      CollectedAppend(a[1..], b);
      CollectedStep(a, b);
      ConcatShift(Piece(a[0]), Collected(a[1..]), Collected(b), Collected(a[1..] + b), Collected(a + b), Collected(a));
    }
  }

  lemma CollectedStep(a: seq<Chunk>, b: seq<Chunk>)
    requires |a| > 0
    ensures Collected(a + b) == Piece(a[0]) + Collected(a[1..] + b)
    ensures Collected(a) == Piece(a[0]) + Collected(a[1..])
  {
    var ab := a + b;
    assert ab[0] == a[0] && ab[1..] == a[1..] + b;
  }

  /** A client reading a cached answer collects exactly the cached text. */
  lemma CachedEventsRoundTrip(content: string)
    ensures Collected(CachedEvents(content)) == content
  {
    var es := CachedEvents(content);
    assert Collected(es[4..]) == "" by { assert es[4..][1..] == []; }
    assert Collected(es[3..]) == "" by { assert es[3..][1..] == es[4..]; }
    assert Collected(es[2..]) == content by { assert es[2..][1..] == es[3..]; }
    assert Collected(es[1..]) == content by { assert es[1..][1..] == es[2..]; }
  }

  datatype SystemPrompt = Historian | MissingRecords

  /** What one request does: the events it answers with, the prompt used, and the cache row it writes. */
  datatype Outcome = Outcome(events: seq<Chunk>, prompt: Option<SystemPrompt>, write: Option<(nat, string)>)

  /**
   * The handler. `cache` is the `game_details_cache` table (a failed read is a
   * missing row) and `stream` is what the model sends for the request.
   */
  function Handle(messages: Option<seq<Message>>, cache: map<nat, string>, stream: seq<Chunk>): (o: Outcome)
    ensures o.prompt.None? <==> ReadsCache(ReadTags(UserContent(messages)))
                                  && ReadTags(UserContent(messages)).championshipId.value in cache
  {
    var tags := ReadTags(UserContent(messages));
    if ReadsCache(tags) && tags.championshipId.value in cache then
      Outcome(CachedEvents(cache[tags.championshipId.value]), None, None)
    else
      var prompt := if tags.easterEgg then MissingRecords else Historian;
      var text := if IdTruthy(tags) then Collected(stream) else "";
      var write := if IdTruthy(tags) && text != "" && !tags.easterEgg
                   then Some((tags.championshipId.value, text)) else None;
      Outcome(stream, Some(prompt), write)
  }

  /**
   * The cache decisions: a cached answer replays the stored text; otherwise the
   * model's stream passes through unchanged, the missing-records prompt is used
   * exactly for the easter egg, and a row is written exactly when the id is
   * truthy, some text arrived and it is not the easter egg, holding the id and
   * the collected text.
   */
  lemma HandleCorrect(messages: Option<seq<Message>>, cache: map<nat, string>, stream: seq<Chunk>)
    ensures var t := ReadTags(UserContent(messages));
            var o := Handle(messages, cache, stream);
            && (o.prompt.None? ==> Collected(o.events) == cache[t.championshipId.value] && o.write.None?)
            && (o.prompt.Some? ==> o.events == stream)
            && (o.prompt == Some(MissingRecords) <==> o.prompt.Some? && t.easterEgg)
            && (o.write.Some? <==> o.prompt.Some? && IdTruthy(t) && Collected(stream) != "" && !t.easterEgg)
            && (o.write.Some? ==> o.write.value == (t.championshipId.value, Collected(stream)))
  {
    var t := ReadTags(UserContent(messages));
    if ReadsCache(t) && t.championshipId.value in cache {
      CachedEventsRoundTrip(cache[t.championshipId.value]);
    }
  }

  /**
   * A written row is what a later request for the same championship gets back,
   * unless that request asks for a refresh or is the easter egg.
   */
  lemma WriteThenRead(m1: Option<seq<Message>>, m2: Option<seq<Message>>, cache: map<nat, string>,
                      s1: seq<Chunk>, s2: seq<Chunk>)
    requires Handle(m1, cache, s1).write.Some?
    requires ReadTags(UserContent(m2)).championshipId == ReadTags(UserContent(m1)).championshipId
    requires !ReadTags(UserContent(m2)).noCache && !ReadTags(UserContent(m2)).easterEgg
    ensures var (id, text) := Handle(m1, cache, s1).write.value;
            var o := Handle(m2, cache[id := text], s2);
            o.prompt.None? && Collected(o.events) == text
  {
    HandleCorrect(m1, cache, s1);
    var (id, text) := Handle(m1, cache, s1).write.value;
    HandleCorrect(m2, cache[id := text], s2);
  }

  // ---------------------------------------------------------------------------
  // The client's prompt, read back by the server
  // ---------------------------------------------------------------------------

  /** No field the prompt shows contains `[`. */
  predicate BracketFree(c: ChampionshipRow) {
    && '[' !in c.gameTitle && '[' !in c.league && '[' !in c.winningDisplayName
    && (c.losingDisplayName.Some? ==> '[' !in c.losingDisplayName.value)
    && (c.championshipDate.Some? ==> '[' !in c.championshipDate.value)
  }

  function BodyLines(c: ChampionshipRow): seq<string> {
    FixedLines(c) + LoserLine(c) + ScoreLine(c) + DateLine(c)
  }

  lemma IntToStringNoBracket(i: int)
    ensures '[' !in IntToString(i)
  {
  }

  lemma NoBracketJoin(a: string, b: string)
    requires '[' !in a && '[' !in b
    ensures '[' !in a + b
  {
  }

  /** The id line is the only body line with a `[`, and its only `[` opens `[c`. */
  lemma BodyLineBrackets(c: ChampionshipRow, l: string)
    requires BracketFree(c) && l in BodyLines(c)
    ensures l != IdTag(c.id) ==> '[' !in l
    ensures l == IdTag(c.id) ==> |l| > 1 && l[1] == 'c' && '[' !in l[1..]
  {
    var f, lo, sc, da := FixedLines(c), LoserLine(c), ScoreLine(c), DateLine(c);
    assert BodyLines(c) == f + lo + sc + da;
    IdTagBrackets(c.id);
    FixedLinesBrackets(c);
    OptionalLinesBrackets(c);
    if l in f {
      var j :| 0 <= j < 5 && f[j] == l;
    }
  }

  lemma IdTagBrackets(id: int)
    ensures |IdTag(id)| > 1 && IdTag(id)[1] == 'c' && '[' !in IdTag(id)[1..]
  {
    IntToStringNoBracket(id);
    assert IdTag(id)[1..] == IdTagPrefix[1..] + IntToString(id) + "]";
  }

  lemma FixedLinesBrackets(c: ChampionshipRow)
    requires BracketFree(c)
    ensures forall j :: 1 <= j < 5 ==> '[' !in FixedLines(c)[j]
  {
    IntToStringNoBracket(c.year);
    NoBracketJoin("Game: ", c.gameTitle);
    NoBracketJoin("Year: ", IntToString(c.year));
    NoBracketJoin("League: ", LeagueLabel(c.league));
    NoBracketJoin("Winner: ", c.winningDisplayName);
  }

  lemma OptionalLinesBrackets(c: ChampionshipRow)
    requires BracketFree(c)
    ensures forall l :: l in LoserLine(c) ==> '[' !in l
    ensures forall l :: l in ScoreLine(c) ==> '[' !in l
    ensures forall l :: l in DateLine(c) ==> '[' !in l
  {
    if Truthy(c.losingDisplayName) {
      NoBracketJoin("Loser: ", c.losingDisplayName.value);
    }
    if c.winningScore.Some? && c.losingScore.Some? {
      IntToStringNoBracket(c.winningScore.value);
      IntToStringNoBracket(c.losingScore.value);
      NoBracketJoin("Score: " + IntToString(c.winningScore.value), "\U{2013}");
      NoBracketJoin("Score: " + IntToString(c.winningScore.value) + "\U{2013}", IntToString(c.losingScore.value));
    }
    if Truthy(c.championshipDate) {
      NoBracketJoin("Date: ", c.championshipDate.value);
    }
  }

  /** A tag whose second character is not `c` occurs in no body line. */
  lemma TagNotInBody(c: ChampionshipRow, l: string, tag: string, m: int)
    requires BracketFree(c) && l in BodyLines(c)
    requires |tag| >= 2 && tag[0] == '[' && tag[1] != 'c'
    ensures !OccursAt(l, tag, m)
  {
    if OccursAt(l, tag, m) {
      BodyLineBrackets(c, l);
      WindowChar(l, tag, m, 0);
      WindowChar(l, tag, m, 1);
      assert false;
    }
  }

  /** The two tags do not occur inside each other. */
  lemma TagsApart(m: int)
    ensures !OccursAt(EasterEggTag, NoCacheTag, m)
    ensures !OccursAt(NoCacheTag, EasterEggTag, m)
  {
    if OccursAt(NoCacheTag, EasterEggTag, m) {
      WindowChar(NoCacheTag, EasterEggTag, m, 0);
      assert m == 0;
      WindowChar(NoCacheTag, EasterEggTag, m, 1);
      assert false;
    }
  }

  /** A tag line shows up in the prompt text. */
  lemma TagLineInPrompt(c: ChampionshipRow, noCache: bool, tag: string)
    requires tag in PromptLines(c, noCache)
    ensures exists k :: OccursAt(BuildUserPrompt(c, noCache), tag, k)
  {
    var ls := PromptLines(c, noCache);
    var i :| 0 <= i < |ls| && ls[i] == tag;
    var k := PartOccursInJoin(ls, "\n", i);
    assert OccursAt(BuildUserPrompt(c, noCache), tag, k);
  }

  /**
   * In lines made of tag lines and then lines free of `tag`, an occurrence of
   * `tag` in the joined text is one of the tag lines.
   */
  lemma TagFromLine(heads: seq<string>, body: seq<string>, tag: string, k: int)
    requires tag == NoCacheTag || tag == EasterEggTag
    requires forall l :: l in heads ==> l == NoCacheTag || l == EasterEggTag
    requires forall l, m :: l in body ==> !OccursAt(l, tag, m)
    requires OccursAt(Join(heads + body, "\n"), tag, k)
    ensures tag in heads
  {
    var ls := heads + body;
    OccursInJoin(ls, '\n', tag, k);
    var i, m :| 0 <= i < |ls| && OccursAt(ls[i], tag, m);
    if i < |heads| {
      assert ls[i] in heads;
      TagsApart(m);
      assert ls[i] == tag;
    } else {
      assert false;
    }
  }

  /** With bracket-free fields, a tag in the prompt text can only come from its own line. */
  lemma TagInPromptIsLine(c: ChampionshipRow, noCache: bool, tag: string, k: int)
    requires BracketFree(c)
    requires tag == NoCacheTag || tag == EasterEggTag
    requires OccursAt(BuildUserPrompt(c, noCache), tag, k)
    ensures tag in PromptLines(c, noCache)
  {
    var tags := PromptTags(c, noCache);
    var body := BodyLines(c);
    PromptSplit(c, noCache);
    BodyFreeOfTag(c, tag);
    TagFromLine(tags, body, tag, k);
  }

  lemma BodyFreeOfTag(c: ChampionshipRow, tag: string)
    requires BracketFree(c)
    requires tag == NoCacheTag || tag == EasterEggTag
    ensures forall l, m :: l in BodyLines(c) ==> !OccursAt(l, tag, m)
  {
    assert tag[0] == '[' && tag[1] != 'c';
    forall l, m | l in BodyLines(c) ensures !OccursAt(l, tag, m) {
      TagNotInBody(c, l, tag, m);
    }
  }

  /** The prompt's lines are the tag lines followed by the body lines. */
  lemma PromptSplit(c: ChampionshipRow, noCache: bool)
    ensures PromptLines(c, noCache) == PromptTags(c, noCache) + BodyLines(c)
    ensures |BodyLines(c)| >= 5 && BodyLines(c)[0] == IdTag(c.id)
    ensures forall l :: l in PromptTags(c, noCache) ==> l == NoCacheTag || l == EasterEggTag
    ensures forall l :: l in PromptTags(c, noCache) ==> |l| < |IdTagPrefix|
  {
    var f, lo, sc, da := FixedLines(c), LoserLine(c), ScoreLine(c), DateLine(c);
    PromptParts(c, noCache);
    assert BodyLines(c) == f + lo + sc + da;
    assert (f + lo + sc + da)[0] == f[0];
    PromptTagsShort(c, noCache);
  }

  lemma PromptTagsShort(c: ChampionshipRow, noCache: bool)
    ensures forall l :: l in PromptTags(c, noCache) ==> l == NoCacheTag || l == EasterEggTag
    ensures forall l :: l in PromptTags(c, noCache) ==> |l| < |IdTagPrefix|
  {
    assert |NoCacheTag| < |IdTagPrefix| && |EasterEggTag| < |IdTagPrefix|;
  }

  /** With bracket-free fields, a tag occurs in the prompt text exactly when it is one of its lines. */
  lemma TagInPrompt(c: ChampionshipRow, noCache: bool, tag: string)
    requires BracketFree(c)
    requires tag == NoCacheTag || tag == EasterEggTag
    ensures (exists k :: OccursAt(BuildUserPrompt(c, noCache), tag, k)) <==> tag in PromptLines(c, noCache)
  {
    if tag in PromptLines(c, noCache) {
      TagLineInPrompt(c, noCache, tag);
    }
    if exists k :: OccursAt(BuildUserPrompt(c, noCache), tag, k) {
      var k :| OccursAt(BuildUserPrompt(c, noCache), tag, k);
      TagInPromptIsLine(c, noCache, tag, k);
    }
  }

  /** The text before the first body line: the head lines, each ended by a line break. */
  function HeadText(heads: seq<string>): string {
    if |heads| == 0 then "" else Join(heads, "\n") + "\n"
  }

  lemma JoinShape(heads: seq<string>, body: seq<string>)
    requires |body| >= 2
    ensures Join(heads + body, "\n") == HeadText(heads) + (body[0] + ("\n" + Join(body[1..], "\n")))
  {
    assert Join(body, "\n") == body[0] + "\n" + Join(body[1..], "\n");
    assert body[0] + "\n" + Join(body[1..], "\n") == body[0] + ("\n" + Join(body[1..], "\n"));
    if |heads| > 0 {
      JoinConcat(heads, body, "\n");
    } else {
      assert heads + body == body;
    }
  }

  /** No id tag starts inside head lines shorter than its prefix, since none spans a line break. */
  lemma NoIdTagBefore(heads: seq<string>, rest: string, k: nat)
    requires forall l :: l in heads ==> |l| < |IdTagPrefix|
    requires k < |HeadText(heads)|
    ensures !OccursAt(HeadText(heads) + rest, IdTagPrefix, k)
  {
    var j := Join(heads, "\n");
    var s := HeadText(heads) + rest;
    if OccursAt(s, IdTagPrefix, k) {
      assert s == j + "\n" + rest;
      if k + |IdTagPrefix| <= |j| {
        assert s[k..k + |IdTagPrefix|] == j[k..k + |IdTagPrefix|];
        OccursInJoin(heads, '\n', IdTagPrefix, k);
        assert false;
      } else {
        WindowChar(s, IdTagPrefix, k, |j| - k);
        assert false;
      }
    }
  }

  /** An id tag after a stretch with no tag start is the first match, and reads back its id. */
  lemma IdAfter(s: string, pre: string, id: nat, tail: string)
    requires s == pre + IdTagPrefix + NatToString(id) + "]" + tail
    requires forall k :: 0 <= k < |pre| ==> !OccursAt(s, IdTagPrefix, k)
    ensures ChampionshipId(s) == Some(id)
  {
    IdTagSlices(s, pre, NatToString(id), tail);
    IdAt(s, |pre|, |pre| + |IdTagPrefix|, NatToString(id));
    NatToStringRoundTrip(id);
  }

  /** The id tag at `p`, with no tag start before it, is the one read. */
  lemma IdAt(s: string, p: nat, i: nat, digits: string)
    requires OccursAt(s, IdTagPrefix, p) && i == p + |IdTagPrefix|
    requires |digits| > 0 && AllDigits(digits)
    requires i + |digits| < |s| && s[i..i + |digits|] == digits && s[i + |digits|] == ']'
    requires forall k :: 0 <= k < p ==> !OccursAt(s, IdTagPrefix, k)
    ensures ChampionshipId(s) == Some(DigitsValue(digits))
  {
    DigitRunAt(s, i, digits);
    assert IdTagAt(s, p);
    FindIdTagAt(s, p);
    assert s[i..DigitRunEnd(s, i)] == digits;
  }

  /** The digits at `i`, closed by `]`, are the whole digit run there. */
  lemma DigitRunAt(s: string, i: nat, digits: string)
    requires AllDigits(digits) && i + |digits| < |s| && s[i..i + |digits|] == digits && s[i + |digits|] == ']'
    ensures DigitRunEnd(s, i) == i + |digits|
  {
    DigitRunEndIs(s, i, i + |digits|);
  }

  lemma IdTagSlices(s: string, pre: string, digits: string, tail: string)
    requires s == pre + IdTagPrefix + digits + "]" + tail
    ensures OccursAt(s, IdTagPrefix, |pre|)
    ensures |pre| + |IdTagPrefix| + |digits| < |s|
    ensures s[|pre| + |IdTagPrefix|..|pre| + |IdTagPrefix| + |digits|] == digits
    ensures s[|pre| + |IdTagPrefix| + |digits|] == ']'
  {
    var i := |pre| + |IdTagPrefix|;
    assert s[|pre|..i] == IdTagPrefix;
    assert s[i..i + |digits|] == digits;
  }

  /** A match with no match before it is the one `FindIdTag` finds. */
  lemma FindIdTagAt(s: string, p: nat)
    requires IdTagAt(s, p)
    requires forall k :: 0 <= k < p ==> !OccursAt(s, IdTagPrefix, k)
    ensures FindIdTag(s, 0) == Some(p)
  {
    var r := FindIdTag(s, 0);
    assert r.Some?;
    assert !(r.value < p) && !(p < r.value);
  }

  /** Lines whose head lines are short and whose next line is an id tag read back that id. */
  lemma IdFromLines(heads: seq<string>, body: seq<string>, id: nat)
    requires |body| >= 2 && body[0] == IdTagPrefix + NatToString(id) + "]"
    requires forall l :: l in heads ==> |l| < |IdTagPrefix|
    ensures ChampionshipId(Join(heads + body, "\n")) == Some(id)
  {
    JoinShape(heads, body);
    var pre := HeadText(heads);
    var tail := "\n" + Join(body[1..], "\n");
    var rest := body[0] + tail;
    var s := Join(heads + body, "\n");
    forall k | 0 <= k < |pre| ensures !OccursAt(s, IdTagPrefix, k) {
      NoIdTagBefore(heads, rest, k);
    }
    IdLayout(pre, body[0], tail, id);
    IdAfter(s, pre, id, tail);
  }

  lemma IdLayout(pre: string, line: string, tail: string, id: nat)
    requires line == IdTagPrefix + NatToString(id) + "]"
    ensures pre + (line + tail) == pre + IdTagPrefix + NatToString(id) + "]" + tail
  {
  }

  /**
   * For a non-negative id, the server reads back from the client's prompt the
   * id it was built with.
   */
  lemma ChampionshipIdRoundTrip(c: ChampionshipRow, noCache: bool)
    requires c.id >= 0
    ensures ChampionshipId(BuildUserPrompt(c, noCache)) == Some(c.id)
  {
    PromptSplit(c, noCache);
    IdFromLines(PromptTags(c, noCache), BodyLines(c), c.id);
  }

  /**
   * The whole protocol: for a non-negative id and bracket-free fields, the server
   * reads the id back, sees `[no_cache]` exactly on a refresh and the easter egg
   * exactly for Super Bowl XLII, and so consults the cache exactly for a non-zero
   * id on a plain request for any other game.
   */
  lemma PromptProtocol(c: ChampionshipRow, noCache: bool)
    requires c.id >= 0 && BracketFree(c)
    ensures ReadTags(BuildUserPrompt(c, noCache)) == Tags(Some(c.id), noCache, c.gameTitle == XliiTitle)
    ensures ReadsCache(ReadTags(BuildUserPrompt(c, noCache))) <==> c.id != 0 && !noCache && c.gameTitle != XliiTitle
  {
    ChampionshipIdRoundTrip(c, noCache);
    TagInPrompt(c, noCache, NoCacheTag);
    TagInPrompt(c, noCache, EasterEggTag);
    PromptTagLines(c, noCache);
  }
}
