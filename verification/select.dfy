/**
 * The team-selection page (`src/routes/select.tsx`): the selection and its
 * toggle, the search filter over the league groups, the league the page scrolls
 * to after a pick, the hand-off to the timeline, and the restore of a saved
 * selection. The selection is a `Set`, kept here as a repeat-free sequence in
 * insertion order, which is the order `Array.from` lists it in.
 */
module Select {
  import opened Wrappers
  import opened Strings
  import opened Grouping
  import opened Db
  import opened Timeline

  // ---------------------------------------------------------------------------
  // toggleTeam: the selection
  // ---------------------------------------------------------------------------

  /** `set.delete(id)`: the other members, in their order. */
  function Remove(sel: seq<int>, id: int): (r: seq<int>)
    ensures forall x :: x in r <==> x in sel && x != id
    ensures |r| <= |sel|
  {
    if |sel| == 0 then []
    else (if sel[0] == id then [] else [sel[0]]) + Remove(sel[1..], id)
  }

  /** The new selection after clicking team `id`. */
  function Toggle(sel: seq<int>, id: int): seq<int> {
    if id in sel then Remove(sel, id) else sel + [id]
  }

  lemma {:induction false} RemoveDistinct(sel: seq<int>, id: int)
    requires Distinct(sel)
    ensures Distinct(Remove(sel, id))
    decreases |sel|
  {
    if |sel| > 0 {
      assert Distinct(sel[1..]) by {
        forall i, j | 0 <= i < j < |sel[1..]| ensures sel[1..][i] != sel[1..][j] {
          assert sel[1..][i] == sel[i + 1] && sel[1..][j] == sel[j + 1];
        }
      }
      RemoveDistinct(sel[1..], id);
      var rest := Remove(sel[1..], id);
      if sel[0] != id {
        assert sel[0] !in sel[1..] by {
          forall k | 0 <= k < |sel[1..]| ensures sel[1..][k] != sel[0] {
            assert sel[1..][k] == sel[k + 1];
          }
        }
        var r := [sel[0]] + rest;
        forall i, j | 0 <= i < j < |r| ensures r[i] != r[j] {
          if i == 0 {
            assert r[j] == rest[j - 1];
          } else {
            assert r[i] == rest[i - 1] && r[j] == rest[j - 1];
          }
        }
      } else {
        assert Remove(sel, id) == rest;
      }
    }
  }

  lemma {:induction false} RemoveAbsent(sel: seq<int>, id: int)
    requires id !in sel
    ensures Remove(sel, id) == sel
    decreases |sel|
  {
    if |sel| > 0 {
      RemoveAbsent(sel[1..], id);
    }
  }

  lemma {:induction false} RemoveLast(sel: seq<int>, id: int)
    requires id !in sel
    ensures Remove(sel + [id], id) == sel
    decreases |sel|
  {
    if |sel| == 0 {
      assert [] + [id] == [id];
    } else {
      assert (sel + [id])[1..] == sel[1..] + [id];
      RemoveLast(sel[1..], id);
    }
  }

  /**
   * A click flips whether `id` is selected and leaves every other team as it
   * was; the selection stays free of repeats; two clicks give back the same set,
   * and the very same order when the team was not selected before.
   */
  lemma ToggleCorrect(sel: seq<int>, id: int)
    requires Distinct(sel)
    ensures Distinct(Toggle(sel, id))
    ensures id in Toggle(sel, id) <==> id !in sel
    ensures forall x :: x != id ==> (x in Toggle(sel, id) <==> x in sel)
    ensures forall x :: x in Toggle(Toggle(sel, id), id) <==> x in sel
    ensures id !in sel ==> Toggle(Toggle(sel, id), id) == sel
  {
    if id in sel {
      RemoveDistinct(sel, id);
    } else {
      var r := sel + [id];
      assert Distinct(r) by {
        forall i, j | 0 <= i < j < |r| ensures r[i] != r[j] {
          if j == |sel| {
            assert r[i] == sel[i];
          }
        }
      }
      RemoveLast(sel, id);
    }
  }

  // ---------------------------------------------------------------------------
  // The search filter
  // ---------------------------------------------------------------------------

  /** A team matches when its name, city or abbreviation, lowercased, contains the lowercased filter. */
  predicate Matches(t: Team, lowered: string) {
    Includes(ToLower(t.name), lowered) || Includes(ToLower(t.city), lowered)
    || Includes(ToLower(t.abbreviation), lowered)
  }

  function Matching(ts: seq<Team>, lowered: string): (r: seq<Team>)
    ensures |r| <= |ts|
  {
    if |ts| == 0 then []
    else KeepIf(ts[0], lowered) + Matching(ts[1..], lowered)
  }

  function KeepIf(t: Team, lowered: string): seq<Team> {
    if Matches(t, lowered) then [t] else []
  }

  /**
   * The filter keeps the original order: filtering a concatenation filters each
   * part, and a single team is kept exactly when it matches.
   */
  lemma {:induction false} MatchingAppend(a: seq<Team>, b: seq<Team>, lowered: string)
    ensures Matching(a + b, lowered) == Matching(a, lowered) + Matching(b, lowered)
    decreases |a|
  {
    if |a| == 0 {
      assert a + b == b;
    } else {
      MatchingStep(a, b, lowered);
      MatchingAppend(a[1..], b, lowered);
      ConcatShift(KeepIf(a[0], lowered), Matching(a[1..], lowered), Matching(b, lowered),
                  Matching(a[1..] + b, lowered), Matching(a + b, lowered), Matching(a, lowered));
    }
  }

  lemma MatchingStep(a: seq<Team>, b: seq<Team>, lowered: string)
    requires |a| > 0
    ensures Matching(a + b, lowered) == KeepIf(a[0], lowered) + Matching(a[1..] + b, lowered)
    ensures Matching(a, lowered) == KeepIf(a[0], lowered) + Matching(a[1..], lowered)
  {
    var ab := a + b;
    assert ab[0] == a[0] && ab[1..] == a[1..] + b;
  }

  /** A team is kept exactly when it is listed and matches. */
  lemma {:induction false} MatchingMembers(ts: seq<Team>, lowered: string)
    ensures forall t :: t in Matching(ts, lowered) <==> t in ts && Matches(t, lowered)
    decreases |ts|
  {
    if |ts| > 0 {
      MatchingMembers(ts[1..], lowered);
      assert ts == [ts[0]] + ts[1..];
    }
  }

  lemma MatchingOne(t: Team, lowered: string)
    ensures Matching([t], lowered) == if Matches(t, lowered) then [t] else []
  {
    assert [t][1..] == [];
  }

  /** The leagues with at least one matching team, each with its matching teams. */
  function MatchingGroups(gs: seq<Group<string, Team>>, lowered: string): (r: seq<Group<string, Team>>)
    ensures forall g :: g in r ==> |g.items| > 0 && exists g0 :: g0 in gs && g == Group(g0.key, Matching(g0.items, lowered))
    ensures forall g0 :: g0 in gs && |Matching(g0.items, lowered)| > 0 ==> Group(g0.key, Matching(g0.items, lowered)) in r
  {
    if |gs| == 0 then []
    else
      var m := Matching(gs[0].items, lowered);
      (if |m| > 0 then [Group(gs[0].key, m)] else []) + MatchingGroups(gs[1..], lowered)
  }

  /** `filteredTeams`. */
  function FilterTeams(gs: seq<Group<string, Team>>, filter: string): seq<Group<string, Team>> {
    var lowered := ToLower(filter);
    if lowered == "" then gs else MatchingGroups(gs, lowered)
  }

  /**
   * An empty filter keeps every league, empty ones included. Otherwise a league
   * is kept exactly when one of its teams matches, with just its matching teams,
   * and a team is listed exactly when it matches.
   */
  lemma FilterTeamsCorrect(gs: seq<Group<string, Team>>, filter: string)
    ensures filter == "" ==> FilterTeams(gs, filter) == gs
    ensures filter != "" ==>
              var lowered := ToLower(filter);
              && (forall g :: g in FilterTeams(gs, filter) ==>
                    |g.items| > 0 && forall t :: t in g.items ==> Matches(t, lowered))
              && (forall g0, t :: g0 in gs && t in g0.items && Matches(t, lowered) ==>
                    exists g :: g in FilterTeams(gs, filter) && g.key == g0.key && t in g.items)
  {
    if filter != "" {
      var lowered := ToLower(filter);
      assert lowered != "" by {
        assert |lowered| == |filter|;
      }
      forall g0 | g0 in gs {
        MatchingMembers(g0.items, lowered);
      }
      forall g0, t | g0 in gs && t in g0.items && Matches(t, lowered)
        ensures exists g :: g in FilterTeams(gs, filter) && g.key == g0.key && t in g.items
      {
        var g := Group(g0.key, Matching(g0.items, lowered));
        assert t in g.items;
      }
    }
  }

  // ---------------------------------------------------------------------------
  // The league to scroll to after a pick
  // ---------------------------------------------------------------------------

  /** `teamLeagueMap.get(id)`: later leagues overwrite earlier ones. */
  function LeagueOfId(gs: seq<Group<string, Team>>, id: int): (r: Option<string>)
    ensures r.Some? ==> exists g, t :: g in gs && g.key == r.value && t in g.items && t.id == id
    ensures r.None? ==> forall g, t :: g in gs && t in g.items ==> t.id != id
    decreases |gs|
  {
    if |gs| == 0 then None
    else
      var last := gs[|gs| - 1];
      if exists t :: t in last.items && t.id == id then Some(last.key)
      else
        var r := LeagueOfId(gs[..|gs| - 1], id);
        assert forall g :: g in gs[..|gs| - 1] ==> g in gs;
        r
  }

  /** `Array.prototype.indexOf`: the first position of `k`, or -1. */
  function KeyIndex(ks: seq<string>, k: string): (r: int)
    ensures -1 <= r < |ks|
    ensures r >= 0 ==> ks[r] == k && forall j :: 0 <= j < r ==> ks[j] != k
    ensures r == -1 <==> k !in ks
  {
    if |ks| == 0 then -1
    else if ks[0] == k then 0
    else
      var r := KeyIndex(ks[1..], k);
      if r == -1 then -1 else r + 1
  }

  /**
   * Where `toggleTeam` scrolls: nowhere for an unselect or an unknown team; else
   * the key after the team's league among the filtered leagues, if there is one.
   */
  function ScrollTarget(sel: seq<int>, id: int, gs: seq<Group<string, Team>>, filteredKeys: seq<string>): Option<string> {
    if id in sel then None
    else
      match LeagueOfId(gs, id)
      case None => None
      case Some(league) =>
        if league == "" then None
        else
          var n := KeyIndex(filteredKeys, league) + 1;
          if n < |filteredKeys| && filteredKeys[n] != "" then Some(filteredKeys[n]) else None
  }

  /**
   * A pick of a team whose league is listed scrolls to the next listed league, and
   * to nothing when its league is last; an unselect never scrolls. A league that
   * is not listed reads as position -1, so the first listed league is the target.
   */
  lemma ScrollTargetCorrect(sel: seq<int>, id: int, gs: seq<Group<string, Team>>, ks: seq<string>)
    ensures id in sel ==> ScrollTarget(sel, id, gs, ks).None?
    ensures forall p :: 0 <= p < |ks| && id !in sel && LeagueOfId(gs, id) == Some(ks[p]) && ks[p] != ""
                        && (forall j :: 0 <= j < p ==> ks[j] != ks[p]) ==>
              ScrollTarget(sel, id, gs, ks) == (if p + 1 < |ks| && ks[p + 1] != "" then Some(ks[p + 1]) else None)
    ensures forall l :: id !in sel && LeagueOfId(gs, id) == Some(l) && l != "" && l !in ks && |ks| > 0 && ks[0] != "" ==>
              ScrollTarget(sel, id, gs, ks) == Some(ks[0])
  {
  }

  // ---------------------------------------------------------------------------
  // handleViewTimeline and the saved selection
  // ---------------------------------------------------------------------------

  function IntStrings(ids: seq<int>): (r: seq<string>)
    ensures |r| == |ids|
    ensures forall i :: 0 <= i < |r| ==> r[i] == IntToString(ids[i])
  {
    if |ids| == 0 then [] else [IntToString(ids[0])] + IntStrings(ids[1..])
  }

  /** What `handleViewTimeline` saves and where it navigates. */
  datatype Handoff = Handoff(savedDob: string, savedIds: seq<int>, dob: string, teams: string)

  /** Nothing for an empty selection; else the selection saved and joined into the URL. */
  function ViewTimeline(dob: string, sel: seq<int>): (r: Option<Handoff>)
    ensures r.None? <==> |sel| == 0
  {
    if |sel| == 0 then None
    else Some(Handoff(dob, sel, dob, Join(IntStrings(sel), ",")))
  }

  /**
   * What storage holds under a key: nothing, text that fails to parse, or a
   * record whose `dob` and `teamIds` are kept when they are a string and an array.
   */
  datatype Saved = NoEntry | Unreadable | SavedRecord(dob: Option<string>, teamIds: Option<seq<int>>)

  /** Browser storage, each key with what its text parses to. */
  type Storage = map<string, Saved>

  /** The key the selection page reads, writes and clears. */
  const SelectionsKey := "championship-tracker-selections"

  /** `localStorage.getItem`: a key never written holds nothing. */
  function Lookup(store: Storage, key: string): Saved {
    if key in store then store[key] else NoEntry
  }

  /** `handleViewTimeline`'s write: the record under the page's key, every other key untouched. */
  function SaveHandoff(store: Storage, h: Handoff): (r: Storage)
    ensures Lookup(r, SelectionsKey) == SavedRecord(Some(h.savedDob), Some(h.savedIds))
    ensures forall k :: k != SelectionsKey ==> Lookup(r, k) == Lookup(store, k)
  {
    store[SelectionsKey := SavedRecord(Some(h.savedDob), Some(h.savedIds))]
  }

  /** `handleClearSelections`: the page's key is removed, every other key untouched. */
  function ClearSelections(store: Storage): (r: Storage)
    ensures Lookup(r, SelectionsKey) == NoEntry
    ensures forall k :: k != SelectionsKey ==> Lookup(r, k) == Lookup(store, k)
  {
    store - {SelectionsKey}
  }

  /** The initial selection: a saved non-empty array of ids, else nothing. */
  function Restore(saved: Saved): (r: seq<int>)
    ensures Distinct(r)
    ensures forall x :: x in r <==> saved.SavedRecord? && saved.teamIds.Some? && x in saved.teamIds.value
  {
    DedupFacts(if saved.SavedRecord? && saved.teamIds.Some? then saved.teamIds.value else []);
    if saved.SavedRecord? && saved.teamIds.Some? && |saved.teamIds.value| > 0 then Dedup(saved.teamIds.value)
    else []
  }

  /** The selection the page starts with, read from storage. */
  function InitialSelection(store: Storage): seq<int> {
    Restore(Lookup(store, SelectionsKey))
  }

  /**
   * The hand-off: the timeline reads back exactly the selected ids, in order,
   * when they are positive, and a later visit restores exactly the selection.
   */
  lemma ViewTimelineRoundTrip(store: Storage, dob: string, sel: seq<int>)
    requires |sel| > 0 && Distinct(sel)
    requires forall i :: 0 <= i < |sel| ==> sel[i] > 0
    ensures var h := ViewTimeline(dob, sel).value;
            && h.dob == dob && h.savedDob == dob
            && ParseTeamIds(h.teams) == sel
            && InitialSelection(SaveHandoff(store, h)) == sel
  {
    var ns: seq<nat> := sel;
    assert IntStrings(sel) == Decimals(ns);
    TeamIdsRoundTrip(ns);
    DedupDistinct(sel);
  }

  /** Clearing the selection means the next visit starts with none. */
  lemma ClearedStartsEmpty(store: Storage)
    ensures InitialSelection(ClearSelections(store)) == []
  {
  }
}
