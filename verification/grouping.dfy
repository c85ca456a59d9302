/**
 * Grouping values by a key into an insertion-ordered map, the way the
 * application fills a `Map` or a plain object key by key: a new key is added
 * at the end the first time it is seen, and each value is appended to its
 * key's list. Modelled as a sequence of groups.
 */
module Grouping {

  datatype Group<K, V> = Group(key: K, items: seq<V>)

  ghost predicate Distinct<K>(ks: seq<K>) {
    forall i, j :: 0 <= i < j < |ks| ==> ks[i] != ks[j]
  }

  function Keys<K, V>(gs: seq<Group<K, V>>): (ks: seq<K>)
    ensures |ks| == |gs|
    ensures forall i :: 0 <= i < |gs| ==> ks[i] == gs[i].key
  {
    if |gs| == 0 then [] else [gs[0].key] + Keys(gs[1..])
  }

  /** The keys of the values, in order. */
  function KeysOf<K, V>(vs: seq<V>, key: V -> K): (ks: seq<K>)
    ensures |ks| == |vs|
    ensures forall i :: 0 <= i < |vs| ==> ks[i] == key(vs[i])
  {
    if |vs| == 0 then [] else [key(vs[0])] + KeysOf(vs[1..], key)
  }

  /** The values whose key is `k`, in order. */
  function Filter<K(==), V>(vs: seq<V>, key: V -> K, k: K): (r: seq<V>)
    ensures |r| <= |vs|
    ensures forall i :: 0 <= i < |r| ==> key(r[i]) == k && r[i] in vs
  {
    if |vs| == 0 then []
    else (if key(vs[0]) == k then [vs[0]] else []) + Filter(vs[1..], key, k)
  }

  /** The list stored under `k`, or none when the key is absent. */
  function ItemsOf<K(==), V>(gs: seq<Group<K, V>>, k: K): seq<V> {
    if |gs| == 0 then []
    else if gs[0].key == k then gs[0].items
    else ItemsOf(gs[1..], k)
  }

  /** `if (!m.has(k)) m.set(k, []); m.get(k).push(v)` with `k = key(v)`. */
  function Add<K(==), V>(gs: seq<Group<K, V>>, v: V, key: V -> K): seq<Group<K, V>> {
    if |gs| == 0 then [Group(key(v), [v])]
    else if gs[0].key == key(v) then [Group(gs[0].key, gs[0].items + [v])] + gs[1..]
    else [gs[0]] + Add(gs[1..], v, key)
  }

  function GroupFrom<K(==), V>(gs: seq<Group<K, V>>, vs: seq<V>, key: V -> K): seq<Group<K, V>>
    decreases |vs|
  {
    if |vs| == 0 then gs else GroupFrom(Add(gs, vs[0], key), vs[1..], key)
  }

  /** Grouping into an initially empty map. */
  function GroupBy<K(==), V>(vs: seq<V>, key: V -> K): seq<Group<K, V>> {
    GroupFrom([], vs, key)
  }

  /** The keys `ks`, each with an empty list. */
  function EmptyGroups<K, V>(ks: seq<K>): (gs: seq<Group<K, V>>)
    ensures Keys(gs) == ks
  {
    if |ks| == 0 then [] else [Group(ks[0], [])] + EmptyGroups(ks[1..])
  }

  /** `seen` followed by the keys of `ks` not seen before, in first-occurrence order. */
  function DedupFrom<K(==)>(seen: seq<K>, ks: seq<K>): seq<K>
    decreases |ks|
  {
    if |ks| == 0 then seen
    else DedupFrom(if ks[0] in seen then seen else seen + [ks[0]], ks[1..])
  }

  /** The distinct keys in first-occurrence order: a `Set`'s iteration order. */
  function Dedup<K(==)>(ks: seq<K>): seq<K> {
    DedupFrom([], ks)
  }

  /** The set of elements of a sequence: what `new Set(ks)` holds. */
  ghost function Members<K>(ks: seq<K>): set<K> {
    set x | x in ks
  }

  function TotalSize<K, V>(gs: seq<Group<K, V>>): nat {
    if |gs| == 0 then 0 else |gs[0].items| + TotalSize(gs[1..])
  }

  // ---------------------------------------------------------------------------
  // Lemmas
  // ---------------------------------------------------------------------------

  lemma {:induction false} DedupFromFacts<K>(seen: seq<K>, ks: seq<K>)
    requires Distinct(seen)
    ensures Distinct(DedupFrom(seen, ks))
    ensures |seen| <= |DedupFrom(seen, ks)| && DedupFrom(seen, ks)[..|seen|] == seen
    ensures forall x {:trigger x in DedupFrom(seen, ks)} :: x in DedupFrom(seen, ks) <==> x in seen || x in ks
    decreases |ks|
  {
    if |ks| > 0 {
      var next := if ks[0] in seen then seen else seen + [ks[0]];
      DedupFromFacts(next, ks[1..]);
      var r := DedupFrom(next, ks[1..]);
      assert r[..|seen|] == r[..|next|][..|seen|];
      assert ks == [ks[0]] + ks[1..];
    }
  }

  /** A `Set` built from the keys has as many members as there are distinct keys. */
  lemma DedupFacts<K>(ks: seq<K>)
    ensures Distinct(Dedup(ks))
    ensures forall x :: x in Dedup(ks) <==> x in ks
    ensures |Dedup(ks)| == |Members(ks)|
  {
    DedupFromFacts([], ks);
    var r := Dedup(ks);
    DistinctCard(r);
    forall x ensures x in Members(r) <==> x in Members(ks) {
      DedupMember(ks, x);
    }
    assert Members(r) == Members(ks);
  }

  /** Keys with no repeats pass through de-duplication unchanged. */
  lemma {:induction false} DedupFromDistinct<K>(seen: seq<K>, ks: seq<K>)
    requires Distinct(seen + ks)
    ensures DedupFrom(seen, ks) == seen + ks
    decreases |ks|
  {
    if |ks| > 0 {
      var all := seen + ks;
      assert ks[0] !in seen by {
        forall i | 0 <= i < |seen| ensures seen[i] != ks[0] {
          assert all[i] == seen[i] && all[|seen|] == ks[0];
        }
      }
      assert seen + [ks[0]] + ks[1..] == all;
      DedupFromDistinct(seen + [ks[0]], ks[1..]);
    }
  }

  lemma DedupDistinct<K>(ks: seq<K>)
    requires Distinct(ks)
    ensures Dedup(ks) == ks
  {
    assert [] + ks == ks;
    DedupFromDistinct([], ks);
  }

  lemma DedupMember<K>(ks: seq<K>, x: K)
    ensures x in Dedup(ks) <==> x in ks
  {
    DedupFromFacts([], ks);
    assert Dedup(ks) == DedupFrom([], ks);
  }

  lemma {:induction false} DistinctCard<K>(ks: seq<K>)
    requires Distinct(ks)
    ensures |Members(ks)| == |ks|
    decreases |ks|
  {
    if |ks| > 0 {
      var tail := ks[1..];
      assert Distinct(tail) by {
        forall i, j | 0 <= i < j < |tail| ensures tail[i] != tail[j] {
          assert tail[i] == ks[i + 1] && tail[j] == ks[j + 1];
        }
      }
      DistinctCard(tail);
      assert ks[0] !in tail by {
        forall i | 0 <= i < |tail| ensures tail[i] != ks[0] {
          assert tail[i] == ks[i + 1];
        }
      }
      assert Members(ks) == Members(tail) + {ks[0]};
    }
  }

  lemma {:induction false} AddItems<K, V>(gs: seq<Group<K, V>>, v: V, key: V -> K, k: K)
    ensures ItemsOf(Add(gs, v, key), k) == ItemsOf(gs, k) + (if key(v) == k then [v] else [])
    decreases |gs|
  {
    if |gs| > 0 && gs[0].key != key(v) {
      AddItems(gs[1..], v, key, k);
    }
  }

  lemma {:induction false} AddKeys<K, V>(gs: seq<Group<K, V>>, v: V, key: V -> K)
    ensures Keys(Add(gs, v, key)) == if key(v) in Keys(gs) then Keys(gs) else Keys(gs) + [key(v)]
    ensures TotalSize(Add(gs, v, key)) == TotalSize(gs) + 1
    decreases |gs|
  {
    if |gs| > 0 {
      assert Keys(gs) == [gs[0].key] + Keys(gs[1..]);
      if gs[0].key != key(v) {
        AddKeys(gs[1..], v, key);
        assert Keys(Add(gs, v, key)) == [gs[0].key] + Keys(Add(gs[1..], v, key));
      } else {
        assert Keys(Add(gs, v, key)) == [gs[0].key] + Keys(gs[1..]);
      }
    }
  }

  lemma {:induction false} GroupFromItems<K, V>(gs: seq<Group<K, V>>, vs: seq<V>, key: V -> K, k: K)
    ensures ItemsOf(GroupFrom(gs, vs, key), k) == ItemsOf(gs, k) + Filter(vs, key, k)
    decreases |vs|
  {
    if |vs| > 0 {
      AddItems(gs, vs[0], key, k);
      GroupFromItems(Add(gs, vs[0], key), vs[1..], key, k);
    }
  }

  lemma {:induction false} GroupFromKeys<K, V>(gs: seq<Group<K, V>>, vs: seq<V>, key: V -> K)
    ensures Keys(GroupFrom(gs, vs, key)) == DedupFrom(Keys(gs), KeysOf(vs, key))
    ensures TotalSize(GroupFrom(gs, vs, key)) == TotalSize(gs) + |vs|
    decreases |vs|
  {
    if |vs| > 0 {
      AddKeys(gs, vs[0], key);
      GroupFromKeys(Add(gs, vs[0], key), vs[1..], key);
      assert KeysOf(vs, key)[1..] == KeysOf(vs[1..], key);
    }
  }

  lemma {:induction false} ItemsOfAt<K, V>(gs: seq<Group<K, V>>, i: int)
    requires Distinct(Keys(gs)) && 0 <= i < |gs|
    ensures ItemsOf(gs, gs[i].key) == gs[i].items
    decreases |gs|
  {
    if i > 0 {
      assert Distinct(Keys(gs[1..])) by {
        forall a, b | 0 <= a < b < |gs[1..]| ensures Keys(gs[1..])[a] != Keys(gs[1..])[b] {
          assert Keys(gs[1..])[a] == Keys(gs)[a + 1] && Keys(gs[1..])[b] == Keys(gs)[b + 1];
        }
      }
      assert Keys(gs)[0] != Keys(gs)[i];
      ItemsOfAt(gs[1..], i - 1);
    }
  }

  lemma {:induction false} EmptyGroupsItems<K, V>(ks: seq<K>, k: K)
    ensures ItemsOf(EmptyGroups<K, V>(ks), k) == []
    decreases |ks|
  {
    if |ks| > 0 {
      EmptyGroupsItems<K, V>(ks[1..], k);
    }
  }

  /**
   * Grouping into a map seeded with the distinct keys `seed`: the seed keys come
   * first and in order, every other key appears in first-occurrence order, keys
   * are distinct, each key's list is exactly the values with that key in input
   * order, and no value is lost or duplicated.
   */
  lemma SeededGroupCorrect<K, V>(seed: seq<K>, vs: seq<V>, key: V -> K)
    requires Distinct(seed)
    ensures var g := GroupFrom(EmptyGroups<K, V>(seed), vs, key);
            && Keys(g) == DedupFrom(seed, KeysOf(vs, key))
            && |seed| <= |g| && Keys(g)[..|seed|] == seed
            && Distinct(Keys(g))
            && (forall k :: k in Keys(g) <==> k in seed || k in KeysOf(vs, key))
            && (forall i :: 0 <= i < |g| ==> g[i].items == Filter(vs, key, g[i].key))
            && TotalSize(g) == |vs|
  {
    var g := GroupFrom(EmptyGroups<K, V>(seed), vs, key);
    GroupFromKeys(EmptyGroups<K, V>(seed), vs, key);
    DedupFromFacts(seed, KeysOf(vs, key));
    assert TotalSize(EmptyGroups<K, V>(seed)) == 0 by {
      EmptyTotal<K, V>(seed);
    }
    forall i | 0 <= i < |g| ensures g[i].items == Filter(vs, key, g[i].key) {
      GroupFromItems(EmptyGroups<K, V>(seed), vs, key, g[i].key);
      EmptyGroupsItems<K, V>(seed, g[i].key);
      ItemsOfAt(g, i);
    }
  }

  lemma {:induction false} EmptyTotal<K, V>(ks: seq<K>)
    ensures TotalSize(EmptyGroups<K, V>(ks)) == 0
    decreases |ks|
  {
    if |ks| > 0 {
      EmptyTotal<K, V>(ks[1..]);
    }
  }

  /** Grouping into an empty map: the keys are the distinct keys in first-occurrence order. */
  lemma GroupByCorrect<K, V>(vs: seq<V>, key: V -> K)
    ensures var g := GroupBy(vs, key);
            && Keys(g) == Dedup(KeysOf(vs, key))
            && Distinct(Keys(g))
            && (forall k :: k in Keys(g) <==> k in KeysOf(vs, key))
            && (forall i :: 0 <= i < |g| ==> g[i].items == Filter(vs, key, g[i].key))
            && TotalSize(g) == |vs|
  {
    assert EmptyGroups<K, V>([]) == [];
    SeededGroupCorrect<K, V>([], vs, key);
  }

  /** Every value lands in the group of its own key. */
  lemma {:induction false} InOwnGroup<K, V>(vs: seq<V>, key: V -> K, v: V)
    requires v in vs
    ensures v in Filter(vs, key, key(v))
    decreases |vs|
  {
    if vs[0] != v {
      InOwnGroup(vs[1..], key, v);
    }
  }

  /** The list stored under any key, present or not, is exactly the values with that key. */
  lemma ItemsOfGroupBy<K, V>(vs: seq<V>, key: V -> K, k: K)
    ensures ItemsOf(GroupBy(vs, key), k) == Filter(vs, key, k)
  {
    GroupFromItems([], vs, key, k);
  }

  /** A key that occurs among the values has a non-empty list. */
  lemma {:induction false} FilterOfKey<K, V>(vs: seq<V>, key: V -> K, k: K)
    requires k in KeysOf(vs, key)
    ensures |Filter(vs, key, k)| > 0
    decreases |vs|
  {
    if key(vs[0]) != k {
      assert KeysOf(vs, key) == [key(vs[0])] + KeysOf(vs[1..], key);
      FilterOfKey(vs[1..], key, k);
    }
  }

  /** In a sequence of distinct elements every element occurs at most once. */
  lemma {:induction false} DistinctCount<K>(s: seq<K>, x: K)
    requires Distinct(s)
    ensures multiset(s)[x] <= 1
    decreases |s|
  {
    if |s| > 0 {
      assert s == [s[0]] + s[1..];
      assert Distinct(s[1..]) by {
        forall i, j | 0 <= i < j < |s[1..]| ensures s[1..][i] != s[1..][j] {
          assert s[1..][i] == s[i + 1] && s[1..][j] == s[j + 1];
        }
      }
      DistinctCount(s[1..], x);
      if s[0] == x {
        assert x !in s[1..] by {
          forall i | 0 <= i < |s[1..]| ensures s[1..][i] != x {
            assert s[1..][i] == s[i + 1];
          }
        }
      }
    }
  }

  lemma RepeatCount<K>(s: seq<K>, i: int, j: int)
    requires 0 <= i < j < |s| && s[i] == s[j]
    ensures multiset(s)[s[i]] >= 2
  {
    var x := s[i];
    assert s == s[..j] + [s[j]] + s[j + 1..];
    assert x in s[..j];
    assert multiset(s) == multiset(s[..j]) + multiset{s[j]} + multiset(s[j + 1..]);
  }

  /** A permutation of distinct elements is again distinct. */
  lemma PermutationDistinct<K>(a: seq<K>, b: seq<K>)
    requires Distinct(a) && multiset(a) == multiset(b)
    ensures Distinct(b)
  {
    forall i, j | 0 <= i < j < |b| ensures b[i] != b[j] {
      if b[i] == b[j] {
        RepeatCount(b, i, j);
        DistinctCount(a, b[i]);
        assert false;
      }
    }
  }
}
