/**
 * A stable sort by an integer key, descending — what JavaScript's
 * `[...xs].sort((a, b) => key(b) - key(a))` computes, since `Array.prototype.sort`
 * is stable. Ascending order is the same sort on the negated key.
 */
module Sorting {

  ghost predicate SortedDesc<T>(s: seq<T>, key: T -> int) {
    forall i, j :: 0 <= i < j < |s| ==> key(s[i]) >= key(s[j])
  }

  /** The elements of `s` whose key is `v`, in their order in `s`. */
  function FilterKey<T>(s: seq<T>, key: T -> int, v: int): (r: seq<T>)
    ensures |r| <= |s|
    ensures forall i :: 0 <= i < |r| ==> key(r[i]) == v
  {
    if |s| == 0 then []
    else (if key(s[0]) == v then [s[0]] else []) + FilterKey(s[1..], key, v)
  }

  /** Place `x` before the first element whose key is not larger than its own. */
  function InsertByKey<T>(x: T, t: seq<T>, key: T -> int): (r: seq<T>)
    ensures |r| == |t| + 1
    ensures multiset(r) == multiset(t) + multiset{x}
  {
    if |t| == 0 || key(x) >= key(t[0]) then [x] + t
    else
      assert t == [t[0]] + t[1..];
      [t[0]] + InsertByKey(x, t[1..], key)
  }

  /** The stable descending sort by `key`. */
  function SortDesc<T>(s: seq<T>, key: T -> int): (r: seq<T>)
    ensures |r| == |s|
    ensures multiset(r) == multiset(s)
    ensures SortedDesc(r, key)
  {
    if |s| == 0 then []
    else
      var t := SortDesc(s[1..], key);
      InsertSorted(s[0], t, key);
      assert s == [s[0]] + s[1..];
      InsertByKey(s[0], t, key)
  }

  lemma {:induction false} InsertSorted<T>(x: T, t: seq<T>, key: T -> int)
    requires SortedDesc(t, key)
    ensures SortedDesc(InsertByKey(x, t, key), key)
    decreases |t|
  {
    if |t| > 0 && key(x) < key(t[0]) {
      InsertSorted(x, t[1..], key);
      var r := InsertByKey(x, t, key);
      var r' := InsertByKey(x, t[1..], key);
      assert r == [t[0]] + r';
      forall j | 0 <= j < |r'| ensures key(t[0]) >= key(r'[j]) {
        assert r'[j] in multiset(r');
        assert r'[j] == x || r'[j] in multiset(t[1..]);
        if r'[j] != x {
          var k :| 0 <= k < |t[1..]| && t[1..][k] == r'[j];
          assert t[k + 1] == r'[j];
        }
      }
    }
  }

  lemma {:induction false} FilterKeyAppend<T>(a: seq<T>, b: seq<T>, key: T -> int, v: int)
    ensures FilterKey(a + b, key, v) == FilterKey(a, key, v) + FilterKey(b, key, v)
    decreases |a|
  {
    if |a| == 0 {
      assert a + b == b;
    } else {
      assert (a + b)[1..] == a[1..] + b;
      FilterKeyAppend(a[1..], b, key, v);
    }
  }

  /** Inserting an element of another key class leaves a class untouched. */
  lemma {:induction false} InsertFilterOther<T>(x: T, t: seq<T>, key: T -> int, v: int)
    requires key(x) != v
    ensures FilterKey(InsertByKey(x, t, key), key, v) == FilterKey(t, key, v)
    decreases |t|
  {
    if |t| == 0 || key(x) >= key(t[0]) {
      assert ([x] + t)[1..] == t;
    } else {
      assert ([t[0]] + InsertByKey(x, t[1..], key))[1..] == InsertByKey(x, t[1..], key);
      InsertFilterOther(x, t[1..], key, v);
    }
  }

  /** In a sorted list, `x` lands in front of every element of its own key class. */
  lemma {:induction false} InsertFilterSame<T>(x: T, t: seq<T>, key: T -> int)
    requires SortedDesc(t, key)
    ensures FilterKey(InsertByKey(x, t, key), key, key(x)) == [x] + FilterKey(t, key, key(x))
    decreases |t|
  {
    if |t| == 0 || key(x) >= key(t[0]) {
      assert ([x] + t)[1..] == t;
    } else {
      assert ([t[0]] + InsertByKey(x, t[1..], key))[1..] == InsertByKey(x, t[1..], key);
      InsertFilterSame(x, t[1..], key);
      assert t[1..][0..] == t[1..];
    }
  }

  /** Stability: each key class keeps its original order. */
  lemma {:induction false} SortDescStable<T>(s: seq<T>, key: T -> int, v: int)
    ensures FilterKey(SortDesc(s, key), key, v) == FilterKey(s, key, v)
    decreases |s|
  {
    if |s| > 0 {
      var t := SortDesc(s[1..], key);
      SortDescStable(s[1..], key, v);
      if key(s[0]) == v {
        InsertFilterSame(s[0], t, key);
      } else {
        InsertFilterOther(s[0], t, key, v);
      }
    }
  }

  /** When every key is `v`, the class of `v` is the whole sequence. */
  lemma {:induction false} FilterKeyAll<T>(s: seq<T>, key: T -> int, v: int)
    requires forall i :: 0 <= i < |s| ==> key(s[i]) == v
    ensures FilterKey(s, key, v) == s
    decreases |s|
  {
    if |s| > 0 {
      FilterKeyAll(s[1..], key, v);
      assert s == [s[0]] + s[1..];
    }
  }

  /** When every key is the same, the stable sort leaves the sequence as it is. */
  lemma SortDescConstant<T>(s: seq<T>, key: T -> int, v: int)
    requires forall i :: 0 <= i < |s| ==> key(s[i]) == v
    ensures SortDesc(s, key) == s
  {
    var r := SortDesc(s, key);
    forall i | 0 <= i < |r| ensures key(r[i]) == v {
      assert r[i] in multiset(s);
      var k := IndexIn(s, r[i]);
    }
    FilterKeyAll(s, key, v);
    FilterKeyAll(r, key, v);
    SortDescStable(s, key, v);
  }

  /** The largest key of a non-empty sequence. */
  function MaxKey<T>(s: seq<T>, key: T -> int): (m: int)
    requires |s| > 0
    ensures forall i :: 0 <= i < |s| ==> key(s[i]) <= m
    ensures exists i :: 0 <= i < |s| && key(s[i]) == m
  {
    if |s| == 1 then key(s[0])
    else
      var m := MaxKey(s[1..], key);
      assert forall i :: 1 <= i < |s| ==> s[i] == s[1..][i - 1];
      if key(s[0]) >= m then key(s[0]) else m
  }

  lemma {:induction false} FilterKeyNonEmpty<T>(s: seq<T>, key: T -> int, i: int)
    requires 0 <= i < |s|
    ensures |FilterKey(s, key, key(s[i]))| > 0
    decreases |s|
  {
    if i > 0 {
      FilterKeyNonEmpty(s[1..], key, i - 1);
    }
  }

  /** The first element of a non-empty filter is the first element of the class. */
  lemma {:induction false} FilterKeyHead<T>(s: seq<T>, key: T -> int, v: int)
    requires |FilterKey(s, key, v)| > 0
    ensures exists i :: 0 <= i < |s| && s[i] == FilterKey(s, key, v)[0] && key(s[i]) == v
                        && forall j :: 0 <= j < i ==> key(s[j]) != v
    decreases |s|
  {
    if key(s[0]) != v {
      FilterKeyHead(s[1..], key, v);
      var i :| 0 <= i < |s[1..]| && s[1..][i] == FilterKey(s[1..], key, v)[0] && key(s[1..][i]) == v
               && forall j :: 0 <= j < i ==> key(s[1..][j]) != v;
      assert s[i + 1] == s[1..][i];
      assert forall j :: 1 <= j < i + 1 ==> s[j] == s[1..][j - 1];
    }
  }

  /**
   * The head of the descending sort is the first-listed element with the largest key:
   * every key is at most its key and every earlier element has a strictly smaller one.
   */
  lemma SortDescHead<T>(s: seq<T>, key: T -> int) returns (i: int)
    requires |s| > 0
    ensures 0 <= i < |s| && SortDesc(s, key)[0] == s[i]
    ensures forall j :: 0 <= j < |s| ==> key(s[j]) <= key(s[i])
    ensures forall j :: 0 <= j < i ==> key(s[j]) < key(s[i])
  {
    var m := MaxKey(s, key);
    SortDescHeadKey(s, key);
    FilterKeyHeadAtZero(SortDesc(s, key), key, m);
    SortDescStable(s, key, m);
    FilterKeyHead(s, key, m);
    i :| 0 <= i < |s| && s[i] == FilterKey(s, key, m)[0] && key(s[i]) == m
         && forall j :: 0 <= j < i ==> key(s[j]) != m;
    FirstOfMax(s, key, i, m);
  }

  lemma FirstOfMax<T>(s: seq<T>, key: T -> int, i: int, m: int)
    requires 0 <= i < |s| && key(s[i]) == m
    requires forall j :: 0 <= j < |s| ==> key(s[j]) <= m
    requires forall j :: 0 <= j < i ==> key(s[j]) != m
    ensures forall j :: 0 <= j < |s| ==> key(s[j]) <= key(s[i])
    ensures forall j :: 0 <= j < i ==> key(s[j]) < key(s[i])
  {
  }

  /** The head of the descending sort carries the largest key. */
  lemma SortDescHeadKey<T>(s: seq<T>, key: T -> int)
    requires |s| > 0
    ensures key(SortDesc(s, key)[0]) == MaxKey(s, key)
  {
    var r := SortDesc(s, key);
    var m := MaxKey(s, key);
    var k :| 0 <= k < |s| && key(s[k]) == m;
    SortDescHas(s, key, s[k]);
    SortedHeadAtLeast(r, key, s[k]);
    SortDescHas(s, key, r[0]);
    var j := IndexIn(s, r[0]);
    assert key(r[0]) == key(s[j]) <= m;
  }

  lemma SortDescHas<T>(s: seq<T>, key: T -> int, x: T)
    ensures x in SortDesc(s, key) <==> x in s
  {
    SortDescMembers(s, key);
  }

  /** Sorting keeps exactly the elements it was given. */
  lemma SortDescMembers<T>(s: seq<T>, key: T -> int)
    ensures forall x :: x in SortDesc(s, key) <==> x in s
  {
    var r := SortDesc(s, key);
    forall x ensures x in r <==> x in s {
      assert x in r <==> x in multiset(r);
      assert x in s <==> x in multiset(s);
    }
  }

  lemma SortedHeadAtLeast<T>(r: seq<T>, key: T -> int, x: T)
    requires SortedDesc(r, key) && x in r
    ensures key(x) <= key(r[0])
  {
    var q :| 0 <= q < |r| && r[q] == x;
    if q > 0 {
      assert key(r[0]) >= key(r[q]);
    }
  }

  /** A position where a member of `s` sits. */
  lemma IndexIn<T>(s: seq<T>, x: T) returns (k: int)
    requires x in s
    ensures 0 <= k < |s| && s[k] == x
  {
    k :| 0 <= k < |s| && s[k] == x;
  }

  /**
   * In a descending order `r` of `s` whose head is `s[i]`, the second place goes
   * to an element other than the `i`-th whose key is the top among the others.
   */
  lemma SecondOfSorted<T>(s: seq<T>, r: seq<T>, key: T -> int, i: int) returns (j: int)
    requires |s| >= 2 && |r| == |s| && multiset(r) == multiset(s) && SortedDesc(r, key)
    requires 0 <= i < |s| && r[0] == s[i]
    ensures 0 <= j < |s| && j != i && s[j] == r[1]
    ensures forall k :: 0 <= k < |s| && k != i ==> key(s[k]) <= key(r[1])
  {
    var rest := s[..i] + s[i + 1..];
    WithoutOne(s, r, i);
    var tail := r[1..];
    assert r[1] == tail[0];
    assert r[1] in multiset(rest);
    var j' := IndexIn(rest, r[1]);
    j := if j' < i then j' else j' + 1;
    assert s[j] == rest[j'];
    forall k | 0 <= k < |s| && k != i
      ensures key(s[k]) <= key(r[1])
    {
      var k' := if k < i then k else k - 1;
      assert rest[k'] == s[k];
      assert s[k] in multiset(tail);
      var m := IndexIn(tail, s[k]);
      assert r[1 + m] == s[k];
    }
  }

  /** Taking the head off `r` matches taking its copy out of `s`. */
  lemma WithoutOne<T>(s: seq<T>, r: seq<T>, i: int)
    requires |r| > 0 && multiset(r) == multiset(s) && 0 <= i < |s| && r[0] == s[i]
    ensures multiset(r[1..]) == multiset(s[..i] + s[i + 1..])
  {
    var rest := s[..i] + s[i + 1..];
    assert s == s[..i] + ([s[i]] + s[i + 1..]);
    assert multiset(s) == multiset(s[..i]) + multiset{s[i]} + multiset(s[i + 1..]);
    assert multiset(rest) == multiset(s[..i]) + multiset(s[i + 1..]);
    assert r == [r[0]] + r[1..];
    assert multiset(r) == multiset{r[0]} + multiset(r[1..]);
    assert multiset(r[1..]) == multiset(r) - multiset{r[0]};
    assert multiset(rest) == multiset(s) - multiset{s[i]};
  }

  lemma FilterKeyHeadAtZero<T>(r: seq<T>, key: T -> int, v: int)
    requires |r| > 0 && key(r[0]) == v
    ensures |FilterKey(r, key, v)| > 0 && FilterKey(r, key, v)[0] == r[0]
  {
  }

  /** A sequence sorted on a key taking only the values 1 and 0 is its 1-class followed by its 0-class. */
  lemma {:induction false} SortedTwoClasses<T>(r: seq<T>, key: T -> int)
    requires SortedDesc(r, key)
    requires forall i :: 0 <= i < |r| ==> key(r[i]) == 0 || key(r[i]) == 1
    ensures r == FilterKey(r, key, 1) + FilterKey(r, key, 0)
    decreases |r|
  {
    if |r| > 0 {
      SortedTwoClasses(r[1..], key);
      if key(r[0]) == 0 {
        assert forall i :: 1 <= i < |r| ==> key(r[i]) == 0;
        NoneOfClass(r[1..], key, 1);
      }
    }
  }

  lemma {:induction false} NoneOfClass<T>(r: seq<T>, key: T -> int, v: int)
    requires forall i :: 0 <= i < |r| ==> key(r[i]) != v
    ensures FilterKey(r, key, v) == []
    decreases |r|
  {
    if |r| > 0 {
      NoneOfClass(r[1..], key, v);
    }
  }

  function Negate(x: int): int {
    -x
  }

  /** `xs.sort((a, b) => a - b)` on integers. */
  function SortAsc(s: seq<int>): (r: seq<int>)
    ensures |r| == |s|
    ensures multiset(r) == multiset(s)
    ensures forall i, j :: 0 <= i < j < |r| ==> r[i] <= r[j]
  {
    var r := SortDesc(s, Negate);
    assert forall i, j :: 0 <= i < j < |r| ==> Negate(r[i]) >= Negate(r[j]);
    r
  }

  lemma SortAscMembers(s: seq<int>)
    ensures forall x :: x in SortAsc(s) <==> x in s
  {
    SortDescMembers(s, Negate);
  }

  /** An element is kept by `FilterKey` exactly when it is in `s` and has key `v`. */
  lemma {:induction false} FilterKeyMember<T>(s: seq<T>, key: T -> int, v: int, x: T)
    ensures x in FilterKey(s, key, v) <==> x in s && key(x) == v
    decreases |s|
  {
    if |s| > 0 {
      FilterKeyMember(s[1..], key, v, x);
      assert s == [s[0]] + s[1..];
    }
  }

  /** The sum of the keys. */
  function SumOf<T>(s: seq<T>, key: T -> int): int {
    if |s| == 0 then 0 else key(s[0]) + SumOf(s[1..], key)
  }

  lemma {:induction false} SumOfAppend<T>(a: seq<T>, b: seq<T>, key: T -> int)
    ensures SumOf(a + b, key) == SumOf(a, key) + SumOf(b, key)
    decreases |a|
  {
    if |a| == 0 {
      assert a + b == b;
    } else {
      assert (a + b)[1..] == a[1..] + b;
      SumOfAppend(a[1..], b, key);
    }
  }

  /** Taking one element out removes its key from the sum. */
  lemma SumOfRemove<T>(b: seq<T>, k: int, key: T -> int)
    requires 0 <= k < |b|
    ensures SumOf(b, key) == key(b[k]) + SumOf(b[..k] + b[k + 1..], key)
  {
    var l, t := b[..k], b[k + 1..];
    SplitAround(b, k);
    SumOfAppend(l, [b[k]] + t, key);
    SumOfCons(b[k], t, key);
    SumOfAppend(l, t, key);
  }

  lemma SplitAround<T>(b: seq<T>, k: int)
    requires 0 <= k < |b|
    ensures b == b[..k] + ([b[k]] + b[k + 1..])
  {
  }

  lemma SumOfCons<T>(x: T, t: seq<T>, key: T -> int)
    ensures SumOf([x] + t, key) == key(x) + SumOf(t, key)
  {
    assert ([x] + t)[0] == x && ([x] + t)[1..] == t;
  }

  /** Reordering does not change the sum. */
  lemma {:induction false} SumOfPermutation<T>(a: seq<T>, b: seq<T>, key: T -> int)
    requires multiset(a) == multiset(b)
    ensures SumOf(a, key) == SumOf(b, key)
    decreases |a|
  {
    if |a| == 0 {
      assert |b| == |multiset(b)| == 0;
    } else {
      assert a[0] in multiset(b);
      var k :| 0 <= k < |b| && b[k] == a[0];
      var rest := b[..k] + b[k + 1..];
      assert multiset(rest) == multiset(a[1..]) by {
        assert b == b[..k] + [b[k]] + b[k + 1..];
        assert multiset(b) == multiset(b[..k]) + multiset{b[k]} + multiset(b[k + 1..]);
        assert multiset(rest) == multiset(b[..k]) + multiset(b[k + 1..]);
        assert a == [a[0]] + a[1..];
        assert multiset(a) == multiset{a[0]} + multiset(a[1..]);
        forall z ensures multiset(rest)[z] == multiset(a[1..])[z] {
          assert multiset(a)[z] == multiset(b)[z];
        }
      }
      SumOfPermutation(a[1..], rest, key);
      SumOfRemove(b, k, key);
    }
  }
}
