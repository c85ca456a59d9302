/**
 * The small slice of JavaScript string behaviour the application relies on:
 * ASCII case mapping, `includes`/`indexOf`, `split`/`join` on a one-character
 * separator, decimal rendering and parsing of naturals, `padStart`, and the
 * whitespace set used by `trim`/`trimStart`.
 */
module Strings {
  import opened Wrappers

  /**
   * Regrouping a concatenation: when `z` is `x + y`, a head followed by `z` is the
   * head followed by `x`, then `y`. Stated over names so that proofs about
   * recursive sequence functions can use it without unfolding them.
   */
  lemma ConcatShift<T>(h: seq<T>, x: seq<T>, y: seq<T>, z: seq<T>, whole: seq<T>, left: seq<T>)
    requires z == x + y && whole == h + z && left == h + x
    ensures whole == left + y
  {
  }

  // ---------------------------------------------------------------------------
  // Case mapping (ASCII letters only)
  // ---------------------------------------------------------------------------

  function LowerChar(c: char): char {
    if 'A' <= c <= 'Z' then (c as int + 32) as char else c
  }

  function UpperChar(c: char): char {
    if 'a' <= c <= 'z' then (c as int - 32) as char else c
  }

  function ToLower(s: string): (r: string)
    ensures |r| == |s|
    ensures forall i :: 0 <= i < |s| ==> r[i] == LowerChar(s[i])
  {
    if |s| == 0 then "" else [LowerChar(s[0])] + ToLower(s[1..])
  }

  function ToUpper(s: string): (r: string)
    ensures |r| == |s|
    ensures forall i :: 0 <= i < |s| ==> r[i] == UpperChar(s[i])
  {
    if |s| == 0 then "" else [UpperChar(s[0])] + ToUpper(s[1..])
  }

  lemma ToLowerAppend(a: string, b: string)
    ensures ToLower(a + b) == ToLower(a) + ToLower(b)
  {
    assert ToLower(a + b) == ToLower(a) + ToLower(b);
  }

  // ---------------------------------------------------------------------------
  // Substring search
  // ---------------------------------------------------------------------------

  /** `t` occurs in `s` starting at index `i`. */
  predicate OccursAt(s: string, t: string, i: int) {
    0 <= i && i + |t| <= |s| && s[i..i + |t|] == t
  }

  /** JavaScript's `s.indexOf(t, from)` for `from <= |s|`, as an option. */
  function IndexOf(s: string, t: string, from: nat): (r: Option<nat>)
    ensures r.Some? ==> from <= r.value && OccursAt(s, t, r.value)
    ensures r.Some? ==> forall k :: from <= k < r.value ==> !OccursAt(s, t, k)
    ensures r.None? ==> forall k :: from <= k ==> !OccursAt(s, t, k)
    decreases |s| - from
  {
    if from + |t| > |s| then None
    else if s[from..from + |t|] == t then Some(from)
    else IndexOf(s, t, from + 1)
  }

  /** `indexOf` finds the first occurrence from `from` on. */
  lemma IndexOfAt(s: string, t: string, from: nat, k: int)
    requires from <= k && OccursAt(s, t, k)
    requires forall j :: from <= j < k ==> !OccursAt(s, t, j)
    ensures IndexOf(s, t, from) == Some(k)
  {
    var r := IndexOf(s, t, from);
    assert r.Some?;
    assert !(r.value < k) && !(k < r.value);
  }

  /** JavaScript's `s.includes(t)`. */
  function Includes(s: string, t: string): (b: bool)
    ensures b <==> exists k :: OccursAt(s, t, k)
  {
    var r := IndexOf(s, t, 0);
    if r.Some? then true
    else
      assert forall k :: !OccursAt(s, t, k) by {
        forall k ensures !OccursAt(s, t, k) {
          if 0 <= k { assert !OccursAt(s, t, k); }
        }
      }
      false
  }

  lemma OccursInLeft(a: string, b: string, t: string, k: int)
    requires OccursAt(a, t, k)
    ensures OccursAt(a + b, t, k)
  {
    assert (a + b)[k..k + |t|] == a[k..k + |t|];
  }

  lemma OccursInRight(a: string, b: string, t: string, k: int)
    requires OccursAt(b, t, k)
    ensures OccursAt(a + b, t, |a| + k)
  {
    assert (a + b)[|a| + k..|a| + k + |t|] == b[k..k + |t|];
  }

  // ---------------------------------------------------------------------------
  // Splitting and joining on a one-character separator
  // ---------------------------------------------------------------------------

  /** Index of the first `c` in `s`. */
  function FirstIndexOfChar(s: string, c: char): (r: Option<nat>)
    ensures r.Some? ==> r.value < |s| && s[r.value] == c && c !in s[..r.value]
    ensures r.None? ==> c !in s
  {
    if |s| == 0 then None
    else if s[0] == c then Some(0)
    else
      match FirstIndexOfChar(s[1..], c)
      case None => None
      case Some(i) => assert s[1..][..i] == s[1..i + 1]; Some(i + 1)
  }

  /** JavaScript's `parts.join(sep)`. */
  function Join(parts: seq<string>, sep: string): string {
    if |parts| == 0 then ""
    else if |parts| == 1 then parts[0]
    else parts[0] + sep + Join(parts[1..], sep)
  }

  /** Joining two non-empty lists puts one separator between their joins. */
  lemma {:induction false} JoinConcat(a: seq<string>, b: seq<string>, sep: string)
    requires |a| >= 1 && |b| >= 1
    ensures Join(a + b, sep) == Join(a, sep) + sep + Join(b, sep)
    decreases |a|
  {
    assert (a + b)[1..] == a[1..] + b;
    if |a| > 1 {
      JoinConcat(a[1..], b, sep);
    }
  }

  /** Text found in `a` is found at the same place in `a + b`, and text found in `b` is found shifted. */
  lemma OccursAppend(a: string, b: string, t: string, k: int)
    ensures OccursAt(a, t, k) ==> OccursAt(a + b, t, k)
    ensures OccursAt(b, t, k) ==> OccursAt(a + b, t, k + |a|)
  {
    if OccursAt(a, t, k) {
      assert (a + b)[k..k + |t|] == a[k..k + |t|];
    }
    if OccursAt(b, t, k) {
      assert (a + b)[k + |a|..k + |a| + |t|] == b[k..k + |t|];
    }
  }

  /** Every part occurs in the join, at the returned index. */
  lemma {:induction false} PartOccursInJoin(parts: seq<string>, sep: string, i: int) returns (k: int)
    requires 0 <= i < |parts|
    ensures OccursAt(Join(parts, sep), parts[i], k)
    decreases i
  {
    if |parts| == 1 {
      k := 0;
      assert Join(parts, sep) == parts[0];
    } else {
      var rest := Join(parts[1..], sep);
      assert Join(parts, sep) == parts[0] + sep + rest;
      if i == 0 {
        k := 0;
        OccursAppend(parts[0], sep + rest, parts[0], 0);
        assert parts[0] + (sep + rest) == parts[0] + sep + rest;
      } else {
        var k0 := PartOccursInJoin(parts[1..], sep, i - 1);
        assert parts[1..][i - 1] == parts[i];
        OccursAppend(parts[0] + sep, rest, parts[i], k0);
        k := k0 + |parts[0] + sep|;
      }
    }
  }

  lemma WindowChar(s: string, t: string, k: int, i: int)
    requires OccursAt(s, t, k) && 0 <= i < |t|
    ensures s[k + i] == t[i]
  {
    assert s[k..k + |t|][i] == t[i];
  }

  /** A string that starts with `p` does not start with a `q` that differs from `p` within both. */
  lemma PrefixMismatch(p: string, x: string, q: string, i: nat)
    requires i < |p| && i < |q| && p[i] != q[i]
    ensures !(q <= p + x)
  {
    assert (p + x)[i] == p[i];
  }

  /** A separator-free text found in a join lies inside one of the parts. */
  lemma {:induction false} OccursInJoin(parts: seq<string>, sep: char, t: string, k: int)
    requires sep !in t && |t| > 0
    requires OccursAt(Join(parts, [sep]), t, k)
    ensures exists i, m :: 0 <= i < |parts| && OccursAt(parts[i], t, m)
    decreases |parts|
  {
    if |parts| == 1 {
      assert OccursAt(parts[0], t, k);
    } else {
      var p := parts[0];
      var rest := Join(parts[1..], [sep]);
      var s := Join(parts, [sep]);
      assert s == p + [sep] + rest;
      if k + |t| <= |p| {
        assert s[k..k + |t|] == p[k..k + |t|];
        assert OccursAt(parts[0], t, k);
      } else if k > |p| {
        assert s[k..k + |t|] == rest[k - |p| - 1..k - |p| - 1 + |t|];
        OccursInJoin(parts[1..], sep, t, k - |p| - 1);
        var i, m :| 0 <= i < |parts[1..]| && OccursAt(parts[1..][i], t, m);
        assert OccursAt(parts[i + 1], t, m);
      } else {
        WindowChar(s, t, k, |p| - k);
        assert false;
      }
    }
  }

  /** JavaScript's `s.split(sep)` for a one-character separator: never empty. */
  function Split(s: string, sep: char): (parts: seq<string>)
    ensures |parts| >= 1
    ensures forall i :: 0 <= i < |parts| ==> sep !in parts[i]
    ensures Join(parts, [sep]) == s
    decreases |s|
  {
    match FirstIndexOfChar(s, sep)
    case None => [s]
    case Some(i) =>
      var rest := Split(s[i + 1..], sep);
      assert s == s[..i] + [sep] + s[i + 1..];
      [s[..i]] + rest
  }

  /** The first piece of `s.split(sep)`: everything before the first `sep`. */
  function Before(s: string, sep: char): (r: string)
    ensures sep !in r
    ensures r <= s
    ensures |r| < |s| ==> s[|r|] == sep
  {
    match FirstIndexOfChar(s, sep)
    case None => s
    case Some(i) => s[..i]
  }

  lemma SplitHeadIsBefore(s: string, sep: char)
    ensures Split(s, sep)[0] == Before(s, sep)
  {
  }

  /** Splitting a join of separator-free pieces gives the pieces back. */
  lemma {:induction false} SplitJoin(parts: seq<string>, sep: char)
    requires |parts| >= 1
    requires forall i :: 0 <= i < |parts| ==> sep !in parts[i]
    ensures Split(Join(parts, [sep]), sep) == parts
    decreases |parts|
  {
    if |parts| == 1 {
      assert FirstIndexOfChar(parts[0], sep).None?;
    } else {
      var rest := Join(parts[1..], [sep]);
      var s := parts[0] + [sep] + rest;
      assert Join(parts, [sep]) == s;
      FirstCharAfterFree(parts[0], sep, rest);
      assert s[|parts[0]| + 1..] == rest;
      assert s[..|parts[0]|] == parts[0];
      SplitJoin(parts[1..], sep);
    }
  }

  lemma {:induction false} FirstCharAfterFree(a: string, sep: char, b: string)
    requires sep !in a
    ensures FirstIndexOfChar(a + [sep] + b, sep) == Some(|a|)
    decreases |a|
  {
    var s := a + [sep] + b;
    if |a| > 0 {
      assert s[1..] == a[1..] + [sep] + b;
      FirstCharAfterFree(a[1..], sep, b);
    }
  }

  /** Replace every `sep` of `s` by `with`, character by character. */
  function ReplaceChar(s: string, sep: char, with: string): string {
    if |s| == 0 then ""
    else (if s[0] == sep then with else [s[0]]) + ReplaceChar(s[1..], sep, with)
  }

  /** `s.split(c).join(w)` replaces every occurrence of `c` by `w`. */
  lemma {:induction false} SplitJoinIsReplace(s: string, sep: char, with: string)
    ensures Join(Split(s, sep), with) == ReplaceChar(s, sep, with)
    decreases |s|
  {
    match FirstIndexOfChar(s, sep)
    case None =>
      ReplaceFree(s, sep, with);
    case Some(i) =>
      var rest := s[i + 1..];
      assert s == s[..i] + [sep] + rest;
      SplitJoinIsReplace(rest, sep, with);
      ReplaceFree(s[..i], sep, with);
      ReplaceAppend(s[..i] + [sep], rest, sep, with);
      ReplaceAppend(s[..i], [sep], sep, with);
      assert ReplaceChar([sep], sep, with) == with;
      assert Split(s, sep) == [s[..i]] + Split(rest, sep);
  }

  /** Once replaced, no separator is left, as long as the replacement holds none. */
  lemma {:induction false} ReplaceNoSep(s: string, sep: char, with: string)
    requires sep !in with
    ensures sep !in ReplaceChar(s, sep, with)
    decreases |s|
  {
    if |s| > 0 {
      ReplaceNoSep(s[1..], sep, with);
    }
  }

  lemma {:induction false} ReplaceFree(s: string, sep: char, with: string)
    requires sep !in s
    ensures ReplaceChar(s, sep, with) == s
    decreases |s|
  {
    if |s| > 0 {
      ReplaceFree(s[1..], sep, with);
    }
  }

  lemma {:induction false} ReplaceAppend(a: string, b: string, sep: char, with: string)
    ensures ReplaceChar(a + b, sep, with) == ReplaceChar(a, sep, with) + ReplaceChar(b, sep, with)
    decreases |a|
  {
    if |a| > 0 {
      assert (a + b)[1..] == a[1..] + b;
      ReplaceAppend(a[1..], b, sep, with);
    } else {
      assert a + b == b;
    }
  }

  // ---------------------------------------------------------------------------
  // Decimal digits
  // ---------------------------------------------------------------------------

  predicate IsDigit(c: char) {
    '0' <= c <= '9'
  }

  predicate AllDigits(s: string) {
    forall i :: 0 <= i < |s| ==> IsDigit(s[i])
  }

  function DigitValue(c: char): nat
    requires IsDigit(c)
  {
    c as int - '0' as int
  }

  function DigitChar(d: nat): (c: char)
    requires d < 10
    ensures IsDigit(c) && DigitValue(c) == d
  {
    ('0' as int + d) as char
  }

  /** The value of a string of decimal digits (`parseInt(s, 10)` on digits). */
  function DigitsValue(s: string): nat
    requires AllDigits(s)
  {
    if |s| == 0 then 0 else DigitsValue(s[..|s| - 1]) * 10 + DigitValue(s[|s| - 1])
  }

  /** `String(n)` for a natural number. */
  function NatToString(n: nat): (s: string)
    ensures |s| >= 1 && AllDigits(s)
    ensures '-' !in s && ',' !in s
  {
    if n < 10 then [DigitChar(n)] else NatToString(n / 10) + [DigitChar(n % 10)]
  }

  /** `String(i)` for an integer. */
  function IntToString(i: int): string {
    if i < 0 then "-" + NatToString(-i) else NatToString(i)
  }

  /** Rendering a natural in decimal and reading it back is the identity. */
  lemma {:induction false} NatToStringRoundTrip(n: nat)
    ensures DigitsValue(NatToString(n)) == n
  {
    if n >= 10 {
      NatToStringRoundTrip(n / 10);
      var s := NatToString(n);
      assert s[..|s| - 1] == NatToString(n / 10);
    }
  }

  lemma DigitsValueAppend(a: string, b: string)
    requires AllDigits(a) && AllDigits(b) && |b| == 1
    ensures AllDigits(a + b)
    ensures DigitsValue(a + b) == DigitsValue(a) * 10 + DigitValue(b[0])
  {
    assert (a + b)[..|a + b| - 1] == a;
  }

  /** The end of the run of decimal digits that starts at `i`. */
  function DigitRunEnd(s: string, i: nat): (e: nat)
    requires i <= |s|
    ensures i <= e <= |s| && AllDigits(s[i..e])
    ensures e == |s| || !IsDigit(s[e])
    decreases |s| - i
  {
    if i < |s| && IsDigit(s[i]) then DigitRunEnd(s, i + 1) else i
  }

  /** A digit run followed by a non-digit (or the end) is the run `DigitRunEnd` finds. */
  lemma {:induction false} DigitRunEndIs(s: string, i: nat, j: nat)
    requires i <= j <= |s| && AllDigits(s[i..j])
    requires j == |s| || !IsDigit(s[j])
    ensures DigitRunEnd(s, i) == j
    decreases j - i
  {
    if i < j {
      assert IsDigit(s[i..j][0]);
      assert s[i + 1..j] == s[i..j][1..];
      DigitRunEndIs(s, i + 1, j);
    }
  }

  function Pow10(k: nat): (p: nat)
    ensures p >= 1
  {
    if k == 0 then 1 else 10 * Pow10(k - 1)
  }

  /** A natural below 10^k has at most k digits. */
  lemma {:induction false} NatToStringShort(n: nat, k: nat)
    requires 1 <= k && n < Pow10(k)
    ensures |NatToString(n)| <= k
  {
    if n >= 10 {
      assert k >= 2;
      assert n / 10 < Pow10(k - 1);
      NatToStringShort(n / 10, k - 1);
    }
  }

  /** A natural at least 10^(k-1) has at least k digits. */
  lemma {:induction false} NatToStringLong(n: nat, k: nat)
    requires 1 <= k && n >= Pow10(k - 1)
    ensures |NatToString(n)| >= k
  {
    if k >= 2 {
      assert Pow10(k - 1) == 10 * Pow10(k - 2);
      assert n / 10 >= Pow10(k - 2);
      NatToStringLong(n / 10, k - 1);
    }
  }

  /** A digit string of length k is worth less than 10^k. */
  lemma {:induction false} DigitsValueBound(s: string)
    requires AllDigits(s)
    ensures DigitsValue(s) < Pow10(|s|)
  {
    if |s| > 0 {
      var p := s[..|s| - 1];
      DigitsValueBound(p);
      assert DigitsValue(s) == DigitsValue(p) * 10 + DigitValue(s[|s| - 1]);
      assert DigitsValue(p) <= Pow10(|p|) - 1;
      assert DigitsValue(p) * 10 <= Pow10(|p|) * 10 - 10;
    }
  }

  /** `String(n).padStart(width, '0')` for `n < 10^width` is exactly `width` digits worth `n`. */
  lemma PaddedDigits(n: nat, width: nat)
    requires 1 <= width && n < Pow10(width)
    ensures |PadStart(NatToString(n), width, '0')| == width
    ensures AllDigits(PadStart(NatToString(n), width, '0'))
    ensures DigitsValue(PadStart(NatToString(n), width, '0')) == n
  {
    NatToStringShort(n, width);
    PadStartRoundTrip(n, width);
  }

  /** `s.padStart(n, c)`. */
  function PadStart(s: string, n: nat, c: char): (r: string)
    ensures |r| == if |s| >= n then |s| else n
    ensures s <= r[|r| - |s|..] && r[|r| - |s|..] == s
    ensures forall i :: 0 <= i < |r| - |s| ==> r[i] == c
  {
    if |s| >= n then s else seq(n - |s|, _ => c) + s
  }

  /** Leading zeros do not change a digit string's value. */
  lemma {:induction false} LeadingZeros(k: nat, s: string)
    requires AllDigits(s)
    ensures AllDigits(seq(k, _ => '0') + s)
    ensures DigitsValue(seq(k, _ => '0') + s) == DigitsValue(s)
    decreases |s|
  {
    var z := seq(k, _ => '0');
    if |s| == 0 {
      assert z + s == z;
      ZerosValue(k);
    } else {
      assert (z + s)[..|z + s| - 1] == z + s[..|s| - 1];
      LeadingZeros(k, s[..|s| - 1]);
    }
  }

  lemma {:induction false} ZerosValue(k: nat)
    ensures AllDigits(seq(k, _ => '0'))
    ensures DigitsValue(seq(k, _ => '0')) == 0
  {
    if k > 0 {
      var z := seq(k, _ => '0');
      assert z[..k - 1] == seq(k - 1, _ => '0');
      ZerosValue(k - 1);
    }
  }

  /** A zero-padded natural reads back as the natural. */
  lemma PadStartRoundTrip(n: nat, width: nat)
    ensures AllDigits(PadStart(NatToString(n), width, '0'))
    ensures DigitsValue(PadStart(NatToString(n), width, '0')) == n
    ensures '-' !in PadStart(NatToString(n), width, '0')
  {
    var s := NatToString(n);
    var p := PadStart(s, width, '0');
    NatToStringRoundTrip(n);
    if |s| < width {
      LeadingZeros(width - |s|, s);
      assert p == seq(width - |s|, _ => '0') + s;
    } else {
      assert p == s;
    }
    DigitsHaveNoDash(p);
  }

  lemma DigitsHaveNoDash(s: string)
    requires AllDigits(s)
    ensures '-' !in s
  {
  }

  /**
   * `parseInt(s)` with no radix: leading whitespace, an optional sign, then the
   * leading decimal digits; no digits reads as nothing (`NaN`).
   */
  function ParseInt(s: string): Option<int> {
    var t := TrimStart(s);
    var neg := |t| > 0 && t[0] == '-';
    var u := if |t| > 0 && (t[0] == '-' || t[0] == '+') then t[1..] else t;
    match LeadingDigits(u)
    case None => None
    case Some(v) => var n: int := v; Some(if neg then -n else n)
  }

  /**
   * The unsigned part of `parseInt`: the value of the leading decimal digits,
   * nothing without one; a `0x` prefix switches to hexadecimal, which the
   * application never relies on, so it reads as nothing here.
   */
  function LeadingDigits(u: string): Option<nat> {
    if |u| >= 2 && u[0] == '0' && (u[1] == 'x' || u[1] == 'X') then None
    else
      var e := DigitRunEnd(u, 0);
      if e == 0 then None else Some(DigitsValue(u[..e]))
  }

  /** A plain string of digits reads as its decimal value. */
  lemma ParseIntDigits(s: string)
    requires |s| > 0 && AllDigits(s)
    ensures ParseInt(s) == Some(DigitsValue(s))
  {
    assert IsDigit(s[0]);
    TrimStartNoLead(s);
    LeadingDigitsAll(s);
  }

  lemma LeadingDigitsAll(s: string)
    requires |s| > 0 && AllDigits(s)
    ensures LeadingDigits(s) == Some(DigitsValue(s))
  {
    DigitRunEndIs(s, 0, |s|);
    assert s[..|s|] == s;
    assert |s| >= 2 ==> s[1] != 'x' && s[1] != 'X' by {
      if |s| >= 2 { assert IsDigit(s[1]); }
    }
  }

  /** A natural written the way `String(n)` writes it reads back as `n`. */
  lemma ParseIntOfNat(n: nat)
    ensures ParseInt(NatToString(n)) == Some(n)
  {
    ParseIntDigits(NatToString(n));
    NatToStringRoundTrip(n);
  }

  // ---------------------------------------------------------------------------
  // Whitespace, as JavaScript's `trim` understands it
  // ---------------------------------------------------------------------------

  /** ECMAScript WhiteSpace and LineTerminator code points. */
  predicate IsWhitespace(c: char) {
    || '\U{0009}' <= c <= '\U{000D}' || c == ' ' || c == '\U{00A0}' || c == '\U{1680}'
    || '\U{2000}' <= c <= '\U{200A}' || c == '\U{2028}' || c == '\U{2029}' || c == '\U{202F}'
    || c == '\U{205F}' || c == '\U{3000}' || c == '\U{FEFF}'
  }

  /** `s.trimStart()`. */
  function TrimStart(s: string): (r: string)
    ensures |r| <= |s| && r == s[|s| - |r|..]
    ensures forall i :: 0 <= i < |s| - |r| ==> IsWhitespace(s[i])
    ensures |r| > 0 ==> !IsWhitespace(r[0])
  {
    if |s| > 0 && IsWhitespace(s[0]) then TrimStart(s[1..]) else s
  }

  /** A string that does not start with whitespace is its own `trimStart`. */
  lemma TrimStartNoLead(s: string)
    requires |s| > 0 ==> !IsWhitespace(s[0])
    ensures TrimStart(s) == s
  {
  }

  /** `s.trimEnd()`. */
  function TrimEnd(s: string): (r: string)
    ensures |r| <= |s| && r == s[..|r|]
    ensures forall i :: |r| <= i < |s| ==> IsWhitespace(s[i])
    ensures |r| > 0 ==> !IsWhitespace(r[|r| - 1])
  {
    if |s| > 0 && IsWhitespace(s[|s| - 1]) then TrimEnd(s[..|s| - 1]) else s
  }

  /** `s.trim()`. */
  function Trim(s: string): string {
    TrimEnd(TrimStart(s))
  }

  /** A string with no whitespace at either end is its own `trim()`. */
  lemma TrimNoSpace(s: string)
    requires |s| > 0 ==> !IsWhitespace(s[0]) && !IsWhitespace(s[|s| - 1])
    ensures Trim(s) == s
  {
  }

  /** `s.trim() === ''`. */
  predicate IsBlank(s: string) {
    forall i :: 0 <= i < |s| ==> IsWhitespace(s[i])
  }

  // ---------------------------------------------------------------------------
  // Ordering
  // ---------------------------------------------------------------------------

  /** Code-unit lexicographic order (`a <= b` on strings, SQLite's binary collation). */
  predicate LexLe(a: string, b: string)
    decreases |a|
  {
    if |a| == 0 then true
    else if |b| == 0 then false
    else if a[0] != b[0] then a[0] < b[0]
    else LexLe(a[1..], b[1..])
  }

  lemma {:induction false} LexLeTotal(a: string, b: string)
    ensures LexLe(a, b) || LexLe(b, a)
    decreases |a|
  {
    if |a| > 0 && |b| > 0 && a[0] == b[0] {
      LexLeTotal(a[1..], b[1..]);
    }
  }

  lemma {:induction false} LexLeTrans(a: string, b: string, c: string)
    requires LexLe(a, b) && LexLe(b, c)
    ensures LexLe(a, c)
    decreases |a|
  {
    if |a| > 0 && |b| > 0 && |c| > 0 && a[0] == b[0] && b[0] == c[0] {
      LexLeTrans(a[1..], b[1..], c[1..]);
    }
  }

  lemma {:induction false} LexLeAntisym(a: string, b: string)
    requires LexLe(a, b) && LexLe(b, a)
    ensures a == b
    decreases |a|
  {
    if |a| > 0 && |b| > 0 {
      LexLeAntisym(a[1..], b[1..]);
      assert a == [a[0]] + a[1..];
      assert b == [b[0]] + b[1..];
    }
  }
}
