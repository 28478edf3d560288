/**
 * The .NET string operations the providers rely on, over `seq<char>`:
 * `Trim`, `StartsWith`, `Split(char)`, `Split(char[], 2)`, `Replace` and
 * `string.IsNullOrWhiteSpace`. Characters are compared by code point; the
 * culture-sensitive `StartsWith(string)` is modelled as such an ordinal test.
 */
module Strings {
  import opened Wrappers

  /** `char.IsWhiteSpace`: U+0009..U+000D, the space separators, U+0085 and the line/paragraph separators. */
  predicate IsWhiteSpace(c: char) {
    ('\t' <= c <= '\r') || c == ' ' || c == '\U{0085}' || c == '\U{00A0}' || c == '\U{1680}'
    || ('\U{2000}' <= c <= '\U{200A}') || c == '\U{2028}' || c == '\U{2029}'
    || c == '\U{202F}' || c == '\U{205F}' || c == '\U{3000}'
  }

  /** `string.IsNullOrWhiteSpace` (a model string is never null). */
  predicate IsNullOrWhiteSpace(s: string) {
    forall i :: 0 <= i < |s| ==> IsWhiteSpace(s[i])
  }

  /** No line terminator: what `File.ReadAllLines` guarantees of every line it returns. */
  predicate IsSingleLine(s: string) {
    '\n' !in s && '\r' !in s
  }

  function TrimStart(s: string): (r: string)
    ensures |r| <= |s|
    ensures r == [] || !IsWhiteSpace(r[0])
  {
    if |s| > 0 && IsWhiteSpace(s[0]) then TrimStart(s[1..]) else s
  }

  /** `TrimStart` drops a prefix, and only white space. */
  lemma {:induction false} TrimStartDropsWhiteSpace(s: string)
    ensures var r := TrimStart(s);
      r == s[|s| - |r|..] && forall i :: 0 <= i < |s| - |r| ==> IsWhiteSpace(s[i])
    decreases |s|
  {
    if |s| > 0 && IsWhiteSpace(s[0]) {
      TrimStartDropsWhiteSpace(s[1..]);
      var r := TrimStart(s);
      forall i | 1 <= i < |s| - |r| ensures IsWhiteSpace(s[i]) {
        assert s[i] == s[1..][i - 1];
      }
    }
  }

  function TrimEnd(s: string): (r: string)
    ensures |r| <= |s|
    ensures r == [] || !IsWhiteSpace(r[|r| - 1])
  {
    if |s| > 0 && IsWhiteSpace(s[|s| - 1]) then TrimEnd(s[..|s| - 1]) else s
  }

  /** `TrimEnd` drops a suffix, and only white space. */
  lemma {:induction false} TrimEndDropsWhiteSpace(s: string)
    ensures var r := TrimEnd(s);
      r == s[..|r|] && forall i :: |r| <= i < |s| ==> IsWhiteSpace(s[i])
    decreases |s|
  {
    if |s| > 0 && IsWhiteSpace(s[|s| - 1]) {
      TrimEndDropsWhiteSpace(s[..|s| - 1]);
      var r := TrimEnd(s);
      forall i | |r| <= i < |s| - 1 ensures IsWhiteSpace(s[i]) {
        assert s[i] == s[..|s| - 1][i];
      }
    }
  }

  /** A string with no white space at either end. */
  predicate IsTrimmed(s: string) {
    s == [] || (!IsWhiteSpace(s[0]) && !IsWhiteSpace(s[|s| - 1]))
  }

  /** `string.Trim()`: `s` with its leading and trailing white space removed. */
  function Trim(s: string): (r: string)
    ensures IsTrimmed(r) && |r| <= |s|
    ensures IsTrimmed(s) ==> r == s
  {
    var t := TrimStart(s);
    TrimEndDropsWhiteSpace(t);
    var r := TrimEnd(t);
    assert r != [] ==> r[0] == t[0];
    r
  }

  lemma TrimIdempotent(s: string)
    ensures Trim(Trim(s)) == Trim(s)
  {
  }

  /** After trimming, "white space only" and "empty" are the same test. */
  lemma TrimmedWhiteSpaceIsEmpty(s: string)
    ensures IsNullOrWhiteSpace(Trim(s)) <==> Trim(s) == []
  {
  }

  /** Trimming never introduces a line terminator. */
  lemma TrimKeepsSingleLine(s: string)
    requires IsSingleLine(s)
    ensures IsSingleLine(Trim(s))
  {
    var w1, w2 := TrimParts(s);
  }

  lemma {:induction false} TrimStartSkips(w: string, rest: string)
    requires IsNullOrWhiteSpace(w)
    requires rest == [] || !IsWhiteSpace(rest[0])
    ensures TrimStart(w + rest) == rest
    decreases |w|
  {
    if w == [] {
      assert w + rest == rest;
    } else {
      assert (w + rest)[1..] == w[1..] + rest;
      TrimStartSkips(w[1..], rest);
    }
  }

  lemma {:induction false} TrimEndSkips(rest: string, w: string)
    requires IsNullOrWhiteSpace(w)
    requires rest == [] || !IsWhiteSpace(rest[|rest| - 1])
    ensures TrimEnd(rest + w) == rest
    decreases |w|
  {
    if w == [] {
      assert rest + w == rest;
    } else {
      assert (rest + w)[..|rest + w| - 1] == rest + w[..|w| - 1];
      TrimEndSkips(rest, w[..|w| - 1]);
    }
  }

  /** `Trim` removes exactly the white space around a trimmed core. */
  lemma TrimUnique(w1: string, m: string, w2: string)
    requires IsNullOrWhiteSpace(w1) && IsNullOrWhiteSpace(w2) && IsTrimmed(m)
    ensures Trim(w1 + m + w2) == m
  {
    if m == [] {
      assert w1 + m + w2 == (w1 + w2) + [];
      TrimStartSkips(w1 + w2, []);
    } else {
      assert w1 + m + w2 == w1 + (m + w2);
      TrimStartSkips(w1, m + w2);
      TrimEndSkips(m, w2);
    }
  }

  /** Every string is its trimmed form surrounded by white space. */
  lemma TrimParts(s: string) returns (w1: string, w2: string)
    ensures s == w1 + Trim(s) + w2
    ensures IsNullOrWhiteSpace(w1) && IsNullOrWhiteSpace(w2)
  {
    var t := TrimStart(s);
    TrimStartDropsWhiteSpace(s);
    w1 := s[..|s| - |t|];
    var r := TrimEnd(t);
    TrimEndDropsWhiteSpace(t);
    w2 := t[|r|..];
    SplitAroundCore(s, t, r, w1, w2);
  }

  lemma SplitAroundCore(s: string, t: string, r: string, w1: string, w2: string)
    requires |t| <= |s| && t == s[|s| - |t|..] && w1 == s[..|s| - |t|]
    requires forall i :: 0 <= i < |s| - |t| ==> IsWhiteSpace(s[i])
    requires |r| <= |t| && r == t[..|r|] && w2 == t[|r|..]
    requires forall i :: |r| <= i < |t| ==> IsWhiteSpace(t[i])
    ensures s == w1 + r + w2
    ensures IsNullOrWhiteSpace(w1) && IsNullOrWhiteSpace(w2)
  {
    assert s == w1 + t;
    assert t == r + w2;
    forall i | 0 <= i < |w2| ensures IsWhiteSpace(w2[i]) {
      assert w2[i] == t[|r| + i];
    }
  }

  lemma WhiteSpaceConcat(a: string, b: string)
    requires IsNullOrWhiteSpace(a) && IsNullOrWhiteSpace(b)
    ensures IsNullOrWhiteSpace(a + b)
  {
    forall i | 0 <= i < |a + b| ensures IsWhiteSpace((a + b)[i]) {
      if i >= |a| {
        assert (a + b)[i] == b[i - |a|];
      }
    }
  }

  lemma Regroup(p: string, q: string, r: string, s: string, t: string)
    ensures p + (q + r + s) + t == (p + q) + r + (s + t)
  {
  }

  /** White space added around a string does not change its trimmed form. */
  lemma TrimIgnoresSurroundingWhiteSpace(w1: string, s: string, w2: string)
    requires IsNullOrWhiteSpace(w1) && IsNullOrWhiteSpace(w2)
    ensures Trim(w1 + s + w2) == Trim(s)
  {
    var a, b := TrimParts(s);
    var t := Trim(s);
    Regroup(w1, a, t, b, w2);
    WhiteSpaceConcat(w1, a);
    WhiteSpaceConcat(b, w2);
    TrimUnique(w1 + a, t, b + w2);
  }

  /** The trimmed line around a '=' splits into the two trimmed sides. */
  lemma TrimAroundSeparator(lead: string, x: string, y: string, trail: string, key: string, tv: string)
    requires IsNullOrWhiteSpace(lead) && IsNullOrWhiteSpace(trail)
    requires '=' !in x && IsTrimmed(x + "=" + y)
    requires Trim(x) == key && Trim(y) == tv
    ensures Trim(lead + (x + "=" + y) + trail) == x + "=" + y
    ensures SplitFirst(x + "=" + y, '=') == [x, y]
  {
    TrimUnique(lead, x + "=" + y, trail);
    assert x + "=" + y == x + ['='] + y;
    SplitFirstOfConcat(x, '=', y);
  }

  /** How `key = a + tv + b` regroups around its '=' into white space and a trimmed middle. */
  lemma BindingShape(key: string, a: string, tv: string, b: string) returns (lead: string, x: string, y: string, trail: string)
    requires IsTrimmed(key) && '=' !in key && IsTrimmed(tv)
    requires IsNullOrWhiteSpace(a) && IsNullOrWhiteSpace(b)
    ensures key + " = " + (a + tv + b) == lead + (x + "=" + y) + trail
    ensures IsNullOrWhiteSpace(lead) && IsNullOrWhiteSpace(trail)
    ensures '=' !in x && IsTrimmed(x + "=" + y)
    ensures (key == [] && x == []) || (key != [] && x == key + " ")
    ensures (tv == [] && y == []) || (tv != [] && y == " " + a + tv)
  {
    if key == [] {
      x, lead := [], " ";
    } else {
      x, lead := key + " ", [];
    }
    if tv == [] {
      y, trail := [], " " + a + b;
      WhiteSpaceConcat(" " + a, b);
      WhiteSpaceConcat(" ", a);
    } else {
      y, trail := " " + a + tv, b;
    }
    KeySide(key, a + tv + b, lead, x);
    ValueSide(a, tv, b, y, trail);
    Regroup(lead, x, "=", y, trail);
    var m := x + "=" + y;
    assert m[0] == (if key == [] then '=' else key[0]);
    assert m[|m| - 1] == (if tv == [] then '=' else tv[|tv| - 1]);
  }

  lemma KeySide(key: string, v: string, lead: string, x: string)
    requires (key == [] && x == [] && lead == " ") || (key != [] && x == key + " " && lead == [])
    ensures key + " = " + v == (lead + x) + "=" + (" " + v)
  {
    assert key + " = " + v == (key + " ") + "=" + (" " + v);
  }

  lemma ValueSide(a: string, tv: string, b: string, y: string, trail: string)
    requires (tv == [] && y == [] && trail == " " + a + b) || (tv != [] && y == " " + a + tv && trail == b)
    ensures " " + (a + tv + b) == y + trail
  {
  }

  /**
   * The text `key = value` as a line writer emits it: trimmed, it still splits at
   * its first '=' into `key` and the trimmed `value`.
   */
  lemma TrimBinding(key: string, value: string)
    requires IsTrimmed(key) && '=' !in key
    ensures '=' in Trim(key + " = " + value)
    ensures |SplitFirst(Trim(key + " = " + value), '=')| == 2
    ensures Trim(SplitFirst(Trim(key + " = " + value), '=')[0]) == key
    ensures Trim(SplitFirst(Trim(key + " = " + value), '=')[1]) == Trim(value)
  {
    var a, b := TrimParts(value);
    var tv := Trim(value);
    var lead, x, y, trail := BindingShape(key, a, tv, b);
    if key != [] {
      TrimUnique([], key, " ");
      assert x == [] + key + " ";
    }
    if tv != [] {
      WhiteSpaceConcat(" ", a);
      TrimUnique(" " + a, tv, []);
      assert y == (" " + a) + tv + [];
    }
    TrimAroundSeparator(lead, x, y, trail, key, tv);
    assert (x + "=" + y)[|x|] == '=';
  }

  /** `s.EndsWith(suffix)`, ordinal. */
  predicate EndsWith(s: string, suffix: string) {
    |suffix| <= |s| && s[|s| - |suffix|..] == suffix
  }

  /**
   * `s.StartsWith(prefix)`, as an ordinal prefix test: `s` is `prefix` followed
   * by something.
   */
  predicate StartsWith(s: string, prefix: string): (r: bool)
    ensures r <==> exists rest :: s == prefix + rest
  {
    assert |prefix| <= |s| && s[..|prefix|] == prefix ==> s == prefix + s[|prefix|..];
    |prefix| <= |s| && s[..|prefix|] == prefix
  }

  /** `s.IndexOf(c)`: the first position of `c`, if any. */
  function IndexOf(s: string, c: char): (r: Option<nat>)
    ensures r.None? <==> c !in s
    ensures r.Some? ==> r.value < |s| && s[r.value] == c && forall j :: 0 <= j < r.value ==> s[j] != c
  {
    if |s| == 0 then None
    else if s[0] == c then Some(0)
    else match IndexOf(s[1..], c)
      case None => None
      case Some(k) =>
        assert forall j :: 1 <= j < k + 1 ==> s[j] == s[1..][j - 1];
        Some(k + 1)
  }

  /** The pieces joined back together with `c` between them. */
  function Join(parts: seq<string>, c: char): string
    requires |parts| >= 1
  {
    if |parts| == 1 then parts[0] else parts[0] + [c] + Join(parts[1..], c)
  }

  /** `s.Split(c)`: every piece between occurrences of `c`, empty pieces included; none holds the separator. */
  function Split(s: string, c: char): (r: seq<string>)
    ensures |r| >= 1
    ensures forall i :: 0 <= i < |r| ==> c !in r[i]
    decreases |s|
  {
    match IndexOf(s, c)
    case None => [s]
    case Some(k) =>
      var rest := Split(s[k + 1..], c);
      assert forall i :: 1 <= i < |rest| + 1 ==> ([s[..k]] + rest)[i] == rest[i - 1];
      [s[..k]] + rest
  }

  /** Joining the pieces with the separator gives back the string. */
  lemma {:induction false} SplitPieces(s: string, c: char)
    ensures Join(Split(s, c), c) == s
    decreases |s|
  {
    match IndexOf(s, c)
    case None =>
    case Some(k) =>
      var rest := s[k + 1..];
      SplitPieces(rest, c);
      JoinCons(s[..k], Split(rest, c), c);
      Around(s, k);
  }

  /** A string is its part before position `k`, the character there, and its part after. */
  lemma Around(s: string, k: nat)
    requires k < |s|
    ensures s == s[..k] + [s[k]] + s[k + 1..]
  {
  }

  lemma JoinCons(a: string, parts: seq<string>, c: char)
    requires |parts| >= 1
    ensures Join([a] + parts, c) == a + [c] + Join(parts, c)
  {
    assert ([a] + parts)[1..] == parts;
  }

  /** The last piece of a join is a suffix of it, preceded by the separator when there are several pieces. */
  lemma {:induction false} JoinLast(parts: seq<string>, c: char)
    requires |parts| >= 1
    ensures var j, last := Join(parts, c), parts[|parts| - 1];
      EndsWith(j, last) && (|parts| > 1 ==> |last| < |j| && j[|j| - |last| - 1] == c)
    decreases |parts|
  {
    if |parts| > 1 {
      var tail := Join(parts[1..], c);
      JoinLast(parts[1..], c);
      var j := Join(parts, c);
      assert j == parts[0] + [c] + tail;
      assert j[|j| - |tail|..] == tail;
      if |parts| == 2 {
        assert tail == parts[1];
      }
    }
  }

  /** A string without the separator splits into itself alone. */
  lemma SplitWithoutSeparator(s: string, c: char)
    requires c !in s
    ensures Split(s, c) == [s]
  {
    assert IndexOf(s, c).None?;
  }

  /** Splitting what `Join` built gives back the pieces. */
  lemma {:induction false} SplitJoin(parts: seq<string>, c: char)
    requires |parts| >= 1
    requires forall i :: 0 <= i < |parts| ==> c !in parts[i]
    ensures Split(Join(parts, c), c) == parts
    decreases |parts|
  {
    if |parts| == 1 {
      SplitWithoutSeparator(parts[0], c);
    } else {
      var head, rest := parts[0], parts[1..];
      assert forall i :: 0 <= i < |rest| ==> c !in rest[i] by {
        forall i | 0 <= i < |rest| ensures c !in rest[i] {
          assert rest[i] == parts[i + 1];
        }
      }
      SplitJoin(rest, c);
      assert parts == [head] + rest;
      JoinCons(head, rest, c);
      SplitJoinStep(head, c, Join(rest, c), rest);
    }
  }

  lemma SplitJoinStep(head: string, c: char, tail: string, rest: seq<string>)
    requires c !in head && Split(tail, c) == rest
    ensures Split(head + [c] + tail, c) == [head] + rest
  {
    SplitCons(head, c, tail);
  }

  /** The first separator of `a + [c] + b` is the one after `a`, when `a` holds none. */
  lemma SplitCons(a: string, c: char, b: string)
    requires c !in a
    ensures Split(a + [c] + b, c) == [a] + Split(b, c)
  {
    var s := a + [c] + b;
    assert s[|a|] == c && s[..|a|] == a;
    assert IndexOf(s, c) == Some(|a|);
    assert s[|a| + 1..] == b;
  }

  /** `s.Split(new[] {c}, 2)`: split at the first `c` only; one piece when there is none. */
  function SplitFirst(s: string, c: char): (r: seq<string>)
    ensures 1 <= |r| <= 2
    ensures |r| == 1 <==> c !in s
    ensures |r| == 1 ==> r[0] == s
    ensures |r| == 2 ==> c !in r[0] && s == r[0] + [c] + r[1]
  {
    match IndexOf(s, c)
    case None => [s]
    case Some(k) =>
      assert s == s[..k] + [c] + s[k + 1..];
      [s[..k], s[k + 1..]]
  }

  /** A split at the first separator is determined by the part before it. */
  lemma SplitFirstOfConcat(a: string, c: char, b: string)
    requires c !in a
    ensures SplitFirst(a + [c] + b, c) == [a, b]
  {
    var s := a + [c] + b;
    assert s[|a|] == c && s[..|a|] == a;
    assert IndexOf(s, c) == Some(|a|);
    assert s[|a| + 1..] == b;
  }

  /**
   * `s.Replace(pattern, replacement)`, ordinal: left-to-right, non-overlapping,
   * every occurrence. Every character of the result comes from `s` or from the
   * replacement.
   */
  function Replace(s: string, pattern: string, replacement: string): (r: string)
    requires |pattern| > 0
    ensures forall ch :: ch in r ==> ch in s || ch in replacement
    decreases |s|
  {
    if |s| < |pattern| then s
    else if s[..|pattern|] == pattern then
      var rest := Replace(s[|pattern|..], pattern, replacement);
      assert forall ch :: ch in s[|pattern|..] ==> ch in s;
      replacement + rest
    else
      var rest := Replace(s[1..], pattern, replacement);
      assert forall ch :: ch in s[1..] ==> ch in s;
      [s[0]] + rest
  }

  /** A string that does not hold the pattern's first character is left unchanged. */
  lemma {:induction false} ReplaceAbsent(s: string, pattern: string, replacement: string)
    requires |pattern| > 0 && pattern[0] !in s
    ensures Replace(s, pattern, replacement) == s
    decreases |s|
  {
    if |s| >= |pattern| {
      assert s[..|pattern|][0] == s[0];
      ReplaceAbsent(s[1..], pattern, replacement);
      assert s == [s[0]] + s[1..];
    }
  }

  /**
   * Replacing `a` by `b` and then `b` by `a` gives back the original, as long as
   * the original does not contain the first character of `b`.
   */
  lemma {:induction false} ReplaceInverse(s: string, a: string, b: string)
    requires |a| > 0 && |b| > 0 && b[0] !in s
    ensures Replace(Replace(s, a, b), b, a) == s
    decreases |s|
  {
    var once := Replace(s, a, b);
    if |s| < |a| {
      ReplaceAbsent(s, b, a);
    } else if s[..|a|] == a {
      var rest := Replace(s[|a|..], a, b);
      assert once == b + rest;
      assert b[0] !in s[|a|..] by {
        forall i | 0 <= i < |s[|a|..]| ensures s[|a|..][i] != b[0] {
          assert s[|a|..][i] == s[|a| + i];
        }
      }
      ReplaceInverse(s[|a|..], a, b);
      assert (b + rest)[..|b|] == b;
      assert (b + rest)[|b|..] == rest;
      assert Replace(once, b, a) == a + Replace(rest, b, a);
      assert s == s[..|a|] + s[|a|..];
    } else {
      var rest := Replace(s[1..], a, b);
      assert once == [s[0]] + rest;
      assert b[0] !in s[1..];
      ReplaceInverse(s[1..], a, b);
      assert s[0] != b[0];
      if |once| >= |b| {
        assert once[..|b|][0] == s[0];
        assert once[1..] == rest;
      }
      assert Replace(once, b, a) == [s[0]] + Replace(rest, b, a);
      assert s == [s[0]] + s[1..];
    }
  }
}
