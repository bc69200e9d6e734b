/**
 * The JavaScript string primitives the site relies on: `startsWith`,
 * `indexOf`, `includes`, `substring`, `split`, `replace` and
 * `toLowerCase`, over `seq<char>`.
 */
module JsStrings {
  import opened Wrappers

  /** `s.startsWith(p)` */
  predicate StartsWith(s: string, p: string) {
    |p| <= |s| && s[..|p|] == p
  }

  /** `p` occurs in `s` beginning at index `i`. */
  predicate OccursAt(s: string, p: string, i: nat) {
    i + |p| <= |s| && s[i..i + |p|] == p
  }

  /** The first index at or after `k` where `p` occurs in `s`. */
  function IndexFrom(s: string, p: string, k: nat): (r: Option<nat>)
    ensures r.Some? ==> k <= r.value && OccursAt(s, p, r.value)
    ensures r.Some? ==> forall j: nat :: k <= j < r.value ==> !OccursAt(s, p, j)
    ensures r.None? ==> forall j: nat :: k <= j ==> !OccursAt(s, p, j)
    decreases |s| - k
  {
    if k + |p| > |s| then None
    else if OccursAt(s, p, k) then Some(k)
    else IndexFrom(s, p, k + 1)
  }

  /** `s.indexOf(p)`, with `None` standing for -1: the first occurrence of `p`. */
  function IndexOf(s: string, p: string): (r: Option<nat>)
    ensures r.Some? ==> OccursAt(s, p, r.value)
    ensures r.Some? ==> forall j: nat :: j < r.value ==> !OccursAt(s, p, j)
    ensures r.None? ==> forall j: nat :: !OccursAt(s, p, j)
  {
    IndexFrom(s, p, 0)
  }

  /** `s.includes(p)` */
  predicate Includes(s: string, p: string) {
    IndexOf(s, p).Some?
  }

  lemma IncludesAt(s: string, p: string, i: nat)
    requires OccursAt(s, p, i)
    ensures Includes(s, p)
  {
  }

  /** `s.substring(a, b)` for non-negative arguments: both are clamped to the length and swapped when out of order. */
  function Substring(s: string, a: nat, b: nat): (r: string)
    ensures a <= b <= |s| ==> r == s[a..b]
    ensures |r| <= |s|
  {
    var lo := if a < b then a else b;
    var hi := if a < b then b else a;
    var lo' := if lo < |s| then lo else |s|;
    var hi' := if hi < |s| then hi else |s|;
    s[lo'..hi']
  }

  /** `parts.join(sep)` */
  function Join(parts: seq<string>, sep: string): string
  {
    if parts == [] then ""
    else if |parts| == 1 then parts[0]
    else parts[0] + sep + Join(parts[1..], sep)
  }

  /**
   * `s.split(sep)` for a non-empty separator: cut at every occurrence found
   * scanning left to right. Joining the pieces gives `s` back, and no piece
   * holds the separator.
   */
  function Split(s: string, sep: string): (parts: seq<string>)
    requires |sep| > 0
    ensures |parts| >= 1
    ensures Join(parts, sep) == s
    ensures forall i :: 0 <= i < |parts| ==> !Includes(parts[i], sep)
    ensures |parts| == 1 <==> !Includes(s, sep)
    ensures |parts| > 1 ==> IndexOf(s, sep) == Some(|parts[0]|)
    decreases |s|
  {
    match IndexOf(s, sep)
    case None => [s]
    case Some(i) =>
      var head := s[..i];
      NotIncludedBefore(s, sep, i);
      var rest := Split(s[i + |sep|..], sep);
      SplitStep(s, sep, i, rest);
      [head] + rest
  }

  /** A prefix ending before the first occurrence of `p` holds no occurrence of it. */
  lemma NotIncludedBefore(s: string, p: string, i: nat)
    requires |p| > 0 && i <= |s|
    requires forall j: nat :: j < i ==> !OccursAt(s, p, j)
    ensures !Includes(s[..i], p)
  {
    forall j: nat | OccursAt(s[..i], p, j) ensures OccursAt(s, p, j) {
      assert s[j..j + |p|] == s[..i][j..j + |p|];
    }
  }

  /** One cut of `Split`: the piece before the first occurrence, then the pieces of what follows it. */
  lemma SplitStep(s: string, sep: string, i: nat, rest: seq<string>)
    requires |sep| > 0 && IndexOf(s, sep) == Some(i) && !Includes(s[..i], sep)
    requires |rest| >= 1 && Join(rest, sep) == s[i + |sep|..]
    requires forall k :: 0 <= k < |rest| ==> !Includes(rest[k], sep)
    ensures var parts := [s[..i]] + rest;
      && |parts| > 1 && parts[0] == s[..i]
      && Join(parts, sep) == s
      && forall k :: 0 <= k < |parts| ==> !Includes(parts[k], sep)
  {
    var parts := [s[..i]] + rest;
    assert parts[1..] == rest;
    assert Join(parts, sep) == s[..i] + sep + Join(rest, sep);
    assert s[..i] + sep + s[i + |sep|..] == s by {
      assert s[i..i + |sep|] == sep;
      ThreeParts(s, i, i + |sep|);
    }
    forall k | 0 <= k < |parts| ensures !Includes(parts[k], sep) {
      if k > 0 {
        assert parts[k] == rest[k - 1];
      }
    }
  }

  lemma ThreeParts(s: string, i: nat, j: nat)
    requires i <= j <= |s|
    ensures s[..i] + s[i..j] + s[j..] == s
  {
  }

  /** A string made of `a`, one separator and `b` splits into exactly `[a, b]` when neither side can produce an earlier cut. */
  lemma SplitSingleChar(a: string, c: char, b: string)
    requires c !in a && c !in b
    ensures Split(a + [c] + b, [c]) == [a, b]
  {
    var s := a + [c] + b;
    assert OccursAt(s, [c], |a|);
    forall j: nat | j < |a| ensures !OccursAt(s, [c], j) {
      assert s[j] == a[j];
    }
    assert IndexOf(s, [c]) == Some(|a|);
    assert s[|a| + 1..] == b;
  }

  /** Splitting at a character that occurs first at the end of `a` cuts off `a` and continues with the rest. */
  lemma SplitCharCons(a: string, c: char, rest: string)
    requires c !in a
    ensures Split(a + [c] + rest, [c]) == [a] + Split(rest, [c])
  {
    var s := a + [c] + rest;
    assert OccursAt(s, [c], |a|);
    forall j: nat | j < |a| ensures !OccursAt(s, [c], j) {
      assert s[j] == a[j];
    }
    assert IndexOf(s, [c]) == Some(|a|);
    assert s[|a| + 1..] == rest;
  }

  /** A string without the character splits into itself alone. */
  lemma SplitCharNone(a: string, c: char)
    requires c !in a
    ensures Split(a, [c]) == [a]
  {
  }

  /**
   * When the separator occurs in `a + sep + b` first right after `a`,
   * the split cuts off `a` there and goes on with `b`.
   */
  lemma SplitCons(a: string, sep: string, b: string)
    requires |sep| > 0
    requires forall j :: 0 <= j < |a| ==> !OccursAt(a + sep + b, sep, j)
    ensures Split(a + sep + b, sep) == [a] + Split(b, sep)
  {
    var s := a + sep + b;
    assert s[|a|..|a| + |sep|] == sep;
    assert OccursAt(s, sep, |a|);
    assert IndexOf(s, sep) == Some(|a|);
    assert s[|a| + |sep|..] == b;
  }

  /** A string made of `a`, the separator and a `b` without it splits into exactly `[a, b]` when no cut comes earlier. */
  lemma SplitAtFirst(a: string, sep: string, b: string)
    requires |sep| > 0 && !Includes(b, sep)
    requires forall j :: 0 <= j < |a| ==> !OccursAt(a + sep + b, sep, j)
    ensures Split(a + sep + b, sep) == [a, b]
  {
    SplitCons(a, sep, b);
  }

  /** `s.replace(p, q)` with a string pattern: only the first occurrence is replaced. */
  function Replace(s: string, p: string, q: string): string {
    match IndexOf(s, p)
    case None => s
    case Some(i) => s[..i] + q + s[i + |p|..]
  }

  function LowerChar(c: char): char {
    if 'A' <= c <= 'Z' then (c as int + 32) as char else c
  }

  /** `s.toLowerCase()` restricted to the ASCII letters. */
  function AsciiLower(s: string): string {
    seq(|s|, i requires 0 <= i < |s| => LowerChar(s[i]))
  }
}
