/**
 * Node's POSIX `path` module as far as the site uses it: `resolve`, `join`,
 * `basename`, `extname` and the `name` field of `parse`. A normalised path is
 * a list of segments; an absolute one is rendered with a leading `/`.
 */
module Paths {
  import opened Wrappers
  import opened JsStrings

  /** A segment of a normalised absolute path: not empty, not `.` or `..`, no `/`. */
  predicate IsName(x: string) {
    x != "" && x != "." && x != ".." && '/' !in x
  }

  predicate AllNames(segs: seq<string>) {
    forall i :: 0 <= i < |segs| ==> IsName(segs[i])
  }

  predicate NoSlash(segs: seq<string>) {
    forall i :: 0 <= i < |segs| ==> '/' !in segs[i]
  }

  /**
   * One segment of normalisation: empty segments and `.` vanish, `..` drops
   * the last name (at the root of an absolute path it vanishes, in a
   * relative path with nothing to drop it is kept), anything else is pushed.
   */
  function Step(stack: seq<string>, x: string, absolute: bool): seq<string>
  {
    if x == "" || x == "." then stack
    else if x == ".." then
      if stack != [] && stack[|stack| - 1] != ".." then stack[..|stack| - 1]
      else if absolute then stack
      else stack + [".."]
    else stack + [x]
  }

  function Normalize(stack: seq<string>, segs: seq<string>, absolute: bool): (r: seq<string>)
    requires NoSlash(stack) && NoSlash(segs)
    ensures NoSlash(r)
    ensures absolute && AllNames(stack) ==> AllNames(r)
    decreases |segs|
  {
    if segs == [] then stack
    else Normalize(Step(stack, segs[0], absolute), segs[1..], absolute)
  }

  /** Names pass through normalisation unchanged. */
  lemma {:induction false} NormalizeNames(stack: seq<string>, segs: seq<string>)
    requires AllNames(stack) && AllNames(segs)
    ensures NoSlash(stack) && NoSlash(segs)
    ensures Normalize(stack, segs, true) == stack + segs
    decreases |segs|
  {
    if segs != [] {
      assert Step(stack, segs[0], true) == stack + [segs[0]];
      NormalizeNames(stack + [segs[0]], segs[1..]);
      assert stack + [segs[0]] + segs[1..] == stack + segs;
    }
  }

  lemma SplitNoSlash(p: string)
    ensures NoSlash(Split(p, "/"))
  {
    var parts := Split(p, "/");
    forall i | 0 <= i < |parts| ensures '/' !in parts[i] {
      if '/' in parts[i] {
        var k :| 0 <= k < |parts[i]| && parts[i][k] == '/';
        assert OccursAt(parts[i], "/", k);
        IncludesAt(parts[i], "/", k);
      }
    }
  }

  /** A relative path made of names resolves to those names under the base. */
  lemma ResolveRelativeNames(base: seq<string>, p: string, segs: seq<string>)
    requires AllNames(base) && AllNames(segs)
    requires !StartsWith(p, "/") && Split(p, "/") == segs
    ensures Resolve(base, p) == base + segs
  {
    NormalizeNames(base, segs);
  }

  /** The string form of a normalised absolute path. */
  function Render(segs: seq<string>): string {
    "/" + Join(segs, "/")
  }

  /** The string form of a normalised relative path (`.` when empty). */
  function RenderRelative(segs: seq<string>): string {
    if segs == [] then "." else Join(segs, "/")
  }

  /** `path.resolve(Render(base), p)`: an absolute `p` starts over at the root. */
  function Resolve(base: seq<string>, p: string): (r: seq<string>)
    requires AllNames(base)
    ensures AllNames(r)
  {
    SplitNoSlash(p);
    Normalize(if StartsWith(p, "/") then [] else base, Split(p, "/"), true)
  }

  /** `path.join(Render(base), p)`: `p` is appended even when it starts with `/`. */
  function JoinAbsolute(base: seq<string>, p: string): (r: seq<string>)
    requires AllNames(base)
    ensures AllNames(r)
  {
    SplitNoSlash(p);
    Normalize(base, Split(p, "/"), true)
  }

  /** `path.join(RenderRelative(base), p)` for a relative base made of names. */
  function JoinRelative(base: seq<string>, p: string): (r: seq<string>)
    requires AllNames(base)
    ensures NoSlash(r)
  {
    SplitNoSlash(p);
    Normalize(base, Split(p, "/"), false)
  }

  /** `path.basename` of a normalised path: its last segment, `""` for the root. */
  function Basename(segs: seq<string>): string {
    if segs == [] then "" else segs[|segs| - 1]
  }

  /** The text after the last `/` of a path string (the base name, for a path with no trailing `/`). */
  function BaseOf(p: string): string {
    var parts := Split(p, "/");
    parts[|parts| - 1]
  }

  /** Joining a name or the empty string onto a directory appends the name and nothing else. */
  lemma JoinName(base: seq<string>, x: string)
    requires AllNames(base)
    requires x == "" || IsName(x)
    ensures JoinAbsolute(base, x) == if x == "" then base else base + [x]
    ensures JoinRelative(base, x) == if x == "" then base else base + [x]
  {
    SplitCharNone(x, '/');
    assert Split(x, "/") == [x];
    assert [x][1..] == [];
    assert Normalize(base, [x], true) == Normalize(Step(base, x, true), [], true);
    assert Normalize(base, [x], false) == Normalize(Step(base, x, false), [], false);
  }

  /** A name is rendered as itself. */
  lemma JoinSingleton(x: string)
    ensures Join([x], "/") == x
  {
  }

  /** The rendered form of `a + b` extends that of `a` by `/` and the rendering of `b`. */
  lemma {:induction false} JoinAppend(a: seq<string>, b: seq<string>)
    requires a != [] && b != []
    ensures Join(a + b, "/") == Join(a, "/") + "/" + Join(b, "/")
  {
    if |a| == 1 {
      assert (a + b)[1..] == b;
    } else {
      assert (a + b)[1..] == a[1..] + b;
      JoinAppend(a[1..], b);
    }
  }

  /** A path under a directory renders with the directory's string as prefix. */
  lemma RenderExtends(a: seq<string>, b: seq<string>)
    ensures StartsWith(Render(a + b), Render(a))
  {
    if a == [] {
    } else if b == [] {
      assert a + b == a;
    } else {
      JoinAppend(a, b);
      assert Render(a + b) == Render(a) + "/" + Join(b, "/");
    }
  }

  /** The index of the last `c` in `s`. */
  function LastIndexOf(s: string, c: char): (r: Option<nat>)
    ensures r.Some? ==> r.value < |s| && s[r.value] == c && c !in s[r.value + 1..]
    ensures r.None? ==> c !in s
  {
    if s == [] then None
    else if s[|s| - 1] == c then Some(|s| - 1)
    else
      var r := LastIndexOf(s[..|s| - 1], c);
      assert s == s[..|s| - 1] + [s[|s| - 1]];
      r
  }

  /**
   * Where `path.extname` of a base name starts: at its last dot, unless that
   * dot is the first character (a dot-file) or the name is `..`.
   */
  function ExtStart(b: string): (k: Option<nat>)
    ensures k.Some? ==> 0 < k.value < |b| && b[k.value] == '.'
  {
    match LastIndexOf(b, '.')
    case None => None
    case Some(k) => if k == 0 || b == ".." then None else Some(k)
  }

  /** `path.extname(b)` for a base name `b`. */
  function Extname(b: string): (e: string)
    ensures e == [] || e[0] == '.'
    ensures '.' !in (if e == [] then [] else e[1..])
    ensures e != [] <==> b != ".." && exists k :: 0 < k < |b| && b[k] == '.'
    ensures |e| <= |b| && e == b[|b| - |e|..]
  {
    match ExtStart(b)
    case None =>
      assert forall k :: 0 < k < |b| && b[k] == '.' ==> b == ".." by {
        forall k | 0 < k < |b| && b[k] == '.' ensures b == ".." {
          assert b[k] in b;
          var j := LastIndexOf(b, '.').value;
          assert j >= k;
        }
      }
      ""
    case Some(k) => b[k..]
  }

  /** `path.parse(b).name` for a base name `b`: the name without its extension. */
  function Stem(b: string): string {
    match ExtStart(b)
    case None => b
    case Some(k) => b[..k]
  }

  /** The base name is its stem followed by its extension. */
  lemma StemExt(b: string)
    ensures Stem(b) + Extname(b) == b
  {
  }
}
