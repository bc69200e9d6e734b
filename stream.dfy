/**
 * The range-aware audio stream endpoint: `GET /api/stream?file=<path>`.
 * `Get` resolves the requested path under the backend directory (with a
 * fallback into `content/2_recordings`), and `ServeFile` answers 200, 206 or
 * 416 from the `Range` header, after the byte-range rules of RFC 7233
 * (section 2.1 byte ranges, section 4.2 Content-Range, section 4.4 status
 * 416) with the handler's own deviations kept.
 *
 * The file system is a map from absolute path strings to file sizes; the
 * backend directory (`path.resolve("..", "zfk-backend")`, which depends on
 * the working directory) is a parameter given as its segments.
 */
module Stream {
  import opened Wrappers
  import opened JsStrings
  import opened Decimal
  import opened Paths

  /** What the response carries: nothing, an error message, the whole file, or the bytes `first..last` (inclusive) of a file. */
  datatype Body = NoBody | Message(text: string) | WholeFile(path: string) | ByteSlice(path: string, first: int, last: int)

  /** The response headers the handler sets; `None` for a header it leaves out. */
  datatype Headers = Headers(
    contentType: Option<string>,
    contentLength: Option<string>,
    contentRange: Option<string>,
    acceptRanges: Option<string>)

  const NoHeaders := Headers(None, None, None, None)

  datatype Response = Response(status: nat, headers: Headers, body: Body)

  /** The two shapes of a `Content-Range` value: `bytes first-last/complete`, and `bytes ` with an asterisk in place of the interval. */
  datatype ContentRange = Satisfied(first: nat, last: nat, complete: nat) | Unsatisfied(complete: nat)

  /** The captures of `/bytes=(\d+)-(\d+)?/`: the start digits and, when present, the end digits. */
  datatype RangeMatch = RangeMatch(start: string, end: Option<string>)

  predicate IsNumeral(s: string) {
    |s| >= 1 && AllDigits(s)
  }

  /** Splits off a non-empty run of digits that `c` follows: the digits, and the text after `c`. */
  function NumeralThen(t: string, c: char): (r: Option<(string, string)>)
    ensures r.Some? ==> IsNumeral(r.value.0) && r.value.0 == DigitPrefix(t)
    ensures r.Some? ==> t == r.value.0 + [c] + r.value.1
    ensures r.None? && !IsDigit(c) ==> forall k :: 0 < k < |t| && AllDigits(t[..k]) ==> t[k] != c
  {
    var d := DigitPrefix(t);
    if d == [] || |d| == |t| || t[|d|] != c then
      assert !IsDigit(c) ==> forall k :: 0 < k < |t| && AllDigits(t[..k]) ==> t[k] != c by {
        forall k | 0 < k < |t| && AllDigits(t[..k]) && !IsDigit(c) ensures t[k] != c {
          if !IsDigit(t[k]) {
            DigitPrefixEndsAt(t, k);
          }
        }
      }
      None
    else
      assert t == d + [c] + t[|d| + 1..] by {
        assert t == t[..|d|] + [t[|d|]] + t[|d| + 1..];
      }
      Some((d, t[|d| + 1..]))
  }

  lemma NumeralThenNat(n: nat, c: char, rest: string)
    requires !IsDigit(c)
    ensures NumeralThen(NatToString(n) + [c] + rest, c) == Some((NatToString(n), rest))
  {
    var t := NatToString(n) + [c] + rest;
    assert t == NatToString(n) + ([c] + rest);
    ParseNumeralPrefix(n, [c] + rest);
    assert t[|NatToString(n)|] == c;
    assert t[|NatToString(n)| + 1..] == rest;
  }

  /** The regular expression tried at the beginning of `h`: `bytes=`, digits, `-`, and greedily any digits that follow. */
  function MatchAt(h: string): (m: Option<RangeMatch>)
    ensures m.Some? ==> IsNumeral(m.value.start)
    ensures m.Some? && m.value.end.Some? ==> IsNumeral(m.value.end.value)
    ensures m.Some? ==>
      var n := 7 + |m.value.start| + |m.value.end.GetOr("")|;
      && n <= |h| && h[..n] == "bytes=" + m.value.start + "-" + m.value.end.GetOr("")
      && (n == |h| || !IsDigit(h[n]))
    ensures m.None? ==> forall k :: 6 < k < |h| && StartsWith(h, "bytes=") && AllDigits(h[6..k]) ==> h[k] != '-'
  {
    if !StartsWith(h, "bytes=") then None
    else
      match NumeralThen(h[6..], '-')
      case None =>
        NoNumeralThenDash(h);
        None
      case Some((s, t)) =>
        var e := DigitPrefix(t);
        MatchAtText(h, s, t, e);
        Some(RangeMatch(s, if e == [] then None else Some(e)))
  }

  lemma NoNumeralThenDash(h: string)
    requires StartsWith(h, "bytes=") && NumeralThen(h[6..], '-').None?
    ensures forall k :: 6 < k < |h| && AllDigits(h[6..k]) ==> h[k] != '-'
  {
    var t := h[6..];
    forall k | 6 < k < |h| && AllDigits(h[6..k]) ensures h[k] != '-' {
      assert t[..k - 6] == h[6..k];
      assert t[k - 6] == h[k];
    }
  }

  lemma MatchAtText(h: string, s: string, t: string, e: string)
    requires |h| >= 6 && h[..6] == "bytes=" && h[6..] == s + "-" + t
    requires |e| <= |t| && e == t[..|e|] && (|e| == |t| || !IsDigit(t[|e|]))
    ensures var n := 7 + |s| + |e|;
      && n <= |h| && h[..n] == "bytes=" + s + "-" + e
      && (n == |h| || !IsDigit(h[n]))
  {
    var u := t[|e|..];
    var p := "bytes=" + s + "-" + e;
    assert h == p + u by {
      assert h == h[..6] + h[6..];
      assert t == e + u;
      Regroup("bytes=", s, e, u);
    }
    assert u == [] || !IsDigit(u[0]) by {
      assert |u| > 0 ==> u[0] == t[|e|];
    }
    PrefixAndNext(p, u);
  }

  lemma PrefixAndNext(p: string, u: string)
    ensures (p + u)[..|p|] == p
    ensures |u| > 0 ==> (p + u)[|p|] == u[0]
  {
  }

  /** The first position at or after `k` where the expression matches. */
  function FirstMatchFrom(h: string, k: nat): (i: Option<nat>)
    requires k <= |h|
    ensures i.Some? ==> k <= i.value <= |h| && MatchAt(h[i.value..]).Some?
    ensures i.Some? ==> forall j :: k <= j < i.value ==> MatchAt(h[j..]).None?
    ensures i.None? ==> forall j :: k <= j <= |h| ==> MatchAt(h[j..]).None?
    decreases |h| - k
  {
    if MatchAt(h[k..]).Some? then Some(k)
    else if k == |h| then None
    else
      var i := FirstMatchFrom(h, k + 1);
      NoMatchBefore(h, k, if i.Some? then i.value else |h| + 1);
      i
  }

  /** No match at `k` extends a match-free stretch starting at `k + 1` down to `k`. */
  lemma NoMatchBefore(h: string, k: nat, i: nat)
    requires k < |h| && MatchAt(h[k..]).None?
    requires forall j :: k + 1 <= j < i && j <= |h| ==> MatchAt(h[j..]).None?
    ensures forall j :: k <= j < i && j <= |h| ==> MatchAt(h[j..]).None?
  {
  }

  /** `h.match(/bytes=(\d+)-(\d+)?/)`: the leftmost match, `None` for `null`. */
  function MatchRange(h: string): (m: Option<RangeMatch>)
    ensures m.Some? ==> exists i :: 0 <= i <= |h| && MatchAt(h[i..]) == m && forall j :: 0 <= j < i ==> MatchAt(h[j..]).None?
    ensures m.None? ==> forall j :: 0 <= j <= |h| ==> MatchAt(h[j..]).None?
  {
    match FirstMatchFrom(h, 0)
    case None => None
    case Some(i) => MatchAt(h[i..])
  }

  /** The `Content-Range` header value for a range. */
  function FormatContentRange(c: ContentRange): string {
    match c
    case Satisfied(a, b, n) => "bytes " + NatToString(a) + "-" + NatToString(b) + "/" + NatToString(n)
    case Unsatisfied(n) => "bytes */" + NatToString(n)
  }

  /** What a client reads back from a `Content-Range` header value. */
  function ParseContentRange(v: string): Option<ContentRange> {
    if StartsWith(v, "bytes */") then
      var n := v[8..];
      if IsNumeral(n) then Some(Unsatisfied(DigitsValue(n))) else None
    else if !StartsWith(v, "bytes ") then None
    else
      match NumeralThen(v[6..], '-')
      case None => None
      case Some((a, t)) =>
        match NumeralThen(t, '/')
        case None => None
        case Some((b, n)) =>
          if IsNumeral(n) then Some(Satisfied(DigitsValue(a), DigitsValue(b), DigitsValue(n))) else None
  }

  lemma ParseSatisfied(a: nat, b: nat, n: nat)
    ensures ParseContentRange(FormatContentRange(Satisfied(a, b, n))) == Some(Satisfied(a, b, n))
  {
    var sa, sb, sn := NatToString(a), NatToString(b), NatToString(n);
    var v := FormatContentRange(Satisfied(a, b, n));
    var t := sa + ['-'] + (sb + ['/'] + sn);
    assert v == "bytes " + t;
    assert v[6] == sa[0];
    assert !StartsWith(v, "bytes */");
    assert StartsWith(v, "bytes ");
    assert v[6..] == t;
    NumeralThenNat(a, '-', sb + ['/'] + sn);
    NumeralThenNat(b, '/', sn);
  }

  lemma ParseUnsatisfied(n: nat)
    ensures ParseContentRange(FormatContentRange(Unsatisfied(n))) == Some(Unsatisfied(n))
  {
    var v := FormatContentRange(Unsatisfied(n));
    assert v == "bytes */" + NatToString(n);
    assert v[8..] == NatToString(n);
  }

  /** A client recovers the interval and the size from the `Content-Range` value the server writes. */
  lemma ContentRangeRoundTrip(c: ContentRange)
    ensures ParseContentRange(FormatContentRange(c)) == Some(c)
  {
    match c
    case Unsatisfied(n) => ParseUnsatisfied(n);
    case Satisfied(a, b, n) => ParseSatisfied(a, b, n);
  }

  const AudioMpeg := "audio/mpeg"

  /** The 206 answer for the inclusive interval `start..end` of a file of `size` bytes. */
  function Partial(path: string, size: nat, start: nat, end: nat): Response {
    Response(206,
      Headers(Some(AudioMpeg), Some(IntToString(end - start + 1)),
        Some(FormatContentRange(Satisfied(start, end, size))), Some("bytes")),
      ByteSlice(path, start, end))
  }

  /** The 416 answer: only `Content-Range` with an asterisk for the interval, and no body. */
  function Unsatisfiable(size: nat): Response {
    Response(416, NoHeaders.(contentRange := Some(FormatContentRange(Unsatisfied(size)))), NoBody)
  }

  /**
   * The framework's answer when the handler throws an error it did not
   * raise itself: 500 with its generic message.
   */
  const InternalError := Response(500, NoHeaders, Message("Internal Error"))

  /**
   * `serveFile`: no (or an empty) `Range` header gives the whole file with
   * 200. Otherwise the first match of the expression decides: no match, a
   * start at or past the size, or an end at or past the size give 416. A
   * start after the end makes `createReadStream` throw, so the request
   * fails with 500. Anything else gives 206 with the inclusive interval
   * start..end, where a missing end means the last byte.
   */
  function ServeFile(path: string, size: nat, range: Option<string>): (r: Response)
    ensures r.status in {200, 206, 416, 500}
    ensures r.status == 200 <==> range.None? || range.value == ""
    ensures r.status == 416 ==> r == Unsatisfiable(size)
    ensures r.status == 500 ==> r == InternalError
    ensures range.Some? && range.value != "" && MatchRange(range.value).None? ==> r == Unsatisfiable(size)
    ensures r.status == 200 || r.status == 206 ==>
      r.headers.acceptRanges == Some("bytes") && r.headers.contentType == Some("audio/mpeg")
    ensures r.status == 206 ==>
      && r.body.ByteSlice? && r.body.path == path
      && 0 <= r.body.first <= r.body.last < size
      && r == Partial(path, size, r.body.first, r.body.last)
  {
    if range.None? || range.value == "" then
      Response(200, Headers(Some(AudioMpeg), Some(NatToString(size)), None, Some("bytes")), WholeFile(path))
    else
      match MatchRange(range.value)
      case None => Unsatisfiable(size)
      case Some(m) =>
        var start := DigitsValue(m.start);
        var end: int := if m.end.Some? then DigitsValue(m.end.value) else size - 1;
        if start >= size || end >= size then Unsatisfiable(size)
        else if start > end then InternalError
        else Partial(path, size, start, end)
  }

  /** The `Range` header a client sends for `bytes=a-b`, or `bytes=a-` when the end is left open. */
  function RangeHeader(a: nat, b: Option<nat>): string {
    "bytes=" + NatToString(a) + "-" + (if b.Some? then NatToString(b.value) else "")
  }

  /** When the expression matches at the very start, that is the match `match` returns. */
  lemma MatchAtStart(h: string)
    requires MatchAt(h).Some?
    ensures MatchRange(h) == MatchAt(h)
  {
    assert h[0..] == h;
  }

  lemma MatchAtParts(h: string, sa: string, tail: string)
    requires |h| >= 6 && h[..6] == "bytes="
    requires NumeralThen(h[6..], '-') == Some((sa, tail))
    ensures MatchAt(h) == Some(RangeMatch(sa, var e := DigitPrefix(tail); if e == [] then None else Some(e)))
  {
  }

  lemma MatchWellFormed(a: nat, b: Option<nat>, rest: string)
    requires rest == [] || !IsDigit(rest[0])
    ensures MatchRange(RangeHeader(a, b) + rest)
         == Some(RangeMatch(NatToString(a), if b.Some? then Some(NatToString(b.value)) else None))
  {
    var sa := NatToString(a);
    var h := RangeHeader(a, b) + rest;
    var m := RangeMatch(sa, if b.Some? then Some(NatToString(b.value)) else None);
    assert MatchAt(h) == Some(m) by {
      var bs := if b.Some? then NatToString(b.value) else "";
      var tail := bs + rest;
      var r := sa + ['-'] + tail;
      assert RangeHeader(a, b) == "bytes=" + sa + "-" + bs;
      Regroup("bytes=", sa, bs, rest);
      assert h[..6] == "bytes=";
      assert h[6..] == r;
      NumeralThenNat(a, '-', tail);
      MatchAtParts(h, sa, tail);
      if b.Some? {
        ParseNumeralPrefix(b.value, rest);
      } else {
        assert tail == rest;
      }
    }
    MatchAtStart(h);
  }

  lemma Regroup(p: string, s: string, e: string, rest: string)
    ensures p + s + "-" + e + rest == p + (s + ['-'] + (e + rest))
    ensures p + s + "-" + (e + rest) == (p + s + "-" + e) + rest
  {
  }

  /** With no `Range` header the whole file is served with 200, its size as `Content-Length`, and `Accept-Ranges: bytes`. */
  lemma WholeFileWithoutRange(path: string, size: nat)
    ensures var r := ServeFile(path, size, None);
      r.status == 200 && r.body == WholeFile(path)
      && ParseInt(r.headers.contentLength.GetOr("")) == Some(size)
      && r.headers.acceptRanges == Some("bytes")
  {
    ParseIntToString(size);
  }

  /** How `ServeFile` answers a non-empty header once the expression has matched. */
  lemma ServeMatched(path: string, size: nat, h: string, m: RangeMatch)
    requires h != "" && MatchRange(h) == Some(m)
    ensures var start := DigitsValue(m.start);
      var end: int := if m.end.Some? then DigitsValue(m.end.value) else size - 1;
      ServeFile(path, size, Some(h)) ==
        if start >= size || end >= size then Unsatisfiable(size)
        else if start > end then InternalError
        else Partial(path, size, start, end)
  {
  }

  /**
   * A well-formed `bytes=a-b` (or `bytes=a-`) request with an end at or
   * past the size (or a start at or past it): 416, no body, and the
   * unsatisfied form of `Content-Range`.
   */
  lemma ServeUnsatisfiedRange(path: string, size: nat, a: nat, b: Option<nat>, rest: string)
    requires rest == [] || !IsDigit(rest[0])
    requires a >= size || (b.Some? && b.value >= size)
    ensures ServeFile(path, size, Some(RangeHeader(a, b) + rest)).status == 416
    ensures ServeFile(path, size, Some(RangeHeader(a, b) + rest)).body == NoBody
    ensures ParseContentRange(ServeFile(path, size, Some(RangeHeader(a, b) + rest)).headers.contentRange.GetOr(""))
      == Some(Unsatisfied(size))
  {
    WellFormedServes(path, size, a, b, rest);
    ContentRangeRoundTrip(Unsatisfied(size));
  }

  /**
   * Which answer a well-formed `bytes=a-b` (or `bytes=a-`) request gets,
   * followed by anything that does not extend the end digits: the interval
   * a..b (b defaulting to size - 1) when both ends lie below the size and
   * a <= b; 500 when both lie below the size but b < a; else 416. Only the
   * first range of a list counts.
   */
  lemma WellFormedServes(path: string, size: nat, a: nat, b: Option<nat>, rest: string)
    requires rest == [] || !IsDigit(rest[0])
    ensures var last: int := if b.Some? then b.value else size - 1;
      ServeFile(path, size, Some(RangeHeader(a, b) + rest))
        == if a < size && last < size then (if a <= last then Partial(path, size, a, last) else InternalError)
           else Unsatisfiable(size)
  {
    MatchWellFormed(a, b, rest);
    var h := RangeHeader(a, b) + rest;
    assert h != "";
    var m := RangeMatch(NatToString(a), if b.Some? then Some(NatToString(b.value)) else None);
    ServeMatched(path, size, h, m);
    assert DigitsValue(m.start) == a;
    var last: int := if b.Some? then b.value else size - 1;
    assert (if m.end.Some? then DigitsValue(m.end.value) else size - 1) == last;
  }

  /**
   * The 206 answer for a..b: status 206, the bytes a..b, `Content-Length`
   * reading back as b - a + 1 and `Content-Range` as `bytes a-b/size`.
   */
  lemma PartialReadsBack(path: string, size: nat, a: nat, last: nat)
    ensures Partial(path, size, a, last).status == 206
    ensures Partial(path, size, a, last).body == ByteSlice(path, a, last)
    ensures ParseInt(Partial(path, size, a, last).headers.contentLength.GetOr("")) == Some(last - a + 1)
    ensures ParseContentRange(Partial(path, size, a, last).headers.contentRange.GetOr("")) == Some(Satisfied(a, last, size))
  {
    ParseIntToString(last - a + 1);
    ContentRangeRoundTrip(Satisfied(a, last, size));
  }

  /** `bytes=0-` on a file of N > 0 bytes gets the 206 answer for the whole interval 0..N-1. */
  lemma OpenRangeFromZero(path: string, size: nat)
    requires size > 0
    ensures RangeHeader(0, None) == "bytes=0-"
    ensures ServeFile(path, size, Some("bytes=0-")) == Partial(path, size, 0, size - 1)
  {
    RangeHeaderOpenZero();
    assert RangeHeader(0, None) + [] == RangeHeader(0, None);
    WellFormedServes(path, size, 0, None, []);
  }

  lemma RangeHeaderOpenZero()
    ensures RangeHeader(0, None) == "bytes=0-"
  {
    assert NatToString(0) == "0";
  }

  /** An end at or past the size is refused with 416, not clamped to the last byte as section 2.1 of RFC 7233 asks. */
  lemma EndPastSizeRefused(path: string, size: nat, a: nat, b: nat)
    requires a < size <= b
    ensures ServeFile(path, size, Some(RangeHeader(a, Some(b)))).status == 416
  {
    assert RangeHeader(a, Some(b)) + [] == RangeHeader(a, Some(b));
    ServeUnsatisfiedRange(path, size, a, Some(b), []);
  }

  /** A start after the end, both inside the file, makes the request fail with 500 instead of 416. */
  lemma StartAfterEndFails(path: string, size: nat, a: nat, b: nat)
    requires b < a < size
    ensures ServeFile(path, size, Some(RangeHeader(a, Some(b)))) == InternalError
  {
    assert RangeHeader(a, Some(b)) + [] == RangeHeader(a, Some(b));
    WellFormedServes(path, size, a, Some(b), []);
  }

  /** A header without `b` has no match of the expression. */
  lemma NoMatchWithoutB(h: string)
    requires 'b' !in h
    ensures MatchAt(h).None?
  {
    assert |h| >= 6 ==> h[..6][0] == h[0] && h[0] in h;
  }

  lemma {:induction false} NoMatchAnywhereWithoutB(h: string)
    requires 'b' !in h
    ensures MatchRange(h).None?
  {
    forall j | 0 <= j <= |h| ensures MatchAt(h[j..]).None? {
      assert 'b' !in h[j..];
      NoMatchWithoutB(h[j..]);
    }
  }

  /** A suffix range `bytes=-n` (the last n bytes, section 2.1 of RFC 7233) is not recognised and gets 416. */
  lemma SuffixRangeRefused(path: string, size: nat, n: nat)
    ensures ServeFile(path, size, Some("bytes=-" + NatToString(n))).status == 416
  {
    var h := "bytes=-" + NatToString(n);
    SuffixRangeNoMatchAtStart(n);
    SuffixRangeRestHasNoB(n);
    var t := h[1..];
    forall j | 0 <= j <= |h| ensures MatchAt(h[j..]).None? {
      if j > 0 {
        assert h[j..] == t[j - 1..];
        assert 'b' !in t[j - 1..];
        NoMatchWithoutB(t[j - 1..]);
      }
    }
  }

  /** `bytes=-n` has no digit right after `bytes=`, so no match at its start. */
  lemma SuffixRangeNoMatchAtStart(n: nat)
    ensures MatchAt(("bytes=-" + NatToString(n))[0..]).None?
  {
    var h := "bytes=-" + NatToString(n);
    assert h[0..] == h;
    assert h[6..][0] == '-';
    assert DigitPrefix(h[6..]) == [];
  }

  /** After its first character, `bytes=-n` holds no `b`. */
  lemma SuffixRangeRestHasNoB(n: nat)
    ensures 'b' !in ("bytes=-" + NatToString(n))[1..]
  {
    var h := "bytes=-" + NatToString(n);
    var t := h[1..];
    forall k | 0 <= k < |t| ensures t[k] != 'b' {
      if k >= 6 {
        assert t[k] == NatToString(n)[k - 6];
      }
    }
  }

  /** Where the CMS keeps the recordings' source files, relative to the backend directory. */
  const RecordingsDir: string := "content/2_recordings"

  /** The directory of the fallback lookup: `path.resolve(backend, "content/2_recordings")`. */
  function ContentDir(root: seq<string>): (d: seq<string>)
    requires AllNames(root)
    ensures AllNames(d)
  {
    Resolve(root, RecordingsDir)
  }

  /** The relative directory name splits into its two segments. */
  lemma RecordingsDirSegments()
    ensures !StartsWith(RecordingsDir, "/")
    ensures Split(RecordingsDir, "/") == ["content", "2_recordings"]
  {
    assert RecordingsDir == "content" + ['/'] + "2_recordings";
    RecordingsNamesHaveNoSlash();
    SplitSingleChar("content", '/', "2_recordings");
  }

  lemma RecordingsNamesHaveNoSlash()
    ensures '/' !in "content" && '/' !in "2_recordings"
    ensures IsName("content") && IsName("2_recordings")
  {
    var a, b := "content", "2_recordings";
    forall i | 0 <= i < |b| ensures b[i] != '/' {
    }
    assert forall i :: 0 <= i < |a| ==> a[i] != '/';
  }

  lemma ContentDirUnderRoot(root: seq<string>)
    requires AllNames(root)
    ensures ContentDir(root) == root + ["content", "2_recordings"]
  {
    RecordingsDirSegments();
    RecordingsNamesHaveNoSlash();
    var segs := ["content", "2_recordings"];
    assert AllNames(segs) by {
      assert segs[0] == "content" && segs[1] == "2_recordings";
    }
    ResolveRelativeNames(root, RecordingsDir, segs);
  }

  /** `path.join(contentDir, path.basename(requested))`. */
  function FallbackPath(root: seq<string>, requested: seq<string>): (f: seq<string>)
    requires AllNames(root) && AllNames(requested)
    ensures AllNames(f)
  {
    JoinAbsolute(ContentDir(root), Basename(requested))
  }

  /**
   * The fallback candidate takes nothing from the request but its last
   * segment: it is `content/2_recordings` under the backend directory,
   * followed by that one name (nothing at all for the root).
   */
  lemma FallbackUnderContentDir(root: seq<string>, requested: seq<string>)
    requires AllNames(root) && AllNames(requested)
    ensures FallbackPath(root, requested)
      == root + ["content", "2_recordings"] + (if requested == [] then [] else [requested[|requested| - 1]])
    ensures StartsWith(Render(FallbackPath(root, requested)), Render(root))
  {
    var tail: seq<string> := if requested == [] then [] else [requested[|requested| - 1]];
    var segs := ["content", "2_recordings"];
    FallbackAppendsName(root, requested);
    ContentDirUnderRoot(root);
    Regroup3(root, segs, tail);
    RenderExtends(root, segs + tail);
  }

  lemma Regroup3(a: seq<string>, b: seq<string>, c: seq<string>)
    ensures a + b + c == a + (b + c)
  {
  }

  /** The fallback is the content directory with the request's last segment appended. */
  lemma FallbackAppendsName(root: seq<string>, requested: seq<string>)
    requires AllNames(root) && AllNames(requested)
    ensures FallbackPath(root, requested)
      == ContentDir(root) + (if requested == [] then [] else [requested[|requested| - 1]])
  {
    JoinName(ContentDir(root), Basename(requested));
  }

  /** The containment test of the handler: the resolved path's string starts with the backend directory's string. */
  predicate StringContained(root: seq<string>, requested: seq<string>) {
    StartsWith(Render(requested), Render(root))
  }

  /**
   * The last step of `GET`: the requested file if it exists, else the
   * fallback if that exists, else 404.
   */
  function ServeExisting(primary: string, fallback: string, range: Option<string>, files: map<string, nat>): (r: Response)
    ensures primary in files ==> r == ServeFile(primary, files[primary], range)
    ensures primary !in files && fallback in files ==> r == ServeFile(fallback, files[fallback], range)
    ensures r.status == 404 <==> primary !in files && fallback !in files
    ensures r.status != 400 && r.status != 403
    ensures r.body.WholeFile? || r.body.ByteSlice? ==>
      && r.body.path in files
      && (r.body.path == primary || (primary !in files && r.body.path == fallback))
      && r == ServeFile(r.body.path, files[r.body.path], range)
  {
    if primary in files then ServeFile(primary, files[primary], range)
    else if fallback in files then ServeFile(fallback, files[fallback], range)
    else Response(404, NoHeaders, Message("File not found"))
  }

  /**
   * `GET`: a missing or empty `file` parameter gives 400; a resolved path
   * failing the containment test gives 403, whether or not it exists; an
   * existing path is served; otherwise the fallback is served if it exists,
   * and 404 follows.
   */
  function Get(file: Option<string>, range: Option<string>, root: seq<string>, files: map<string, nat>): (r: Response)
    requires AllNames(root)
    ensures r.status == 400 <==> file.None? || file.value == ""
    ensures r.status == 403 <==> file.Some? && file.value != "" && !StringContained(root, Resolve(root, file.value))
    ensures file.Some? && file.value != "" && StringContained(root, Resolve(root, file.value)) ==>
      var primary := Render(Resolve(root, file.value));
      var fallback := Render(FallbackPath(root, Resolve(root, file.value)));
      && (primary in files ==> r == ServeFile(primary, files[primary], range))
      && (primary !in files && fallback in files ==> r == ServeFile(fallback, files[fallback], range))
      && (r.status == 404 <==> primary !in files && fallback !in files)
    ensures r.body.WholeFile? || r.body.ByteSlice? ==>
      file.Some? &&
      var primary := Render(Resolve(root, file.value));
      var fallback := Render(FallbackPath(root, Resolve(root, file.value)));
      && StringContained(root, Resolve(root, file.value))
      && r.body.path in files
      && (r.body.path == primary || (primary !in files && r.body.path == fallback))
      && r == ServeFile(r.body.path, files[r.body.path], range)
  {
    if file.None? || file.value == "" then Response(400, NoHeaders, Message("Missing file parameter"))
    else
      var requested := Resolve(root, file.value);
      var requestedPath := Render(requested);
      if !StartsWith(requestedPath, Render(root)) then Response(403, NoHeaders, Message("Forbidden"))
      else ServeExisting(requestedPath, Render(FallbackPath(root, requested)), range, files)
  }

  /*
   * The containment test above compares strings, not path segments, so a
   * sibling of the backend directory whose name extends the backend
   * directory's name passes it.
   */

  /** `..` out of a non-empty directory of names, then two names. */
  lemma SiblingResolves(parent: seq<string>, dir: string, sibling: string, f: string)
    requires AllNames(parent) && IsName(dir) && IsName(sibling) && IsName(f)
    ensures Resolve(parent + [dir], "../" + sibling + "/" + f) == parent + [sibling, f]
  {
    var p := "../" + sibling + "/" + f;
    SiblingPathSegments(sibling, f);
    assert p[0] == '.';
    var root := parent + [dir];
    assert root[..|root| - 1] == parent;
    assert Step(root, "..", true) == parent;
    assert Normalize(root, ["..", sibling, f], true) == Normalize(parent, [sibling, f], true);
    NormalizeNames(parent, [sibling, f]);
  }

  lemma SiblingPathSegments(sibling: string, f: string)
    requires IsName(sibling) && IsName(f)
    ensures Split("../" + sibling + "/" + f, "/") == ["..", sibling, f]
  {
    var p := "../" + sibling + "/" + f;
    assert p == ".." + ['/'] + (sibling + ['/'] + f);
    SplitCharCons("..", '/', sibling + ['/'] + f);
    SplitCharCons(sibling, '/', f);
    SplitCharNone(f, '/');
  }

  /** The sibling's rendering starts with the directory's rendering. */
  lemma SiblingPassesStringTest(parent: seq<string>, dir: string, suffix: string, f: string)
    ensures StringContained(parent + [dir], parent + [dir + suffix, f])
  {
    var tail := dir + suffix + "/" + f;
    assert Join([dir + suffix, f], "/") == tail;
    if parent == [] {
      assert Render([dir + suffix, f]) == "/" + dir + (suffix + "/" + f);
    } else {
      JoinAppend(parent, [dir]);
      JoinAppend(parent, [dir + suffix, f]);
      assert Render(parent + [dir + suffix, f]) == Render(parent + [dir]) + (suffix + "/" + f);
    }
  }

  /**
   * As written, `GET` serves a file from a sibling directory: with the
   * backend directory `parent/dir` and the request `../<dir><suffix>/f`,
   * the file `parent/<dir><suffix>/f` is served if it exists, although it
   * is not inside the backend directory.
   */
  lemma SiblingDirectoryServed(parent: seq<string>, dir: string, suffix: string, f: string,
                               range: Option<string>, files: map<string, nat>)
    requires AllNames(parent) && IsName(dir) && IsName(dir + suffix) && IsName(f) && suffix != ""
    requires Render(parent + [dir + suffix, f]) in files
    ensures var escaped := parent + [dir + suffix, f];
      && !Confined(parent + [dir], escaped)
      && Get(Some("../" + (dir + suffix) + "/" + f), range, parent + [dir], files)
         == ServeFile(Render(escaped), files[Render(escaped)], range)
  {
    var root := parent + [dir];
    var escaped := parent + [dir + suffix, f];
    var file := "../" + (dir + suffix) + "/" + f;
    SiblingResolves(parent, dir, dir + suffix, f);
    assert Resolve(root, file) == escaped;
    SiblingPassesStringTest(parent, dir, suffix, f);
    SiblingNotConfined(parent, dir, suffix, f);
  }

  /** The sibling's file is not inside the directory, segment by segment. */
  lemma SiblingNotConfined(parent: seq<string>, dir: string, suffix: string, f: string)
    requires suffix != ""
    ensures !Confined(parent + [dir], parent + [dir + suffix, f])
  {
    var escaped := parent + [dir + suffix, f];
    assert escaped[|parent|] == dir + suffix;
    assert |dir + suffix| > |dir|;
  }

  /** Segment-wise containment: the requested path lies in the directory or below it. */
  predicate Confined(root: seq<string>, requested: seq<string>) {
    |root| <= |requested| && requested[..|root|] == root
  }

  /** Segment-wise containment is stricter than the string test. */
  lemma ConfinedIsStringContained(root: seq<string>, requested: seq<string>)
    requires Confined(root, requested)
    ensures StringContained(root, requested)
  {
    assert requested == root + requested[|root|..];
    RenderExtends(root, requested[|root|..]);
  }

  /** The fallback candidate is always inside the backend directory. */
  lemma FallbackConfined(root: seq<string>, requested: seq<string>)
    requires AllNames(root) && AllNames(requested)
    ensures Confined(root, FallbackPath(root, requested))
  {
    FallbackUnderContentDir(root, requested);
  }

  /**
   * `GET` with the containment test done on segments. Everything it serves
   * lies inside the backend directory.
   */
  function GetConfined(file: Option<string>, range: Option<string>, root: seq<string>, files: map<string, nat>): (r: Response)
    requires AllNames(root)
    ensures r.status == 400 <==> file.None? || file.value == ""
    ensures r.status == 403 <==> file.Some? && file.value != "" && !Confined(root, Resolve(root, file.value))
    ensures file.Some? && file.value != "" && Confined(root, Resolve(root, file.value)) ==>
      var primary := Render(Resolve(root, file.value));
      var fallback := Render(FallbackPath(root, Resolve(root, file.value)));
      && (primary in files ==> r == ServeFile(primary, files[primary], range))
      && (primary !in files && fallback in files ==> r == ServeFile(fallback, files[fallback], range))
      && (r.status == 404 <==> primary !in files && fallback !in files)
    ensures r.body.WholeFile? || r.body.ByteSlice? ==>
      file.Some? &&
      var requested := Resolve(root, file.value);
      && r.body.path in files
      && ((Confined(root, requested) && r.body.path == Render(requested))
          || (Confined(root, FallbackPath(root, requested)) && r.body.path == Render(FallbackPath(root, requested))))
      && r == ServeFile(r.body.path, files[r.body.path], range)
  {
    if file.None? || file.value == "" then Response(400, NoHeaders, Message("Missing file parameter"))
    else
      var requested := Resolve(root, file.value);
      if !Confined(root, requested) then Response(403, NoHeaders, Message("Forbidden"))
      else
        FallbackConfined(root, requested);
        ServeExisting(Render(requested), Render(FallbackPath(root, requested)), range, files)
  }

  /** The corrected handler answers exactly as `GET` does, except that it refuses what lies outside on segments. */
  lemma GetConfinedNarrowsGet(file: Option<string>, range: Option<string>, root: seq<string>, files: map<string, nat>)
    requires AllNames(root)
    ensures file.Some? && file.value != "" && !Confined(root, Resolve(root, file.value)) ==>
      GetConfined(file, range, root, files) == Response(403, NoHeaders, Message("Forbidden"))
    ensures file.None? || file.value == "" || Confined(root, Resolve(root, file.value)) ==>
      GetConfined(file, range, root, files) == Get(file, range, root, files)
  {
    if file.Some? && file.value != "" && Confined(root, Resolve(root, file.value)) {
      var requested := Resolve(root, file.value);
      ConfinedIsStringContained(root, requested);
      var served := ServeExisting(Render(requested), Render(FallbackPath(root, requested)), range, files);
      assert Get(file, range, root, files) == served;
      assert GetConfined(file, range, root, files) == served;
    }
  }
}
