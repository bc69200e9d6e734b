/**
 * The home page's client-side loader: events with their thumbnails, the
 * merged list of local and SoundCloud recordings, and the CMS pages
 * classified into header and main sections. The CMS results are inputs
 * that may be null; `replaceUrlWithTitle` and URL parsing are parameters.
 */
module PageLoad {
  import opened Wrappers
  import opened JsStrings
  import opened Ordering
  import opened Kirby

  const BackendPrefix: string := "/backend"

  /** The part of `p` from its first `/media/`. */
  function MediaSuffix(p: string): (r: string)
    requires Includes(p, MediaMarker)
    ensures StartsWith(r, MediaMarker)
    ensures |r| <= |p| && p[|p| - |r|..] == r
    ensures r == p[IndexOf(p, MediaMarker).value..]
  {
    var k := IndexOf(p, MediaMarker).value;
    assert OccursAt(p, MediaMarker, k);
    assert p[k..][..7] == p[k..k + 7];
    assert Substring(p, k, |p|) == p[k..|p|] == p[k..];
    Substring(p, k, |p|)
  }

  /** `fixKirbyUrl`: a URL containing `/media/` becomes `/backend` and the suffix from its first `/media/`. */
  function FixKirbyUrl(url: Option<string>): (r: Option<string>)
    ensures r.Some? <==> url.Some?
    ensures Truthy(url) && Includes(url.value, MediaMarker) ==> StartsWith(r.value, BackendPrefix + MediaMarker)
    ensures Truthy(url) && Includes(url.value, MediaMarker) ==>
      r == Some(BackendPrefix + url.value[IndexOf(url.value, MediaMarker).value..])
    ensures !Truthy(url) || !Includes(url.value, MediaMarker) ==> r == url
  {
    if Truthy(url) && Includes(url.value, MediaMarker) then
      var r := BackendPrefix + MediaSuffix(url.value);
      assert r[..15] == BackendPrefix + MediaSuffix(url.value)[..7];
      Some(r)
    else url
  }

  /** `getRelativeMediaPath`: the suffix from the first `/media/`, else the URL, else `""`. */
  function RelativeMediaPath(url: Option<string>): (r: string)
    ensures Truthy(url) && Includes(url.value, MediaMarker) ==> StartsWith(r, MediaMarker)
    ensures Truthy(url) && Includes(url.value, MediaMarker) ==> r == url.value[IndexOf(url.value, MediaMarker).value..]
    ensures !Truthy(url) || !Includes(url.value, MediaMarker) ==> r == url.GetOr("")
  {
    if Truthy(url) && Includes(url.value, MediaMarker) then MediaSuffix(url.value) else url.GetOr("")
  }

  /** A string that starts with `q` has its first `q` at index 0. */
  lemma FirstAtStart(m: string, q: string)
    requires StartsWith(m, q)
    ensures IndexOf(m, q) == Some(0)
  {
    assert OccursAt(m, q, 0);
  }

  /** In `/backend/media/...` the first `/media/` is the one right after `/backend`. */
  lemma FirstAfterBackend(m: string)
    requires StartsWith(m, MediaMarker)
    ensures IndexOf(BackendPrefix + m, MediaMarker) == Some(8)
  {
    var s := BackendPrefix + m;
    assert s[8..15] == m[..7];
    assert OccursAt(s, MediaMarker, 8);
    forall j: nat | j < 8 ensures !OccursAt(s, MediaMarker, j) {
      assert s[..8] == BackendPrefix;
      assert s[j] != '/' || s[j + 1] != 'm';
      assert s[j..j + 7][0] == s[j] && s[j..j + 7][1] == s[j + 1];
    }
  }

  /** Fixing a fixed URL changes nothing. */
  lemma FixKirbyUrlIdempotent(url: Option<string>)
    ensures FixKirbyUrl(FixKirbyUrl(url)) == FixKirbyUrl(url)
  {
    if Truthy(url) && Includes(url.value, MediaMarker) {
      var m := MediaSuffix(url.value);
      var s := BackendPrefix + m;
      FirstAfterBackend(m);
      assert s[8..] == m;
      assert MediaSuffix(s) == s[8..];
    }
  }

  /** The relative path of a relative path is itself. */
  lemma RelativeMediaPathIdempotent(url: Option<string>)
    ensures RelativeMediaPath(Some(RelativeMediaPath(url))) == RelativeMediaPath(url)
  {
    if Truthy(url) && Includes(url.value, MediaMarker) {
      var m := MediaSuffix(url.value);
      FirstAtStart(m, MediaMarker);
      assert MediaSuffix(m) == m[0..];
      assert m[0..] == m;
    }
  }

  /**
   * The production URL and the dev proxy path name the same media file:
   * `/backend` in front of the relative path, whenever the URL has `/media/`.
   */
  lemma FixKirbyUrlIsBackendRelative(url: Option<string>)
    requires Truthy(url) && Includes(url.value, MediaMarker)
    ensures FixKirbyUrl(url) == Some(BackendPrefix + RelativeMediaPath(url))
    ensures LocalPath(url, true) == StreamPrefix + RelativeMediaPath(url)
    ensures LocalPath(url, false) == BackendPrefix + RelativeMediaPath(url)
  {
  }

  /**
   * When no `media/` comes before the first `/media/`, the server loaders'
   * stream path is the dev loader's, less the slash in front of `media/`.
   */
  lemma StreamPathAgreesWithDev(p: string)
    requires p != "" && Includes(p, MediaMarker)
    requires IndexOf(p, "media/") == Some(IndexOf(p, MediaMarker).value + 1)
    ensures StreamPath(Some(p)) == Some(StreamPrefix + RelativeMediaPath(Some(p))[1..])
  {
    var k := IndexOf(p, MediaMarker).value;
    assert MediaSuffix(p) == p[k..];
    assert p[k..][1..] == p[k + 1..];
    assert Substring(p, k + 1, |p|) == p[k + 1..];
  }

  /**
   * A `media/` before the first `/media/` (here in `xmedia/`) makes the
   * server loaders point at `media/media/a` where the dev loader points at
   * `/media/a`.
   */
  lemma StreamPathTakesFirstMedia()
    ensures StreamPath(Some("xmedia/media/a")) == Some(StreamPrefix + "media/media/a")
    ensures RelativeMediaPath(Some("xmedia/media/a")) == "/media/a"
  {
    var p := "xmedia/media/a";
    assert OccursAt(p, "media/", 1);
    assert p[0..6][0] == 'x';
    assert IndexOf(p, "media/") == Some(1);
    assert OccursAt(p, MediaMarker, 6);
    forall j: nat | j < 6 ensures !OccursAt(p, MediaMarker, j) {
      assert p[j] != '/';
      assert p[j..j + 7][0] == p[j];
    }
    assert IndexOf(p, MediaMarker) == Some(6);
    assert Substring(p, 1, |p|) == p[1..] == "media/media/a";
    assert Substring(p, 6, |p|) == p[6..] == "/media/a";
  }

  /**
   * The `filePath` a local track gets: in dev, the stream endpoint with
   * the relative media path; otherwise the fixed URL, or `""` when absent.
   */
  function LocalPath(filePath: Option<string>, dev: bool): (r: string)
    ensures dev ==> StartsWith(r, StreamPrefix)
    ensures !dev && Truthy(filePath) && Includes(filePath.value, MediaMarker) ==> StartsWith(r, BackendPrefix + MediaMarker)
    ensures Truthy(filePath) && Includes(filePath.value, MediaMarker) ==>
      r == (if dev then StreamPrefix else BackendPrefix) + filePath.value[IndexOf(filePath.value, MediaMarker).value..]
    ensures !Truthy(filePath) || !Includes(filePath.value, MediaMarker) ==>
      r == (if dev then StreamPrefix else "") + filePath.GetOr("")
  {
    if dev then
      var r := StreamPrefix + RelativeMediaPath(filePath);
      assert r[..|StreamPrefix|] == StreamPrefix;
      r
    else
      assert "" + filePath.GetOr("") == filePath.GetOr("");
      FixKirbyUrl(filePath).GetOr("")
  }

  /** A local record after the loader's map has rewritten its `filePath` in place. */
  function Prepared(t: Track, dev: bool): Track {
    t.(filePath := Some(LocalPath(t.filePath, dev)))
  }

  /** A local track after the loader's map: its path rewritten, marked as not external. */
  function LocalTrack(t: Track, dev: bool): Track {
    Prepared(t, dev).(isExternal := Some(false))
  }

  /**
   * The loader's `map` over the local files, with a callback that rewrites
   * each record in place and returns a copy of it marked as not external.
   */
  method MapInPlace(files: array<Track>, rewrite: Track -> Track) returns (local: seq<Track>)
    modifies files
    ensures |local| == files.Length
    ensures forall i :: 0 <= i < files.Length ==>
      files[i] == rewrite(old(files[i])) && local[i] == files[i].(isExternal := Some(false))
  {
    local := [];
    for i := 0 to files.Length
      invariant |local| == i
      invariant forall j :: 0 <= j < i ==> files[j] == rewrite(old(files[j]))
      invariant forall j :: 0 <= j < i ==> local[j] == files[j].(isExternal := Some(false))
      invariant forall j :: i <= j < files.Length ==> files[j] == old(files[j])
    {
      files[i] := rewrite(files[i]);
      local := local + [files[i].(isExternal := Some(false))];
    }
  }

  /**
   * The map over the filtered local files: each record's `filePath` is
   * overwritten in place by the development or production path, and a copy
   * marked `isExternal: false` is returned.
   */
  method PrepareLocal(files: array<Track>, dev: bool) returns (local: seq<Track>)
    modifies files
    ensures |local| == files.Length
    ensures forall i :: 0 <= i < files.Length ==>
      files[i] == Prepared(old(files[i]), dev) && local[i] == LocalTrack(old(files[i]), dev)
  {
    local := MapInPlace(files, t => Prepared(t, dev));
  }

  /** A SoundCloud link as the CMS returns it. */
  datatype Link = Link(title: string, sortDate: string, displayDate: string, year: string, url: string)

  /** The audio query's result: local files and SoundCloud links, each possibly absent. */
  datatype AudioData = AudioData(files: Option<seq<Track>>, soundcloudLinks: Option<seq<Link>>)

  /** A SoundCloud link as a track: the URL is its id and its external URL; it has no file. */
  function ExternalTrack(link: Link): (t: Track)
    ensures t.isExternal == Some(true) && t.externalUrl == Some(t.id) && t.id == link.url
    ensures t.filePath == Some("")
    ensures t.sortDate == link.sortDate
  {
    Track(link.url, link.year, link.sortDate, Some(link.displayDate), Some(link.title), Some(""), Some(link.url), Some(true))
  }

  function FilesOf(audio: Option<AudioData>): seq<Track> {
    if audio.Some? then audio.value.files.GetOr([]) else []
  }

  function LinksOf(audio: Option<AudioData>): seq<Link> {
    if audio.Some? then audio.value.soundcloudLinks.GetOr([]) else []
  }

  function LocalTracks(files: seq<Track>, dev: bool): seq<Track> {
    seq(|files|, i requires 0 <= i < |files| => LocalTrack(files[i], dev))
  }

  function ExternalTracks(links: seq<Link>): seq<Track> {
    seq(|links|, i requires 0 <= i < |links| => ExternalTrack(links[i]))
  }

  function TrackSortKey(t: Track): string { t.sortDate }

  /**
   * The recordings of the home page: the listed local files, rewritten,
   * and the SoundCloud links, all of them once, newest sort date first.
   * Each is either a listed local track or a link with its URL as id.
   */
  method LoadAudio(audio: Option<AudioData>, dev: bool) returns (audioFiles: seq<Track>)
    ensures SortedBy(audioFiles, TrackSortKey, true)
    ensures multiset(audioFiles) == multiset(LocalTracks(Listed(FilesOf(audio)), dev) + ExternalTracks(LinksOf(audio)))
    ensures |audioFiles| == |Listed(FilesOf(audio))| + |LinksOf(audio)|
    ensures forall t :: t in audioFiles ==>
      || (t.isExternal == Some(false) && IsListed(t))
      || (t.isExternal == Some(true) && t.externalUrl == Some(t.id))
  {
    var kept := Listed(FilesOf(audio));
    var a := new Track[|kept|](i requires 0 <= i < |kept| => kept[i]);
    var localFiles := PrepareLocal(a, dev);
    assert localFiles == LocalTracks(kept, dev);
    var externalLinks := ExternalTracks(LinksOf(audio));
    var merged := localFiles + externalLinks;
    audioFiles := SortBy(merged, TrackSortKey, true);
    assert |audioFiles| == |merged| by {
      assert |multiset(audioFiles)| == |multiset(merged)|;
    }
    forall t | t in audioFiles
      ensures || (t.isExternal == Some(false) && IsListed(t))
              || (t.isExternal == Some(true) && t.externalUrl == Some(t.id))
    {
      assert t in multiset(merged);
      if t in localFiles {
        var i :| 0 <= i < |localFiles| && localFiles[i] == t;
        assert kept[i] in kept;
      } else {
        assert t in externalLinks;
      }
    }
  }

  /** The client loader's events: one per input, null read as none. */
  method PageEvents(events: Option<seq<Event>>, rewrite: Option<string> -> Option<string>, pathname: string -> string)
    returns (out: seq<Event>)
    ensures |out| == |events.GetOr([])|
    ensures forall i :: 0 <= i < |out| ==>
      var e := events.GetOr([])[i];
      out[i] == e.(text := rewrite(e.text), thumbnailUrl := FixKirbyUrl(Thumbnail(e)),
                   videoUrl := VideoUrl(e, pathname), videoMime := VideoMime(e))
  {
    var input := events.GetOr([]);
    out := [];
    for i := 0 to |input|
      invariant |out| == i
      invariant forall j :: 0 <= j < i ==>
        var e := input[j];
        out[j] == e.(text := rewrite(e.text), thumbnailUrl := FixKirbyUrl(Thumbnail(e)),
                     videoUrl := VideoUrl(e, pathname), videoMime := VideoMime(e))
    {
      var event := input[i];
      var thumbnailUrl := SelectThumbnail(event);
      out := out + [event.(text := rewrite(event.text), thumbnailUrl := FixKirbyUrl(thumbnailUrl),
                           videoUrl := VideoUrl(event, pathname), videoMime := VideoMime(event))];
    }
  }

  /** A CMS page; `children` are pages too. */
  datatype Page = Page(id: string, title: string, slug: string, text: Option<string>, children: Option<seq<Page>>)

  datatype SectionType = HeaderSection | MainSection
  datatype SectionContent = ChildPages(pages: seq<Page>) | TextOnly(text: Option<string>)
  datatype Section = Section(id: string, title: string, slug: string, kind: SectionType, content: SectionContent)

  /** `page.children && page.children.length > 0` */
  predicate HasChildren(p: Page) {
    p.children.Some? && |p.children.value| > 0
  }

  /** Pages other than the events and recordings pages become sections. */
  predicate IsDynamic(p: Page) {
    p.slug != "events" && p.slug != "recordings"
  }

  /**
   * A page as a section: a header section, holding its children with
   * their texts rewritten, exactly when it has children; otherwise a main
   * section holding its own rewritten text.
   */
  function SectionOf(p: Page, rewrite: Option<string> -> Option<string>): (s: Section)
    ensures s.id == p.id && s.title == p.title && s.slug == p.slug
    ensures s.kind == HeaderSection <==> HasChildren(p)
    ensures s.kind == HeaderSection <==> s.content.ChildPages?
    ensures s.content.ChildPages? ==>
      && |s.content.pages| == |p.children.value|
      && forall i :: 0 <= i < |s.content.pages| ==>
           s.content.pages[i] == p.children.value[i].(text := rewrite(p.children.value[i].text))
    ensures s.content.TextOnly? ==> s.content.text == rewrite(p.text)
  {
    var children := if p.children.Some? then
      Some(seq(|p.children.value|, i requires 0 <= i < |p.children.value| =>
        p.children.value[i].(text := rewrite(p.children.value[i].text))))
    else None;
    var text := rewrite(p.text);
    if HasChildren(p) then Section(p.id, p.title, p.slug, HeaderSection, ChildPages(children.value))
    else Section(p.id, p.title, p.slug, MainSection, TextOnly(text))
  }

  /** `dynamicSections` over the (non-null) page list. */
  function Sections(pages: seq<Page>, rewrite: Option<string> -> Option<string>): (r: seq<Section>)
    ensures forall s :: s in r ==> s.slug != "events" && s.slug != "recordings"
    ensures |r| <= |pages|
  {
    if pages == [] then []
    else
      var rest := Sections(pages[1..], rewrite);
      if IsDynamic(pages[0]) then [SectionOf(pages[0], rewrite)] + rest else rest
  }

  /** A section comes from a page kept by the slug filter, and every such page gives one. */
  lemma {:induction false} SectionsMembers(pages: seq<Page>, rewrite: Option<string> -> Option<string>)
    ensures forall p :: p in pages && IsDynamic(p) ==> SectionOf(p, rewrite) in Sections(pages, rewrite)
    ensures forall s :: s in Sections(pages, rewrite) ==>
      exists p :: p in pages && IsDynamic(p) && s == SectionOf(p, rewrite)
  {
    if pages != [] {
      SectionsMembers(pages[1..], rewrite);
      assert pages == [pages[0]] + pages[1..];
    }
  }

  /** The sections keep the pages' order: classifying a concatenation classifies each part. */
  lemma {:induction false} SectionsAppend(a: seq<Page>, b: seq<Page>, rewrite: Option<string> -> Option<string>)
    ensures Sections(a + b, rewrite) == Sections(a, rewrite) + Sections(b, rewrite)
  {
    if a == [] {
      assert a + b == b;
    } else {
      assert (a + b)[0] == a[0] && (a + b)[1..] == a[1..] + b;
      SectionsAppend(a[1..], b, rewrite);
    }
  }

  /** `(pagesResult || [])` followed by the classification. */
  function DynamicSections(pagesResult: Option<seq<Page>>, rewrite: Option<string> -> Option<string>): (r: seq<Section>)
    ensures pagesResult.None? ==> r == []
    ensures forall s :: s in r ==> s.slug != "events" && s.slug != "recordings"
  {
    Sections(pagesResult.GetOr([]), rewrite)
  }
}
