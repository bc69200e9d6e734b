/**
 * The records the CMS (Kirby) hands to the page loaders, and the clean-up
 * steps the loaders share: dropping tracks without a title or a display
 * date, rewriting a media URL into a URL of the site's stream endpoint, and
 * choosing an event's thumbnail among its images.
 *
 * A field the CMS may leave out is an `Option`; a string is truthy in
 * JavaScript when it is present and not empty (`Truthy`).
 */
module Kirby {
  import opened Wrappers
  import opened JsStrings

  /** An audio track as the CMS lists it, with the two fields the loaders add. */
  datatype Track = Track(
    id: string, year: string, sortDate: string,
    displayDate: Option<string>, title: Option<string>, filePath: Option<string>,
    externalUrl: Option<string>, isExternal: Option<bool>)

  datatype Image = Image(url: string, uuid: string)

  /** An image block; `image` is `None` when the block has no content or no image list. */
  datatype ImageBlock = ImageBlock(image: Option<seq<string>>)

  datatype Video = Video(url: Option<string>, mime: Option<string>)

  /** An event page, with the three fields the loaders derive (`thumbnailUrl`, `videoUrl`, `videoMime`). */
  datatype Event = Event(
    id: string, title: string, date: string, text: Option<string>,
    images: Option<seq<Image>>, imageBlocks: Option<seq<ImageBlock>>, videos: Option<seq<Video>>,
    thumbnailUrl: Option<string>, videoUrl: Option<string>, videoMime: Option<string>)

  predicate Truthy(s: Option<string>) {
    s.Some? && s.value != ""
  }

  /** `file.title && file.displayDate` */
  predicate IsListed(t: Track) {
    Truthy(t.title) && Truthy(t.displayDate)
  }

  /** `.filter(file => file.title && file.displayDate)` */
  function Listed(files: seq<Track>): (r: seq<Track>)
    ensures forall t :: t in r <==> t in files && IsListed(t)
    ensures |r| <= |files|
  {
    if files == [] then []
    else
      var rest := Listed(files[1..]);
      assert files == [files[0]] + files[1..];
      if IsListed(files[0]) then [files[0]] + rest else rest
  }

  /** The filter keeps the survivors in their order: filtering a concatenation filters each part. */
  lemma {:induction false} ListedAppend(a: seq<Track>, b: seq<Track>)
    ensures Listed(a + b) == Listed(a) + Listed(b)
  {
    if a == [] {
      assert a + b == b;
    } else {
      assert (a + b)[0] == a[0] && (a + b)[1..] == a[1..] + b;
      ListedAppend(a[1..], b);
    }
  }

  /** Filtering twice drops nothing more. */
  lemma {:induction false} ListedIdempotent(files: seq<Track>)
    ensures Listed(Listed(files)) == Listed(files)
  {
    if files != [] {
      ListedIdempotent(files[1..]);
      if IsListed(files[0]) {
        var rest := Listed(files[1..]);
        assert ([files[0]] + rest)[1..] == rest;
      }
    }
  }

  const MediaMarker: string := "/media/"
  const StreamPrefix: string := "/api/stream?file="

  /** Wherever `/media/` occurs, `media/` occurs one character later. */
  lemma MediaAfterSlash(p: string)
    requires Includes(p, MediaMarker)
    ensures IndexOf(p, "media/").Some?
    ensures IndexOf(p, "media/").value <= IndexOf(p, MediaMarker).value + 1
  {
    var k := IndexOf(p, MediaMarker).value;
    assert p[k + 1..k + 7] == p[k..k + 7][1..];
    assert OccursAt(p, "media/", k + 1);
  }

  /**
   * The rewrite of both server-side track loaders: a truthy path that
   * contains `/media/` becomes the stream endpoint's URL with `file` set to
   * the suffix from the first `media/` (no leading slash); any other path
   * stays as it is.
   */
  function StreamPath(filePath: Option<string>): (r: Option<string>)
    ensures r.Some? <==> filePath.Some?
  {
    if Truthy(filePath) && Includes(filePath.value, MediaMarker) then
      var p := filePath.value;
      MediaAfterSlash(p);
      Some(StreamPrefix + Substring(p, IndexOf(p, "media/").value, |p|))
    else filePath
  }

  /**
   * A rewritten path is the stream prefix followed by the suffix of the
   * original path from its first `media/`, which comes no later than just
   * after its first `/media/`; a path without `/media/` is left alone.
   */
  lemma StreamPathShape(filePath: Option<string>)
    ensures !Truthy(filePath) || !Includes(filePath.value, MediaMarker) ==> StreamPath(filePath) == filePath
    ensures Truthy(filePath) && Includes(filePath.value, MediaMarker) ==>
      var p := filePath.value;
      exists k :: 0 <= k <= IndexOf(p, MediaMarker).value + 1 && k < |p|
        && IndexOf(p, "media/") == Some(k)
        && StreamPath(filePath) == Some(StreamPrefix + p[k..])
        && StartsWith(p[k..], "media/")
  {
    if Truthy(filePath) && Includes(filePath.value, MediaMarker) {
      var p := filePath.value;
      MediaAfterSlash(p);
      var k := IndexOf(p, "media/").value;
      assert OccursAt(p, "media/", k);
      assert p[k..][..6] == p[k..k + 6];
      assert Substring(p, k, |p|) == p[k..|p|] == p[k..];
      assert StreamPath(filePath) == Some(StreamPrefix + p[k..]);
    }
  }

  /**
   * `.map(file => { if (...) file.filePath = ...; return file; })` over
   * the filtered records: each record's `filePath` is rewritten in place,
   * and nothing else about the records changes.
   */
  method RewriteForStream(files: array<Track>)
    modifies files
    ensures forall i :: 0 <= i < files.Length ==>
      files[i] == old(files[i]).(filePath := StreamPath(old(files[i]).filePath))
  {
    for i := 0 to files.Length
      invariant forall j :: 0 <= j < i ==> files[j] == old(files[j]).(filePath := StreamPath(old(files[j]).filePath))
      invariant forall j :: i <= j < files.Length ==> files[j] == old(files[j])
    {
      var file := files[i];
      if Truthy(file.filePath) && Includes(file.filePath.value, MediaMarker) {
        var p := file.filePath.value;
        MediaAfterSlash(p);
        var relativePath := Substring(p, IndexOf(p, "media/").value, |p|);
        files[i] := file.(filePath := Some(StreamPrefix + relativePath));
      }
    }
  }

  /**
   * The audio pipeline of both server-side loaders: filter on title and
   * display date, then rewrite the survivors' paths. The survivors keep
   * their order and every field but `filePath`.
   */
  method StreamListed(files: seq<Track>) returns (out: seq<Track>)
    ensures |out| == |Listed(files)|
    ensures forall i :: 0 <= i < |out| ==>
      out[i] == Listed(files)[i].(filePath := StreamPath(Listed(files)[i].filePath))
  {
    var kept := Listed(files);
    var a := new Track[|kept|](i requires 0 <= i < |kept| => kept[i]);
    RewriteForStream(a);
    out := a[..];
  }

  /** A rewritten track is still listed: the filter's fields are untouched. */
  lemma StreamListedStaysListed(files: seq<Track>, out: seq<Track>)
    requires |out| == |Listed(files)|
    requires forall i :: 0 <= i < |out| ==>
      out[i] == Listed(files)[i].(filePath := StreamPath(Listed(files)[i].filePath))
    ensures forall t :: t in out ==> IsListed(t)
    ensures Listed(out) == out
  {
    forall t | t in out ensures IsListed(t) {
      var i :| 0 <= i < |out| && out[i] == t;
      assert Listed(files)[i] in Listed(files);
    }
    ListedAll(out);
  }

  /** Filtering a list whose every track is listed keeps it whole. */
  lemma {:induction false} ListedAll(files: seq<Track>)
    requires forall t :: t in files ==> IsListed(t)
    ensures Listed(files) == files
  {
    if files != [] {
      assert files[0] in files;
      forall t | t in files[1..] ensures IsListed(t) {
        assert t in files;
      }
      ListedAll(files[1..]);
      assert files == [files[0]] + files[1..];
    }
  }

  /** `fileId.includes(img.uuid) || img.uuid === fileId` */
  predicate Matches(img: Image, fileId: string) {
    Includes(fileId, img.uuid) || img.uuid == fileId
  }

  /** The second test of the match adds nothing: a string includes itself. */
  lemma MatchesIsInclusion(img: Image, fileId: string)
    ensures Matches(img, fileId) <==> Includes(fileId, img.uuid)
  {
    if img.uuid == fileId {
      assert fileId[0..|fileId|] == fileId;
      IncludesAt(fileId, fileId, 0);
    }
  }

  /** `images.find(...)`, as the index of the first image that matches. */
  function FindImage(images: seq<Image>, fileId: string): (r: Option<nat>)
    ensures r.Some? ==> r.value < |images| && Matches(images[r.value], fileId)
    ensures r.Some? ==> forall j :: 0 <= j < r.value ==> !Matches(images[j], fileId)
    ensures r.None? ==> forall j :: 0 <= j < |images| ==> !Matches(images[j], fileId)
  {
    if images == [] then None
    else if Matches(images[0], fileId) then Some(0)
    else
      match FindImage(images[1..], fileId)
      case None => None
      case Some(k) => Some(k + 1)
  }

  /** `event.images?.[0]?.url` */
  function FirstImageUrl(e: Event): Option<string> {
    if e.images.Some? && |e.images.value| > 0 then Some(e.images.value[0].url) else None
  }

  /** The first image block's first image id, when the event has one. */
  function BlockFileId(e: Event): Option<string> {
    if e.imageBlocks.Some? && |e.imageBlocks.value| > 0
      && e.imageBlocks.value[0].image.Some? && |e.imageBlocks.value[0].image.value| > 0
    then Some(e.imageBlocks.value[0].image.value[0])
    else None
  }

  /**
   * The thumbnail rule of both loaders: the first image that matches the
   * first image block's image id, or else the first image.
   */
  function Thumbnail(e: Event): Option<string> {
    if BlockFileId(e).Some? && e.images.Some? && FindImage(e.images.value, BlockFileId(e).value).Some? then
      Some(e.images.value[FindImage(e.images.value, BlockFileId(e).value).value].url)
    else FirstImageUrl(e)
  }

  /**
   * The statements of the loaders that set `let thumbnailUrl`: first
   * image's URL, overwritten by the matching image's URL when there is one.
   */
  method SelectThumbnail(e: Event) returns (thumbnailUrl: Option<string>)
    ensures thumbnailUrl == Thumbnail(e)
  {
    thumbnailUrl := FirstImageUrl(e);
    if e.imageBlocks.Some? && |e.imageBlocks.value| > 0 {
      var firstImageBlock := e.imageBlocks.value[0];
      if firstImageBlock.image.Some? && |firstImageBlock.image.value| > 0 {
        var fileId := firstImageBlock.image.value[0];
        var matchingImage := if e.images.Some? then FindImage(e.images.value, fileId) else None;
        if matchingImage.Some? {
          thumbnailUrl := Some(e.images.value[matchingImage.value].url);
        }
      }
    }
  }

  /** When image `k` is the first to match the block's image id, its URL is the thumbnail. */
  lemma ThumbnailIsFirstMatch(e: Event, k: nat)
    requires BlockFileId(e).Some? && e.images.Some? && k < |e.images.value|
    requires Matches(e.images.value[k], BlockFileId(e).value)
    requires forall j :: 0 <= j < k ==> !Matches(e.images.value[j], BlockFileId(e).value)
    ensures Thumbnail(e) == Some(e.images.value[k].url)
  {
  }

  /** With no image block id, or no image matching it, the thumbnail is the first image's URL. */
  lemma ThumbnailWithoutMatch(e: Event)
    requires BlockFileId(e).None? || e.images.None?
      || forall j :: 0 <= j < |e.images.value| ==> !Matches(e.images.value[j], BlockFileId(e).value)
    ensures Thumbnail(e) == FirstImageUrl(e)
  {
  }

  /** A thumbnail is always the URL of one of the event's own images. */
  lemma ThumbnailFromImages(e: Event)
    ensures Thumbnail(e).Some? ==>
      e.images.Some? && exists i :: 0 <= i < |e.images.value| && e.images.value[i].url == Thumbnail(e).value
  {
    if Thumbnail(e).Some? && FirstImageUrl(e) != Thumbnail(e) {
      var k := FindImage(e.images.value, BlockFileId(e).value).value;
      assert e.images.value[k].url == Thumbnail(e).value;
    }
  }

  /** `event.videos?.[0]?.url ? pathname(url) : undefined`, URL parsing given as `pathname`. */
  function VideoUrl(e: Event, pathname: string -> string): (r: Option<string>)
    ensures r.Some? ==> e.videos.Some? && |e.videos.value| > 0 && Truthy(e.videos.value[0].url)
    ensures e.videos.Some? && |e.videos.value| > 0 && Truthy(e.videos.value[0].url) ==>
      r == Some(pathname(e.videos.value[0].url.value))
  {
    if e.videos.Some? && |e.videos.value| > 0 && Truthy(e.videos.value[0].url) then
      Some(pathname(e.videos.value[0].url.value))
    else None
  }

  /** `event.videos?.[0]?.mime` */
  function VideoMime(e: Event): (r: Option<string>)
    ensures r.Some? ==> e.videos.Some? && |e.videos.value| > 0 && r == e.videos.value[0].mime
    ensures e.videos.Some? && |e.videos.value| > 0 ==> r == e.videos.value[0].mime
  {
    if e.videos.Some? && |e.videos.value| > 0 then e.videos.value[0].mime else None
  }
}
