/**
 * The home page's server-side loader and the `/api/audioTracks` endpoint.
 * Both read tracks from the CMS, keep those with a title and a display
 * date, and point the ones stored under `/media/` at the stream endpoint.
 * URL parsing (`new URL(...).pathname`) is the parameter `pathname`.
 */
module ServerLoad {
  import opened Wrappers
  import opened Kirby

  /** The thumbnail as the server loader reports it: the path of the chosen URL, or nothing. */
  function ServerThumbnail(e: Event, pathname: string -> string): (r: Option<string>)
    ensures r.Some? <==> Truthy(Thumbnail(e))
    ensures r.Some? ==> r.value == pathname(Thumbnail(e).value)
  {
    var t := Thumbnail(e);
    if Truthy(t) then Some(pathname(t.value)) else None
  }

  /** The server loader's events: one per input, null read as none. */
  method ServerEvents(events: Option<seq<Event>>, pathname: string -> string) returns (out: seq<Event>)
    ensures |out| == |events.GetOr([])|
    ensures forall i :: 0 <= i < |out| ==>
      var e := events.GetOr([])[i];
      out[i] == e.(thumbnailUrl := ServerThumbnail(e, pathname),
                   videoUrl := VideoUrl(e, pathname), videoMime := VideoMime(e))
  {
    var input := events.GetOr([]);
    out := [];
    for i := 0 to |input|
      invariant |out| == i
      invariant forall j :: 0 <= j < i ==>
        var e := input[j];
        out[j] == e.(thumbnailUrl := ServerThumbnail(e, pathname),
                     videoUrl := VideoUrl(e, pathname), videoMime := VideoMime(e))
    {
      var event := input[i];
      var thumbnailUrl := SelectThumbnail(event);
      var thumbnail := if Truthy(thumbnailUrl) then Some(pathname(thumbnailUrl.value)) else None;
      out := out + [event.(thumbnailUrl := thumbnail,
                           videoUrl := VideoUrl(event, pathname), videoMime := VideoMime(event))];
    }
  }

  /** A CMS info page, passed through as it comes. */
  datatype InfoPage = InfoPage(id: string, title: string, slug: string, text: Option<string>)

  /**
   * `load`: events, audio files and info pages from the three CMS results;
   * a null result counts as an empty list.
   */
  method Load(eventsResult: Option<seq<Event>>, audioResult: Option<seq<Track>>, infoResult: Option<seq<InfoPage>>,
              pathname: string -> string)
    returns (events: seq<Event>, audioFiles: seq<Track>, infoPages: seq<InfoPage>)
    ensures |events| == |eventsResult.GetOr([])|
    ensures forall i :: 0 <= i < |events| ==>
      var e := eventsResult.GetOr([])[i];
      events[i] == e.(thumbnailUrl := ServerThumbnail(e, pathname),
                      videoUrl := VideoUrl(e, pathname), videoMime := VideoMime(e))
    ensures audioResult.None? ==> audioFiles == []
    ensures |audioFiles| == |Listed(audioResult.GetOr([]))|
    ensures forall i :: 0 <= i < |audioFiles| ==>
      var t := Listed(audioResult.GetOr([]))[i];
      audioFiles[i] == t.(filePath := StreamPath(t.filePath))
    ensures infoResult.None? ==> infoPages == []
    ensures infoResult.Some? ==> infoPages == infoResult.value
  {
    events := ServerEvents(eventsResult, pathname);
    audioFiles := StreamListed(audioResult.GetOr([]));
    infoPages := infoResult.GetOr([]);
  }

  /** What the CMS call yields to the endpoint: its result (null included), or an exception. */
  datatype Fetched = Threw | Returned(result: Option<seq<Track>>)

  /** `json(audioFiles)` or `json({error}, {status: 500})`. */
  datatype ApiReply = TrackList(tracks: seq<Track>) | ApiError(status: nat, error: string)

  const FetchFailedMessage: string := "Failed to fetch audio files"

  /**
   * `GET /api/audioTracks`: a thrown error answers 500; a null result an
   * empty list; otherwise the listed tracks, in order, with their paths
   * pointed at the stream endpoint.
   */
  method AudioTracks(fetched: Fetched) returns (reply: ApiReply)
    ensures fetched.Threw? ==> reply == ApiError(500, FetchFailedMessage)
    ensures fetched == Returned(None) ==> reply == TrackList([])
    ensures fetched.Returned? ==>
      && reply.TrackList?
      && |reply.tracks| == |Listed(fetched.result.GetOr([]))|
      && forall i :: 0 <= i < |reply.tracks| ==>
           var t := Listed(fetched.result.GetOr([]))[i];
           reply.tracks[i] == t.(filePath := StreamPath(t.filePath))
    ensures reply.TrackList? ==> forall t :: t in reply.tracks ==> IsListed(t)
  {
    match fetched
    case Threw =>
      reply := ApiError(500, FetchFailedMessage);
    case Returned(response) =>
      var files := if response.None? then [] else response.value;
      var audioFiles := StreamListed(files);
      StreamListedStaysListed(files, audioFiles);
      reply := TrackList(audioFiles);
  }
}
