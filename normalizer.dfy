/**
  The record normaliser inside `performFetchAndStore`
  (service/youtube_service.go): each search result becomes a `Video`, its
  publication time parsed as RFC 3339 and formatted again; the first
  timestamp that does not parse aborts the whole batch.

  Parsing and formatting belong to Go's `time` package and are not part of
  this model: they are passed in as the functions `parse` and `format`.
 */
module Normalizer {
  import opened Wrappers
  import opened VideoModel

  /** A Go `time.Time`: an instant and the zone offset it was written with. */
  datatype Instant = Instant(unixNanos: int, offsetSeconds: int)

  /** The parts of a search result of the YouTube Data API that the service reads. */
  datatype Thumbnail = Thumbnail(url: string)
  datatype ThumbnailDetails = ThumbnailDetails(default: Thumbnail, medium: Thumbnail, high: Thumbnail)
  datatype SearchResultSnippet = SearchResultSnippet(
    title: string,
    description: string,
    publishedAt: string,
    thumbnails: ThumbnailDetails)
  datatype ResourceId = ResourceId(videoId: string)
  datatype SearchResult = SearchResult(id: ResourceId, snippet: SearchResultSnippet)

  /** The record built from one search result, given its re-formatted publication time. */
  function ToVideo(item: SearchResult, publishedAt: string): (v: Video)
    ensures v.id == item.id.videoId && v.publishedAt == publishedAt
    ensures v.title == item.snippet.title && v.description == item.snippet.description
    ensures v.thumbnails.default == item.snippet.thumbnails.default.url
    ensures v.thumbnails.medium == item.snippet.thumbnails.medium.url
    ensures v.thumbnails.high == item.snippet.thumbnails.high.url
  {
    Video(
      item.id.videoId,
      item.snippet.title,
      item.snippet.description,
      publishedAt,
      Thumbnails(
        item.snippet.thumbnails.default.url,
        item.snippet.thumbnails.medium.url,
        item.snippet.thumbnails.high.url))
  }

  /** One item: `None` when its timestamp does not parse. */
  function Normalize(item: SearchResult, parse: string -> Option<Instant>, format: Instant -> string): (r: Option<Video>)
    ensures r.Some? <==> parse(item.snippet.publishedAt).Some?
    ensures r.Some? ==> r.value.id == item.id.videoId && r.value.publishedAt == format(parse(item.snippet.publishedAt).value)
  {
    match parse(item.snippet.publishedAt)
    case None => None
    case Some(t) => Some(ToVideo(item, format(t)))
  }

  /**
    A whole batch, in order: the records, or the position of the first item
    whose timestamp does not parse.
   */
  function NormalizeAll(items: seq<SearchResult>, parse: string -> Option<Instant>, format: Instant -> string)
    : (r: Result<seq<Video>, nat>)
    ensures r.Success? ==> |r.value| == |items|
    ensures r.Failure? ==> r.error < |items|
  {
    if items == [] then Success([])
    else
      match Normalize(items[0], parse, format)
      case None => Failure(0)
      case Some(v) =>
        match NormalizeAll(items[1..], parse, format)
        case Success(rest) => Success([v] + rest)
        case Failure(k) => Failure(k + 1)
  }

  /**
    A successful batch has one record per item, in item order; each copies
    the video ID, title, description and the three thumbnail URLs verbatim
    and carries the parsed-then-formatted publication time.
   */
  lemma {:induction false} NormalizeAllSuccess(items: seq<SearchResult>, parse: string -> Option<Instant>, format: Instant -> string)
    requires NormalizeAll(items, parse, format).Success?
    ensures var vs := NormalizeAll(items, parse, format).value;
      && |vs| == |items|
      && forall i :: 0 <= i < |items| ==>
           && parse(items[i].snippet.publishedAt).Some?
           && vs[i] == ToVideo(items[i], format(parse(items[i].snippet.publishedAt).value))
  {
    if items != [] {
      NormalizeAllSuccess(items[1..], parse, format);
      var vs := NormalizeAll(items, parse, format).value;
      forall i | 1 <= i < |items|
        ensures parse(items[i].snippet.publishedAt).Some?
        ensures vs[i] == ToVideo(items[i], format(parse(items[i].snippet.publishedAt).value))
      {
        assert items[i] == items[1..][i - 1];
      }
    }
  }

  /**
    A failed batch names the first item whose timestamp does not parse: it
    fails to parse and every item before it parses.
   */
  lemma {:induction false} NormalizeAllFailure(items: seq<SearchResult>, parse: string -> Option<Instant>, format: Instant -> string)
    requires NormalizeAll(items, parse, format).Failure?
    ensures var k := NormalizeAll(items, parse, format).error;
      && k < |items|
      && parse(items[k].snippet.publishedAt).None?
      && forall j :: 0 <= j < k ==> parse(items[j].snippet.publishedAt).Some?
  {
    if items != [] && Normalize(items[0], parse, format).Some? {
      NormalizeAllFailure(items[1..], parse, format);
      var k := NormalizeAll(items, parse, format).error;
      assert items[k] == items[1..][k - 1];
      forall j | 1 <= j < k ensures parse(items[j].snippet.publishedAt).Some? {
        assert items[j] == items[1..][j - 1];
      }
    }
  }

  /**
    The batch fails exactly when some timestamp does not parse (so a single
    bad item keeps every record of the batch out of the store).
   */
  lemma NormalizeAllFailsIffUnparsable(items: seq<SearchResult>, parse: string -> Option<Instant>, format: Instant -> string)
    ensures NormalizeAll(items, parse, format).Failure?
        <==> exists k :: 0 <= k < |items| && parse(items[k].snippet.publishedAt).None?
  {
    if NormalizeAll(items, parse, format).Failure? {
      NormalizeAllFailure(items, parse, format);
    } else {
      NormalizeAllSuccess(items, parse, format);
    }
  }

  /**
    The loop of lines 110-129: append one record per item, returning at the
    first timestamp that does not parse.
   */
  method NormalizeItems(items: seq<SearchResult>, parse: string -> Option<Instant>, format: Instant -> string)
    returns (r: Result<seq<Video>, nat>)
    ensures r == NormalizeAll(items, parse, format)
  {
    var videos: seq<Video> := [];
    var i := 0;
    while i < |items|
      invariant 0 <= i <= |items| && |videos| == i
      invariant forall j :: 0 <= j < i ==>
        parse(items[j].snippet.publishedAt).Some?
        && videos[j] == ToVideo(items[j], format(parse(items[j].snippet.publishedAt).value))
    {
      var publishedAt := parse(items[i].snippet.publishedAt);
      if publishedAt.None? {
        FirstFailureIsNormalizeAll(items, parse, format, i);
        return Failure(i);
      }
      videos := videos + [ToVideo(items[i], format(publishedAt.value))];
      i := i + 1;
    }
    r := Success(videos);
    NormalizeAllFailsIffUnparsable(items, parse, format);
    NormalizeAllSuccess(items, parse, format);
    assert videos == NormalizeAll(items, parse, format).value;
  }

  lemma {:induction false} FirstFailureIsNormalizeAll(items: seq<SearchResult>, parse: string -> Option<Instant>, format: Instant -> string, k: nat)
    requires k < |items| && parse(items[k].snippet.publishedAt).None?
    requires forall j :: 0 <= j < k ==> parse(items[j].snippet.publishedAt).Some?
    ensures NormalizeAll(items, parse, format) == Failure(k)
    decreases k
  {
    if k > 0 {
      assert parse(items[0].snippet.publishedAt).Some?;
      var rest := items[1..];
      assert forall j :: 0 <= j < k - 1 ==> rest[j] == items[j + 1];
      assert rest[k - 1] == items[k];
      FirstFailureIsNormalizeAll(rest, parse, format, k - 1);
    }
  }
}
